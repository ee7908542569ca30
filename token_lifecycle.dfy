/**
 How the issuer and introspection of the authentication service and the
 resource server's decoder of the security configuration fit together. Both
 read the same configured secret, `signerKey`.
*/
module TokenLifecycle {
  import opened Wrappers
  import opened Jwt
  import opened AuthenticationService
  import opened SecurityConfig

  /** On a token whose header names HS512, the decoder's signature check and introspection's agree. */
  lemma DecoderAgreesWithIntrospect(lib: Library, signerKey: string, token: string)
    requires Parse(lib, token).Ok? && Parse(lib, token).value.token.header.alg == HS512
    ensures DecoderAcceptsSignature(lib, signerKey, token) <==>
      VerifySignature(lib, lib.keyBytes(signerKey), Parse(lib, token).value) == Ok(true)
  {
  }

  /**
   Introspection follows the header's algorithm among the HMAC family, the
   decoder only HS512: a token MACed under HS256 or HS384 with the signer key is
   reported valid by introspection while it is unexpired, and refused by the decoder.
  */
  lemma IntrospectAcceptsOtherMacAlgorithms(lib: Library, signerKey: string, t: Token, nowMillis: nat)
    requires Lawful(lib)
    requires t.header.alg == HS256 || t.header.alg == HS384
    requires lib.hmac(t.header.alg, lib.keyBytes(signerKey), SigningInput(lib, t.header, t.claims)) == Some(t.signature)
    requires t.claims.exp.Some? && nowMillis < DateMillis(t.claims.exp.value)
    ensures Introspect(lib, signerKey, IntrospectRequest(Serialize(lib, t)), nowMillis) == Ok(IntrospectResponse(true))
    ensures !DecoderAcceptsSignature(lib, signerKey, Serialize(lib, t))
  {
    ParseSerialize(lib, t);
  }

  /** Every token the service issues passes the decoder's signature check under the same key. */
  lemma DecoderAcceptsIssuedTokens(lib: Library, signerKey: string, user: User, nowMillis: nat)
    requires Lawful(lib)
    requires GenerateToken(lib, signerKey, user, nowMillis).Ok?
    ensures DecoderAcceptsSignature(lib, signerKey, GenerateToken(lib, signerKey, user, nowMillis).value)
  {
    IssuedTokenClaims(lib, signerKey, user, nowMillis);
  }

  /** The token of a successful login, presented as a bearer token, is let through on every request. */
  lemma LoginTokenAuthorizes(
    users: UserRepository, matches: (string, string) -> bool, lib: Library, signerKey: string,
    request: AuthenticationRequest, nowMillis: nat, verb: HttpMethod, path: string)
    requires Lawful(lib)
    requires AuthenticationService.Authenticated(users, matches, lib, signerKey, request, nowMillis).Ok?
    ensures AllowRequest(lib, signerKey, verb, path, Some(AuthenticationService.Authenticated(users, matches, lib, signerKey, request, nowMillis).value.token))
  {
    DecoderAcceptsIssuedTokens(lib, signerKey, users[request.username], nowMillis);
  }
}
