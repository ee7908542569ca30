/**
 The security configuration: the request-authorisation rules of the filter
 chain, matched first to last, and the resource server's JWT decoder.
*/
module SecurityConfig {
  import opened Wrappers
  import opened Jwt

  datatype HttpMethod = Get | Head | Post | Put | Patch | Delete | Options | Trace

  /** The endpoints reachable without authentication, for POST only. */
  const PublicEndpoints: seq<string> := ["/users", "/auth/token", "/auth/introspect"]

  datatype Access = PermitAll | Authenticated

  datatype MethodMatcher = AnyMethod | OnlyMethod(verb: HttpMethod)
  datatype PathMatcher = AnyPath | OneOf(paths: seq<string>)
  datatype Rule = Rule(verb: MethodMatcher, path: PathMatcher, access: Access)

  /** requestMatchers(POST, PUBLIC_ENDPOINTS).permitAll(), then anyRequest().authenticated(). */
  const FilterChainRules: seq<Rule> := [
    Rule(OnlyMethod(Post), OneOf(PublicEndpoints), PermitAll),
    Rule(AnyMethod, AnyPath, Authenticated)
  ]

  predicate RuleMatches(rule: Rule, verb: HttpMethod, path: string)
  {
    && (rule.verb.AnyMethod? || rule.verb.verb == verb)
    && (rule.path.AnyPath? || path in rule.path.paths)
  }

  /** The access of the first rule that matches the request; None when no rule matches. */
  function FirstMatch(rules: seq<Rule>, verb: HttpMethod, path: string): (r: Option<Access>)
    ensures r.None? <==> forall i :: 0 <= i < |rules| ==> !RuleMatches(rules[i], verb, path)
    ensures r.Some? ==> exists i ::
              && 0 <= i < |rules|
              && RuleMatches(rules[i], verb, path)
              && rules[i].access == r.value
              && forall j :: 0 <= j < i ==> !RuleMatches(rules[j], verb, path)
  {
    if |rules| == 0 then None
    else if RuleMatches(rules[0], verb, path) then Some(rules[0].access)
    else
      var r := FirstMatch(rules[1..], verb, path);
      assert forall i :: 1 <= i < |rules| ==> rules[1..][i - 1] == rules[i];
      if r.Some? then
        var k :| 0 <= k < |rules[1..]| && RuleMatches(rules[1..][k], verb, path) && rules[1..][k].access == r.value
          && forall j :: 0 <= j < k ==> !RuleMatches(rules[1..][j], verb, path);
        assert RuleMatches(rules[k + 1], verb, path) && forall j :: 0 <= j < k + 1 ==> !RuleMatches(rules[j], verb, path);
        r
      else r
  }

  /** The access the filter chain demands of a request; the catch-all rule always matches. */
  function RequiredAccess(verb: HttpMethod, path: string): Access
  {
    var r := FirstMatch(FilterChainRules, verb, path);
    assert RuleMatches(FilterChainRules[1], verb, path);
    r.value
  }

  /**
   Whether the filter chain lets the request through, given whether it is
   authenticated: exactly a POST to a public endpoint, or an authenticated request.
  */
  function Authorize(verb: HttpMethod, path: string, authenticated: bool): (allowed: bool)
    ensures allowed <==> (verb == Post && path in PublicEndpoints) || authenticated
  {
    assert RuleMatches(FilterChainRules[1], verb, path);
    match RequiredAccess(verb, path)
    case PermitAll => true
    case Authenticated => authenticated
  }

  /** POST /users, POST /auth/token and POST /auth/introspect need no authentication. */
  lemma PublicPostsPermitted(path: string)
    requires path in PublicEndpoints
    ensures RequiredAccess(Post, path) == PermitAll
    ensures Authorize(Post, path, false)
  {
  }

  /** Any other method on a public endpoint, GET /auth/token among them, must be authenticated. */
  lemma OtherMethodsOnPublicEndpointsAuthenticated(verb: HttpMethod, path: string)
    requires verb != Post
    ensures RequiredAccess(verb, path) == Authenticated
    ensures !Authorize(verb, path, false)
  {
    assert RuleMatches(FilterChainRules[1], verb, path);
  }

  /** Any path outside the public endpoints must be authenticated, whatever the method. */
  lemma OtherPathsAuthenticated(verb: HttpMethod, path: string)
    requires path !in PublicEndpoints
    ensures RequiredAccess(verb, path) == Authenticated
    ensures !Authorize(verb, path, false)
  {
    assert RuleMatches(FilterChainRules[1], verb, path);
  }

  /** The one algorithm the decoder accepts, the one of its SecretKeySpec. */
  const DecoderAlgorithm: Algorithm := HS512

  /**
   The signature check of jwtDecoder: the token must parse, name HS512, and carry
   the HS512 MAC under the bytes of the configured signer key.
  */
  function DecoderAcceptsSignature(lib: Library, signerKey: string, token: string): (accepted: bool)
    ensures accepted <==>
      && Parse(lib, token).Ok?
      && Parse(lib, token).value.token.header.alg == HS512
      && SignatureMatches(lib, lib.keyBytes(signerKey), Parse(lib, token).value)
  {
    match Parse(lib, token)
    case Err(_) => false
    case Ok(jws) =>
      jws.token.header.alg == DecoderAlgorithm
      && lib.hmac(DecoderAlgorithm, lib.keyBytes(signerKey), jws.signingInput) == Some(jws.token.signature)
  }

  /** A request with an optional bearer token, authenticated when the decoder accepts the token's signature. */
  function AllowRequest(lib: Library, signerKey: string, verb: HttpMethod, path: string, bearer: Option<string>): (allowed: bool)
    ensures allowed <==> (verb == Post && path in PublicEndpoints) || (bearer.Some? && DecoderAcceptsSignature(lib, signerKey, bearer.value))
  {
    Authorize(verb, path, bearer.Some? && DecoderAcceptsSignature(lib, signerKey, bearer.value))
  }

  /** An anonymous request is allowed exactly on the POST allow-list. */
  lemma AnonymousRequests(lib: Library, signerKey: string, verb: HttpMethod, path: string)
    ensures AllowRequest(lib, signerKey, verb, path, None) <==> verb == Post && path in PublicEndpoints
  {
  }
}
