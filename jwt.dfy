/**
 The signed-token layer the service relies on: a JWS in compact serialization
 (section 7.1 of RFC 7515) whose payload is a JWT claim set (RFC 7519).
 The encoders (base64url of JSON) and HMAC are not modelled as code: they are
 the function values of a `Library`, and only the laws the service relies on
 are assumed of them, through `Lawful`.
*/
module Jwt {
  import opened Wrappers
  import opened Errors
  import opened Text

  newtype byte = x: int | 0 <= x < 256
  type Bytes = seq<byte>

  /** The "alg" header value (section 3.1 of RFC 7518). */
  datatype Algorithm = HS256 | HS384 | HS512 | NonMac(name: string)

  /** The HMAC algorithms of section 3.2 of RFC 7518, the ones a MAC signer and verifier support. */
  predicate IsMac(alg: Algorithm)
  {
    alg.HS256? || alg.HS384? || alg.HS512?
  }

  datatype Header = Header(alg: Algorithm)

  /**
   The claims the service writes and reads: the registered claims of section 4.1
   of RFC 7519 and the custom "scope" claim. A claim may be absent. Times are
   NumericDate values, whole seconds since the epoch.
  */
  datatype Claims = Claims(
    sub: Option<string>,
    iss: Option<string>,
    iat: Option<int>,
    exp: Option<int>,
    scope: Option<string>)

  datatype Token = Token(header: Header, claims: Claims, signature: Bytes)

  /** How one segment of the compact serialization is written and read back. */
  datatype Codec<!T> = Codec(encode: T -> string, decode: string -> Option<T>)

  /** A segment encoder never writes the separator (base64url has no '.') and decoding undoes it. */
  ghost predicate SegmentCodec<T(!new)>(c: Codec<T>)
  {
    forall x :: Dot !in c.encode(x) && c.decode(c.encode(x)) == Some(x)
  }

  /**
   The JOSE library as the service sees it. `keyBytes` is String.getBytes of the
   configured secret; `hmac` computes a MAC under an algorithm and a key, and is
   None when the library throws instead (for instance for a key it refuses).
  */
  datatype Library = Library(
    headerCodec: Codec<Header>,
    claimsCodec: Codec<Claims>,
    signatureCodec: Codec<Bytes>,
    keyBytes: string -> Bytes,
    hmac: (Algorithm, Bytes, string) -> Option<Bytes>)

  ghost predicate Lawful(lib: Library)
  {
    SegmentCodec(lib.headerCodec) && SegmentCodec(lib.claimsCodec) && SegmentCodec(lib.signatureCodec)
  }

  const Dot: char := '.'

  /** A java.util.Date, in milliseconds, written as a NumericDate: the seconds, truncated. */
  function NumericDate(millis: nat): nat
  {
    millis / 1000
  }

  /** A NumericDate read back as a java.util.Date in milliseconds. */
  function DateMillis(seconds: int): int
  {
    seconds * 1000
  }

  /** The text the signature covers: the first two segments and the dot between them. */
  function SigningInput(lib: Library, header: Header, claims: Claims): string
  {
    lib.headerCodec.encode(header) + [Dot] + lib.claimsCodec.encode(claims)
  }

  /** The compact serialization: header, payload and signature segments joined by dots. */
  function Serialize(lib: Library, t: Token): (s: string)
    ensures s == SigningInput(lib, t.header, t.claims) + [Dot] + lib.signatureCodec.encode(t.signature)
  {
    var parts := [lib.headerCodec.encode(t.header), lib.claimsCodec.encode(t.claims), lib.signatureCodec.encode(t.signature)];
    assert Join(parts[1..], Dot) == parts[1] + [Dot] + parts[2] by {
      assert parts[1..][1..] == [parts[2]];
    }
    Join(parts, Dot)
  }

  /** A parsed JWS: the token and the exact text of the string its signature is checked over. */
  datatype Jws = Jws(token: Token, signingInput: string)

  /**
   SignedJWT.parse followed by reading the claim set: exactly three dot-separated
   segments, each of which must decode.
  */
  function Parse(lib: Library, s: string): (r: Result<Jws, Failure>)
    ensures r.Err? ==> r.error == ParseException
    ensures Occurrences(s, Dot) != 2 ==> r.Err?
    ensures r.Ok? ==>
      var n := |r.value.signingInput|;
      n < |s| && s[..n] == r.value.signingInput && s[n] == Dot && Dot !in s[n + 1..]
    ensures r.Ok? ==>
      var parts := Split(s, Dot);
      && lib.headerCodec.decode(parts[0]) == Some(r.value.token.header)
      && lib.claimsCodec.decode(parts[1]) == Some(r.value.token.claims)
      && lib.signatureCodec.decode(parts[2]) == Some(r.value.token.signature)
    ensures r.Ok? <==>
      var parts := Split(s, Dot);
      && |parts| == 3
      && lib.headerCodec.decode(parts[0]).Some?
      && lib.claimsCodec.decode(parts[1]).Some?
      && lib.signatureCodec.decode(parts[2]).Some?
  {
    var parts := Split(s, Dot);
    if |parts| != 3 then Err(ParseException)
    else
      match (lib.headerCodec.decode(parts[0]), lib.claimsCodec.decode(parts[1]), lib.signatureCodec.decode(parts[2]))
      case (Some(header), Some(claims), Some(signature)) =>
        assert s == parts[0] + [Dot] + parts[1] + [Dot] + parts[2] by {
          assert parts[1..][1..] == [parts[2]];
          assert Join(parts[1..], Dot) == parts[1] + [Dot] + parts[2];
          assert s == Join(parts, Dot) == parts[0] + [Dot] + Join(parts[1..], Dot);
        }
        var input := parts[0] + [Dot] + parts[1];
        assert s[|input| + 1..] == parts[2];
        Ok(Jws(Token(header, claims, signature), input))
      case _ => Err(ParseException)
  }

  /** A parsed token's signature is the MAC of its signing input under its own MAC algorithm and the key. */
  ghost predicate SignatureMatches(lib: Library, key: Bytes, jws: Jws)
  {
    IsMac(jws.token.header.alg) && lib.hmac(jws.token.header.alg, key, jws.signingInput) == Some(jws.token.signature)
  }

  /**
   MACVerifier.verify: recompute the MAC of the signing input under the header's
   algorithm and compare it with the signature. A non-MAC algorithm, or a MAC the
   library cannot compute, is a JOSEException; a mismatch is plain false.
  */
  function VerifySignature(lib: Library, key: Bytes, jws: Jws): (r: Result<bool, Failure>)
    ensures r.Err? ==> r.error == JoseException
    ensures r == Ok(true) <==> SignatureMatches(lib, key, jws)
    ensures r.Err? <==> !IsMac(jws.token.header.alg) || lib.hmac(jws.token.header.alg, key, jws.signingInput).None?
  {
    var alg := jws.token.header.alg;
    if !IsMac(alg) then Err(JoseException)
    else
      match lib.hmac(alg, key, jws.signingInput)
      case None => Err(JoseException)
      case Some(expected) => Ok(expected == jws.token.signature)
  }

  /** JWSObject.sign with a MACSigner: the token carrying the MAC of the signing input, or the library's JOSEException. */
  function Sign(lib: Library, key: Bytes, header: Header, claims: Claims): (r: Result<Token, Failure>)
    ensures r.Err? ==> r.error == JoseException
    ensures r.Ok? <==> IsMac(header.alg) && lib.hmac(header.alg, key, SigningInput(lib, header, claims)).Some?
    ensures r.Ok? ==> r.value.header == header && r.value.claims == claims
    ensures r.Ok? ==> VerifySignature(lib, key, Jws(r.value, SigningInput(lib, header, claims))) == Ok(true)
  {
    if !IsMac(header.alg) then Err(JoseException)
    else
      match lib.hmac(header.alg, key, SigningInput(lib, header, claims))
      case None => Err(JoseException)
      case Some(signature) => Ok(Token(header, claims, signature))
  }

  /** Parsing a serialized token gives back the token, with the signing input it was signed over. */
  lemma ParseSerialize(lib: Library, t: Token)
    requires Lawful(lib)
    ensures Parse(lib, Serialize(lib, t)) == Ok(Jws(t, SigningInput(lib, t.header, t.claims)))
  {
    var h, c, g := lib.headerCodec.encode(t.header), lib.claimsCodec.encode(t.claims), lib.signatureCodec.encode(t.signature);
    SplitJoin([h, c, g], Dot);
  }

  /** A token string whose signature segment is replaced is rejected by the verifier or has a different signature. */
  lemma ForgedSignatureRejected(lib: Library, key: Bytes, t: Token)
    requires Lawful(lib)
    requires IsMac(t.header.alg)
    requires lib.hmac(t.header.alg, key, SigningInput(lib, t.header, t.claims)).Some?
    requires lib.hmac(t.header.alg, key, SigningInput(lib, t.header, t.claims)).value != t.signature
    ensures Parse(lib, Serialize(lib, t)).Ok?
    ensures VerifySignature(lib, key, Parse(lib, Serialize(lib, t)).value) == Ok(false)
  {
    ParseSerialize(lib, t);
  }
}
