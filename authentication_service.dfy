/**
 The authentication service: building the scope claim, issuing an HS512-signed
 JWT for a user, introspecting a token, and the login flow. The wall clock is
 the parameter `nowMillis` (milliseconds since the epoch), the user repository
 a map from username to user, and the password encoder the predicate `matches`.
*/
module AuthenticationService {
  import opened Wrappers
  import opened Errors
  import opened Text
  import opened Jwt

  const Issuer: string := "anhtrinhnam02.com"

  /** One hour, the validity of an issued token. */
  const ValidityMillis: nat := 3_600_000

  /** The header of every issued token. */
  const IssuedHeader: Header := Header(HS512)

  const ScopeSeparator: char := ' '

  /** A stored user; `roles` is the role set in its iteration order, None when null. */
  datatype User = User(username: string, password: string, roles: Option<seq<string>>)

  type UserRepository = map<string, User>

  datatype AuthenticationRequest = AuthenticationRequest(username: string, password: string)
  datatype AuthenticationResponse = AuthenticationResponse(token: string, authenticated: bool)
  datatype IntrospectRequest = IntrospectRequest(token: string)
  datatype IntrospectResponse = IntrospectResponse(valid: bool)

  /** findByUsername finds a user under its own username. */
  predicate IndexedByUsername(users: UserRepository)
  {
    forall name :: name in users ==> users[name].username == name
  }

  /** The space-separated role names, or "" when the user has no roles. */
  function BuildScope(user: User): (scope: string)
    ensures user.roles.None? || user.roles == Some([]) ==> scope == ""
  {
    if user.roles.None? || |user.roles.value| == 0 then ""
    else Join(user.roles.value, ScopeSeparator)
  }

  /** What a reader of the scope claim takes the roles to be. */
  function ScopeRoles(scope: string): seq<string>
  {
    if scope == "" then [] else Split(scope, ScopeSeparator)
  }

  /** A role name that survives a trip through the scope claim. */
  predicate PlainRoleName(name: string)
  {
    |name| > 0 && ScopeSeparator !in name
  }

  /** For a non-empty role set, splitting the scope on spaces gives back the roles, when no name holds a space. */
  lemma BuildScopeSplit(user: User)
    requires user.roles.Some? && |user.roles.value| > 0
    requires forall i :: 0 <= i < |user.roles.value| ==> ScopeSeparator !in user.roles.value[i]
    ensures Split(BuildScope(user), ScopeSeparator) == user.roles.value
  {
    SplitJoin(user.roles.value, ScopeSeparator);
  }

  /** The roles are read back from the scope exactly, the empty and the null role set both as no roles. */
  lemma ScopeRolesOfBuildScope(user: User)
    requires user.roles.Some? ==> forall i :: 0 <= i < |user.roles.value| ==> PlainRoleName(user.roles.value[i])
    ensures ScopeRoles(BuildScope(user)) == if user.roles.None? then [] else user.roles.value
  {
    if user.roles.Some? && |user.roles.value| > 0 {
      BuildScopeSplit(user);
      assert |Split(BuildScope(user), ScopeSeparator)[0]| > 0;
    }
  }

  /**
   The claim set generateToken builds at time nowMillis: the user as subject, the
   fixed issuer, the scope, and an expiry one hour (3600 NumericDate seconds) after
   the issue time, which lies within the last second before nowMillis + 1 hour.
  */
  function IssuedClaims(user: User, nowMillis: nat): (c: Claims)
    ensures c.sub == Some(user.username) && c.iss == Some("anhtrinhnam02.com")
    ensures c.scope == Some(BuildScope(user))
    ensures c.iat == Some(nowMillis / 1000) && c.exp.Some? && c.exp.value == c.iat.value + 3600
    ensures nowMillis + 3_599_000 < DateMillis(c.exp.value) <= nowMillis + ValidityMillis
  {
    Claims(
      sub := Some(user.username),
      iss := Some(Issuer),
      iat := Some(NumericDate(nowMillis)),
      exp := Some(NumericDate(nowMillis + ValidityMillis)),
      scope := Some(BuildScope(user)))
  }

  /**
   generateToken: the HS512-signed, serialized token for the user, or a
   RuntimeException when the library cannot sign; never an unsigned token.
  */
  function GenerateToken(lib: Library, signerKey: string, user: User, nowMillis: nat): (r: Result<string, Failure>)
    ensures r.Err? ==> r.error == RuntimeException
    ensures r.Ok? <==> lib.hmac(HS512, lib.keyBytes(signerKey), SigningInput(lib, IssuedHeader, IssuedClaims(user, nowMillis))).Some?
    ensures r.Ok? ==> exists t: Token :: r.value == Serialize(lib, t)
  {
    match Sign(lib, lib.keyBytes(signerKey), IssuedHeader, IssuedClaims(user, nowMillis))
    case Err(_) => Err(RuntimeException)
    case Ok(token) => Ok(Serialize(lib, token))
  }

  /** A generated token parses back to the HS512 header, the issued claims and a signature that verifies. */
  lemma IssuedTokenClaims(lib: Library, signerKey: string, user: User, nowMillis: nat)
    requires Lawful(lib)
    requires GenerateToken(lib, signerKey, user, nowMillis).Ok?
    ensures var p := Parse(lib, GenerateToken(lib, signerKey, user, nowMillis).value);
      && p.Ok?
      && p.value.token.header.alg == HS512
      && p.value.token.claims.sub == Some(user.username)
      && p.value.token.claims.iss == Some("anhtrinhnam02.com")
      && p.value.token.claims.iat == Some(nowMillis / 1000)
      && p.value.token.claims.exp == Some(nowMillis / 1000 + 3600)
      && p.value.token.claims.scope == Some(BuildScope(user))
      && nowMillis + 3_599_000 < DateMillis(p.value.token.claims.exp.value) <= nowMillis + 3_600_000
      && VerifySignature(lib, lib.keyBytes(signerKey), p.value) == Ok(true)
  {
    var claims := IssuedClaims(user, nowMillis);
    var t := Sign(lib, lib.keyBytes(signerKey), IssuedHeader, claims).value;
    ParseSerialize(lib, t);
  }

  /**
   introspect: parse the token, verify its signature under the signer key, and
   report it valid when the signature verifies and now is strictly before "exp".
   The conjunction short-circuits, so a missing "exp" is dereferenced only when
   the signature verifies.
  */
  function Introspect(lib: Library, signerKey: string, request: IntrospectRequest, nowMillis: nat): (r: Result<IntrospectResponse, Failure>)
    ensures r.Err? ==> r.error in {ParseException, JoseException, NullPointerException}
    ensures Parse(lib, request.token).Err? ==> r == Err(ParseException)
    ensures r.Ok? && r.value.valid ==> Parse(lib, request.token).Ok? && SignatureMatches(lib, lib.keyBytes(signerKey), Parse(lib, request.token).value)
  {
    var jws :- Parse(lib, request.token);
    var verified :- VerifySignature(lib, lib.keyBytes(signerKey), jws);
    if !verified then Ok(IntrospectResponse(false))
    else
      match jws.token.claims.exp
      case None => Err(NullPointerException)
      case Some(exp) => Ok(IntrospectResponse(DateMillis(exp) > nowMillis))
  }

  /** A token is reported valid exactly when its signature verifies and now is strictly before its expiry. */
  lemma IntrospectValid(lib: Library, signerKey: string, request: IntrospectRequest, nowMillis: nat)
    ensures Introspect(lib, signerKey, request, nowMillis) == Ok(IntrospectResponse(true)) <==>
      var p := Parse(lib, request.token);
      && p.Ok?
      && SignatureMatches(lib, lib.keyBytes(signerKey), p.value)
      && p.value.token.claims.exp.Some?
      && nowMillis < p.value.token.claims.exp.value * 1000
  {
  }

  /** At the expiry instant itself a token is not valid. */
  lemma IntrospectAtExpiry(lib: Library, signerKey: string, request: IntrospectRequest, exp: nat)
    requires Parse(lib, request.token).Ok? && Parse(lib, request.token).value.token.claims.exp == Some(exp)
    ensures Introspect(lib, signerKey, request, exp * 1000) != Ok(IntrospectResponse(true))
  {
  }

  /** Validity only ends: a token valid at some instant was valid at every earlier one. */
  lemma IntrospectValidEarlier(lib: Library, signerKey: string, request: IntrospectRequest, earlier: nat, later: nat)
    requires earlier <= later
    requires Introspect(lib, signerKey, request, later) == Ok(IntrospectResponse(true))
    ensures Introspect(lib, signerKey, request, earlier) == Ok(IntrospectResponse(true))
  {
  }

  /** A string that is not three dot-separated segments is a parse error, not a result. */
  lemma IntrospectMalformed(lib: Library, signerKey: string, request: IntrospectRequest, nowMillis: nat)
    requires Occurrences(request.token, Dot) != 2
    ensures Introspect(lib, signerKey, request, nowMillis) == Err(ParseException)
  {
  }

  /** A well-formed token whose signature is not the MAC of its signing input is invalid, without an exception. */
  lemma IntrospectRejectsForgedSignature(lib: Library, signerKey: string, t: Token, nowMillis: nat)
    requires Lawful(lib)
    requires IsMac(t.header.alg)
    requires lib.hmac(t.header.alg, lib.keyBytes(signerKey), SigningInput(lib, t.header, t.claims)).Some?
    requires lib.hmac(t.header.alg, lib.keyBytes(signerKey), SigningInput(lib, t.header, t.claims)).value != t.signature
    ensures Introspect(lib, signerKey, IntrospectRequest(Serialize(lib, t)), nowMillis) == Ok(IntrospectResponse(false))
  {
    ForgedSignatureRejected(lib, lib.keyBytes(signerKey), t);
  }

  /** Without "exp", a forged token is invalid but a correctly signed one raises a NullPointerException. */
  lemma IntrospectWithoutExpiry(lib: Library, signerKey: string, request: IntrospectRequest, nowMillis: nat)
    requires Parse(lib, request.token).Ok? && Parse(lib, request.token).value.token.claims.exp.None?
    requires IsMac(Parse(lib, request.token).value.token.header.alg)
    requires lib.hmac(Parse(lib, request.token).value.token.header.alg, lib.keyBytes(signerKey), Parse(lib, request.token).value.signingInput).Some?
    ensures SignatureMatches(lib, lib.keyBytes(signerKey), Parse(lib, request.token).value) ==>
      Introspect(lib, signerKey, request, nowMillis) == Err(NullPointerException)
    ensures !SignatureMatches(lib, lib.keyBytes(signerKey), Parse(lib, request.token).value) ==>
      Introspect(lib, signerKey, request, nowMillis) == Ok(IntrospectResponse(false))
  {
  }

  /**
   The issue/introspect round trip: a token issued at `issued` and introspected
   with the same key at `now` is valid exactly while now is before the expiry,
   which is one hour after issuance rounded down to a whole second.
  */
  lemma IssueIntrospectRoundTrip(lib: Library, signerKey: string, user: User, issued: nat, now: nat)
    requires Lawful(lib)
    requires GenerateToken(lib, signerKey, user, issued).Ok?
    ensures var r := Introspect(lib, signerKey, IntrospectRequest(GenerateToken(lib, signerKey, user, issued).value), now);
      && r.Ok?
      && (r.value.valid <==> now < issued - issued % 1000 + ValidityMillis)
      && (issued <= now < issued + ValidityMillis - 999 ==> r.value.valid)
      && (now >= issued + ValidityMillis ==> !r.value.valid)
  {
    IssuedTokenClaims(lib, signerKey, user, issued);
  }

  /**
   authenticated: an unknown username fails with USER_NOT_EXISTED before any
   password is compared; a wrong password fails with UNAUTHENTICATED; otherwise
   the response carries the generated token.
  */
  function Authenticated(
    users: UserRepository, matches: (string, string) -> bool, lib: Library, signerKey: string,
    request: AuthenticationRequest, nowMillis: nat): (r: Result<AuthenticationResponse, Failure>)
    ensures request.username !in users ==> r == Err(AppException(UserNotExisted))
    ensures request.username in users && !matches(request.password, users[request.username].password) ==>
      r == Err(AppException(Unauthenticated))
    ensures r.Ok? ==> request.username in users && matches(request.password, users[request.username].password)
    ensures r.Ok? ==> r.value.authenticated && GenerateToken(lib, signerKey, users[request.username], nowMillis) == Ok(r.value.token)
    ensures request.username in users && matches(request.password, users[request.username].password) ==>
      match GenerateToken(lib, signerKey, users[request.username], nowMillis)
      case Ok(token) => r == Ok(AuthenticationResponse(token, true))
      case Err(_) => r == Err(RuntimeException)
    ensures r.Err? ==> r.error in {AppException(UserNotExisted), AppException(Unauthenticated), RuntimeException}
  {
    if request.username !in users then Err(AppException(UserNotExisted))
    else
      var user := users[request.username];
      if !matches(request.password, user.password) then Err(AppException(Unauthenticated))
      else
        var token :- GenerateToken(lib, signerKey, user, nowMillis);
        Ok(AuthenticationResponse(token, true))
  }

  /** A successful login yields a token for the requested username, valid for the next hour (to the second). */
  lemma AuthenticatedTokenIntrospects(
    users: UserRepository, matches: (string, string) -> bool, lib: Library, signerKey: string,
    request: AuthenticationRequest, issued: nat, now: nat)
    requires Lawful(lib) && IndexedByUsername(users)
    requires Authenticated(users, matches, lib, signerKey, request, issued).Ok?
    ensures var token := Authenticated(users, matches, lib, signerKey, request, issued).value.token;
      && Parse(lib, token).Ok?
      && Parse(lib, token).value.token.claims.sub == Some(request.username)
      && Introspect(lib, signerKey, IntrospectRequest(token), now) == Ok(IntrospectResponse(now < issued - issued % 1000 + ValidityMillis))
  {
    var user := users[request.username];
    IssuedTokenClaims(lib, signerKey, user, issued);
    IssueIntrospectRoundTrip(lib, signerKey, user, issued, now);
  }
}
