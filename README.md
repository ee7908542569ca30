# identity_service: token lifecycle and access gate

A Dafny model of the token logic of a Spring identity service. It covers:

- the login flow (`authenticated`);
- token issuance (`generateToken`, `buildScope`): an HS512-signed JWT with the claims `sub`, `iss`, `iat`, `exp` and `scope`, in JWS compact serialization (section 7.1 of RFC 7515);
- token introspection (`introspect`);
- the request-authorisation rules and the JWT decoder of the resource server (`SecurityConfig`).

Both source files are pure logic, so the model is made of datatypes, functions and lemmas. Modules:

- `Wrappers`: the `Option` and `Result` types.
- `Errors`: the exceptions the service throws, as values.
- `Text`: joining and splitting strings around a separator (`Join` is `String.join`; `Split` keeps empty fields).
- `Jwt`: tokens and the JOSE library.
  - Header, claims and token datatypes, and the `Serialize`/`Parse` pair.
  - Signing (`Sign`) and MAC verification (`VerifySignature`).
  - The library is a `Library` value. It holds the base64url/JSON segment codecs, `String.getBytes` of the key, and HMAC. HMAC returns `None` where the library throws.
  - `Lawful` is the only assumption made about the library: segment encodings contain no `.` and decode back to what was encoded.
- `AuthenticationService`: `BuildScope`, `GenerateToken`, `Introspect` and `Authenticated`, with their lemmas.
- `SecurityConfig`: the first-match rule table, `Authorize`, and the HS512 decoder's signature check.
- `TokenLifecycle`: lemmas that connect the issuer, introspection and the decoder, which share the configured `jwt.signerKey`.

The clock is passed in as `nowMillis` (milliseconds since the epoch). The user repository is a `map` from username to user. The password encoder is the predicate parameter `matches`.

Behaviour of the code worth knowing:

- **Login errors are distinct.** An unknown user fails with `USER_NOT_EXISTED` and a wrong password with `UNAUTHENTICATED`, two distinct codes.
- **Expiry is rounded down to the second.** A JWT stores `iat` and `exp` as NumericDate, i.e. whole seconds (the library writes `getTime() / 1000`). So `exp - iat` is exactly 3600 s, but a token issued at `t` ms is valid while `now < t - t % 1000 + 3600000`. That can end up to 999 ms before `t + 1 h`.
- **A missing `exp` does not always throw.** `introspect` evaluates `verified && exp.after(now)`, which short-circuits. A token without `exp` is therefore reported invalid when its signature fails, and raises a NullPointerException only when its signature verifies.
- **Introspection and the decoder agree only on HS512 tokens.** Introspection's MAC verifier uses the algorithm named in the header (HS256, HS384 or HS512), while the decoder accepts only HS512. A token MACed under HS256 with the same secret passes introspection but not the decoder (`TokenLifecycle.IntrospectAcceptsOtherMacAlgorithms`).

## Model

| member | source | states |
|---|---|---|
| `Text.Join` | src/main/java/com/anhtrinhnam02/identity_service/service/AuthenticationService.java:145 | `String.join`: joining non-empty lists of separator-free parts puts exactly one separator between each two (the inverse is `Text.SplitJoin`). |
| `Jwt.Serialize` | src/main/java/com/anhtrinhnam02/identity_service/service/AuthenticationService.java:134 | The compact serialization is the signing input, a dot, and the signature segment (parsed back by `Jwt.ParseSerialize`). |
| `Jwt.Parse` | src/main/java/com/anhtrinhnam02/identity_service/service/AuthenticationService.java:64-67 | Succeeds exactly when the string has three dot-separated segments that all decode; the token is then the decoded header, claims and signature. Every failure is a ParseException; a string without exactly two dots fails. On success, the signing input is exactly the text before the last dot, and no dot follows it. |
| `Jwt.VerifySignature` | src/main/java/com/anhtrinhnam02/identity_service/service/AuthenticationService.java:61-70 | True exactly when the header names an HMAC algorithm and the signature equals the MAC of the signing input under that algorithm and key. A non-MAC algorithm or a library failure is a JOSEException. A mismatch is false, not an exception. |
| `Jwt.Sign` | src/main/java/com/anhtrinhnam02/identity_service/service/AuthenticationService.java:127-131 | Succeeds exactly when the header names an HMAC algorithm and the MAC of the signing input can be computed. The signed token keeps the header and claims it was given, and its signature verifies over their signing input. A failure is a JOSEException. |
| `Jwt.ParseSerialize` | src/main/java/com/anhtrinhnam02/identity_service/service/AuthenticationService.java:124-134 | Parsing a serialized token gives back that token, together with the text it was signed over. |
| `Jwt.ForgedSignatureRejected` | src/main/java/com/anhtrinhnam02/identity_service/service/AuthenticationService.java:70 | A well-formed token whose signature is not the MAC of its signing input parses, and verifies to false. |
| `AuthenticationService.BuildScope` | src/main/java/com/anhtrinhnam02/identity_service/service/AuthenticationService.java:142-146 | A null or empty role set gives the empty scope. |
| `AuthenticationService.BuildScopeSplit` | src/main/java/com/anhtrinhnam02/identity_service/service/AuthenticationService.java:145 | For a non-empty role set with no space in any name, splitting the scope on " " gives back exactly the roles, in order. |
| `AuthenticationService.ScopeRolesOfBuildScope` | src/main/java/com/anhtrinhnam02/identity_service/service/AuthenticationService.java:142-146 | For non-empty role names without spaces, the roles read back from the scope are exactly the user's roles. Null and empty role sets both read back as no roles. |
| `AuthenticationService.IssuedClaims` | src/main/java/com/anhtrinhnam02/identity_service/service/AuthenticationService.java:112-121 | The built claims have `sub` = username, `iss` = "anhtrinhnam02.com", `scope` = BuildScope(user), `iat` = now/1000, and `exp` = `iat` + 3600 s, whose millisecond value lies in (now + 3599000, now + 3600000]. |
| `AuthenticationService.GenerateToken` | src/main/java/com/anhtrinhnam02/identity_service/service/AuthenticationService.java:107-140 | Succeeds exactly when the HS512 MAC of the issued header and claims can be computed. Any failure is a RuntimeException. On success, the result is the serialization of a token. |
| `AuthenticationService.IssuedTokenClaims` | src/main/java/com/anhtrinhnam02/identity_service/service/AuthenticationService.java:109-134 | A generated token parses back with algorithm HS512, `sub` = username, `iss` = "anhtrinhnam02.com", `iat` = now/1000, `exp` = now/1000 + 3600 and `scope` = BuildScope(user). Its expiry in milliseconds lies in (now + 3599000, now + 3600000]. Its signature verifies under the signer key. |
| `AuthenticationService.Introspect` | src/main/java/com/anhtrinhnam02/identity_service/service/AuthenticationService.java:56-78 | The only failures are a parse error, a JOSEException or a NullPointerException. Unparsable input is always a parse error. A valid result implies the token parsed and its signature matches. |
| `AuthenticationService.IntrospectValid` | src/main/java/com/anhtrinhnam02/identity_service/service/AuthenticationService.java:61-77 | Valid if and only if the token parses, its signature matches under the signer key, `exp` is present, and now < exp * 1000 strictly. |
| `AuthenticationService.IntrospectAtExpiry` | src/main/java/com/anhtrinhnam02/identity_service/service/AuthenticationService.java:76 | At the instant now == exp the token is not valid. |
| `AuthenticationService.IntrospectValidEarlier` | src/main/java/com/anhtrinhnam02/identity_service/service/AuthenticationService.java:76 | A token valid at some instant is valid at every earlier instant: validity only ends. |
| `AuthenticationService.IntrospectMalformed` | src/main/java/com/anhtrinhnam02/identity_service/service/AuthenticationService.java:64 | A string without exactly two dots raises a ParseException instead of returning a result. |
| `AuthenticationService.IntrospectRejectsForgedSignature` | src/main/java/com/anhtrinhnam02/identity_service/service/AuthenticationService.java:61-77 | A well-formed token whose signature is not the MAC under the signer key (tampered, or signed with another key) gives valid = false, not an exception. |
| `AuthenticationService.IntrospectWithoutExpiry` | src/main/java/com/anhtrinhnam02/identity_service/service/AuthenticationService.java:67-76 | For a token without `exp`: a matching signature raises a NullPointerException, and a non-matching one gives valid = false. |
| `AuthenticationService.IssueIntrospectRoundTrip` | src/main/java/com/anhtrinhnam02/identity_service/service/AuthenticationService.java:56-140 | A token issued at t and introspected with the same key at t' is valid if and only if t' < t - t % 1000 + 3600000. It is valid for t <= t' < t + 3599001 and invalid for t' >= t + 3600000. No exception is raised. |
| `AuthenticationService.Authenticated` | src/main/java/com/anhtrinhnam02/identity_service/service/AuthenticationService.java:80-96 | An unknown username fails with USER_NOT_EXISTED, whatever the password check would say. A known user with a non-matching password fails with UNAUTHENTICATED. A known user with a matching password gets authenticated = true with exactly the token GenerateToken produces, or RuntimeException when signing fails. Success implies both checks passed. There are no other errors than these two and RuntimeException. |
| `AuthenticationService.AuthenticatedTokenIntrospects` | src/main/java/com/anhtrinhnam02/identity_service/service/AuthenticationService.java:80-96 | The token of a successful login has `sub` equal to the requested username, and introspects as valid exactly until the rounded expiry. |
| `SecurityConfig.FirstMatch` | src/main/java/com/anhtrinhnam02/identity_service/configuration/SecurityConfig.java:42-45 | None exactly when no rule matches. Otherwise it returns the access of a matching rule that has no matching rule before it. |
| `SecurityConfig.Authorize` | src/main/java/com/anhtrinhnam02/identity_service/configuration/SecurityConfig.java:22-45 | Allowed if and only if (method = POST and path is in PUBLIC_ENDPOINTS) or the request is authenticated; the first-match rules add no other exemption. |
| `SecurityConfig.PublicPostsPermitted` | src/main/java/com/anhtrinhnam02/identity_service/configuration/SecurityConfig.java:43 | POST to /users, /auth/token or /auth/introspect is permitted without authentication. |
| `SecurityConfig.OtherMethodsOnPublicEndpointsAuthenticated` | src/main/java/com/anhtrinhnam02/identity_service/configuration/SecurityConfig.java:43-44 | Any non-POST method, on any path (the public ones included), requires authentication and is denied when anonymous. |
| `SecurityConfig.OtherPathsAuthenticated` | src/main/java/com/anhtrinhnam02/identity_service/configuration/SecurityConfig.java:44 | Any path outside PUBLIC_ENDPOINTS requires authentication, whatever the method. |
| `SecurityConfig.AnonymousRequests` | src/main/java/com/anhtrinhnam02/identity_service/configuration/SecurityConfig.java:42-45 | A request without a bearer token is allowed exactly when it is a POST to a public endpoint. |
| `SecurityConfig.DecoderAcceptsSignature` | src/main/java/com/anhtrinhnam02/identity_service/configuration/SecurityConfig.java:65-73 | The decoder accepts a token's signature exactly when it parses, its header names HS512, and its signature is the HS512 MAC under the bytes of the configured signer key. |
| `SecurityConfig.AllowRequest` | src/main/java/com/anhtrinhnam02/identity_service/configuration/SecurityConfig.java:42-73 | A request is let through exactly when it is a POST to a public endpoint, or it carries a bearer token whose signature the decoder accepts. |
| `TokenLifecycle.DecoderAgreesWithIntrospect` | src/main/java/com/anhtrinhnam02/identity_service/configuration/SecurityConfig.java:65-73 | On a token whose header names HS512, the decoder's signature check accepts it exactly when introspection's signature verification does. Both use the same signer key bytes. |
| `TokenLifecycle.IntrospectAcceptsOtherMacAlgorithms` | src/main/java/com/anhtrinhnam02/identity_service/configuration/SecurityConfig.java:67-73 | An unexpired HS256 or HS384 token MACed with the signer key is valid for introspection but refused by the HS512-only decoder. |
| `TokenLifecycle.DecoderAcceptsIssuedTokens` | src/main/java/com/anhtrinhnam02/identity_service/configuration/SecurityConfig.java:65-73 | Every token the issuer generates passes the decoder's signature check. |
| `TokenLifecycle.LoginTokenAuthorizes` | src/main/java/com/anhtrinhnam02/identity_service/configuration/SecurityConfig.java:42-73 | The token of a successful login, presented as a bearer token, is let through on every method and path. |

## Left out

- Base64url, JSON and HMAC-SHA-512 are not implemented. They are the function values of `Jwt.Library`. Only the segment codecs' round-trip laws (`Jwt.Lawful`) are assumed; MAC verification is an equality test against `hmac` of the signing input.
- Key-length checks of the MAC signer and verifier are not modelled. A key the library refuses appears only as `hmac` returning None. The verifier's constructor (line 61 of AuthenticationService.java) runs before parsing, so in the source a refused key throws even for a malformed token; in the model a malformed token is a parse error first.
- Header parameters other than `alg` are not modelled (`typ`, `crit` and the rest). So are claims other than the five the service writes, and extra claims. A header with the `none` algorithm, and a claim value of the wrong JSON type, count as segment decode failures.
- Surrounding whitespace in the token string is not trimmed as the parser might do.
- `exp` values whose millisecond value overflows a 64-bit `long` are not modelled; such a value would wrap on conversion to a Date.
- The two clock reads of `generateToken` (lines 115 and 118) are one `nowMillis`. The reading at introspection is another `nowMillis` parameter.
- A null token in an introspection request is not modelled (the request holds a string); in the source it makes `SignedJWT.parse` throw (lines 58 and 64 of AuthenticationService.java).
- BCrypt password matching is the parameter `matches`.
- The user repository is a map; persistence and a null username are not modelled. A user's role set is a sequence in its iteration order.
- SecurityConfig.DecoderAcceptsSignature: the decoder is modelled only by its key and its HS512 restriction. Its default validators (expiry with clock skew) are not modelled, so `AllowRequest` treats an expired but correctly signed bearer token as authenticated.
- `SecurityConfig.AllowRequest` inherits that gap: an expired bearer token with a valid HS512 signature is let through.
- Spring's path-pattern matching is modelled as exact string equality; trailing slashes and path decoding are not modelled. Also not modelled: the bearer-token filter rejecting an invalid token before the permit rule applies, CSRF disabling, resource-server wiring, bean wiring and logging.
- RoleController, RoleMapper and RoleRepository are not part of this model. The first only routes to a role service that is not part of this model, the second is a generated mapper interface, and the third is an empty repository interface.
- Repeated introspection of one token giving the same result needs no lemma: `Introspect` is a function of its inputs, with no hidden state.
