# Token authentication and request gating of the Dish-Dash API, in Dafny

This project models the part of the Dish-Dash backend that decides who may call the API:

- **the token utility** (`JwtUtil`). It issues access tokens and refresh tokens. The two
  kinds differ only in the private claim `type = "refresh"` and in their lifetime. It also
  answers questions about a token string: its subject, its expiration, whether it has expired,
  whether it is a refresh token, and whether it is valid for a user. Each answer turns the JWT
  parser's exceptions into a result. An expired token stays apart from every other failure.
- **the auth gate** (`JwtRefreshInterceptor.doFilterInternal`). It filters every request
  outside `/api/auth/`. An expired `Bearer` access token enters a renewal sub-flow, which uses
  the `X-Refresh-Token` header. That sub-flow either lets the request through with a new access
  token in the `X-New-Access-Token` response header, or answers 401 with `TOKEN_EXPIRED`,
  `REFRESH_TOKEN_EXPIRED` or `INVALID_REFRESH_TOKEN`.
- **the rate limiter** (`RateLimitingInterceptor`). It keeps a fixed-window counter for
  each client address and request path: at most 100 requests per 60 000 ms, and 429
  `RATE_LIMIT_EXCEEDED` beyond that. The client address comes from `X-Forwarded-For`, then
  `X-Real-IP`, then the connection.
- **the credential exchange** (`AuthController.login` and `refreshToken`). Login trades
  credentials for a token pair. Refresh trades a refresh token for a new pair, or answers 401
  with `INVALID_REFRESH_TOKEN` or `REFRESH_FAILED`.

The files:

- `wrappers.dfy`: `Option` and `Result`.
- `java_string.dfy`: the `String` operations the code relies on (`startsWith`, `Strings.hasText`,
  `trim`, `split(",")[0]`).
- `http.dfy`: the request as the filters see it.
- `jwt.dfy`: the JWT library. A token is a claims record. It has a compact form that is read
  back exactly. The parser checks, in order: blank input, well-formedness, signature, expiry
  (section 4.1.4 of RFC 7519).
- `jwt_util.dfy`: the token utility.
- `jwt_refresh_interceptor.dfy`: the gate.
- `rate_limiting_interceptor.dfy`: the limiter. It is a class whose `PreHandle` method updates
  the counter map in place.
- `auth_controller.dfy`: the two endpoints.

Clocks are parameters. Each request reads one instant `now`, in milliseconds since the epoch,
and that instant serves every clock read the source makes while handling it. The
authentication manager and the user lookup are function parameters that may fail.

In four places the model states the code's behaviour where a reader might expect another:

- **The expiry test is strict.** A token stays accepted through the exact millisecond of its
  expiration, and it is expired only when `now > exp`, not already at `now == exp`.
- **Dates are truncated to seconds.** The library stores dates as whole seconds, so a token
  expires at `floor((issuedAt + lifetime) / 1000) * 1000`
  (`JwtUtil.ExpirationIsIssuedAtPlusLifetime`).
- **Refresh codes follow the code.** On `/api/auth/refresh`, a token whose subject cannot be
  read ends in `REFRESH_FAILED`. That covers an expired, malformed or foreign token, and an
  unknown user. `INVALID_REFRESH_TOKEN` is kept for a readable token that is not a refresh token
  for that user, not for a failure to resolve the subject.
- **The gate's codes follow the code.** An expired refresh token gets `INVALID_REFRESH_TOKEN`,
  not `REFRESH_TOKEN_EXPIRED`. See "Findings".

## Model

| member | source | states |
|---|---|---|
| Jwt.DecodeCompact | src/main/java/in/agampal/dishdashapi/util/JwtUtil.java:49-57 | the compact form of a token reads back as exactly that token |
| Jwt.CompactInjective | src/main/java/in/agampal/dishdashapi/util/JwtUtil.java:49-57 | different claims never share a compact form |
| Jwt.DecodeBlank | src/main/java/in/agampal/dishdashapi/util/JwtUtil.java:80-86 | a string that is empty or all whitespace never decodes to a token |
| Jwt.ParseClaimsJws | src/main/java/in/agampal/dishdashapi/util/JwtUtil.java:80-86 | the parser's four outcomes and when each happens: a blank string is an illegal argument; a decodable token with the wrong key is a bad signature; a correctly signed one is expired exactly when past its expiration, and parsed otherwise; a returned or expired result carries the decoded claims |
| Jwt.OtherKeyRejected | src/main/java/in/agampal/dishdashapi/util/JwtUtil.java:80-86 | a token signed with another secret is a signature failure whatever the clock, because the signature is checked before expiry |
| Jwt.ParseCompact | src/main/java/in/agampal/dishdashapi/util/JwtUtil.java:80-86 | a token signed with the key parses to its own claims while live and is reported expired, with those claims, after |
| JwtUtil.JwtUtil.CreateToken | src/main/java/in/agampal/dishdashapi/util/JwtUtil.java:49-57 | the issued string carries exactly the given subject and type claim, issued-at `now` and expiration `now + expiration` (both in seconds), and is signed with the secret |
| JwtUtil.JwtUtil.GenerateToken | src/main/java/in/agampal/dishdashapi/util/JwtUtil.java:33-36 | an access token for the user's name: no type claim, the access lifetime, signed with the secret |
| JwtUtil.JwtUtil.GenerateRefreshToken | src/main/java/in/agampal/dishdashapi/util/JwtUtil.java:38-42 | a refresh token for the user's name: type claim "refresh", the refresh lifetime |
| JwtUtil.JwtUtil.GenerateTokenFromUsername | src/main/java/in/agampal/dishdashapi/util/JwtUtil.java:44-47 | an access token for a bare username: no type claim, the access lifetime |
| JwtUtil.JwtUtil.ExtractAllClaims | src/main/java/in/agampal/dishdashapi/util/JwtUtil.java:80-106 | returns the claims exactly when the token is signed with the secret and live; throws the expiry exception exactly for a signed token past its expiration; anything else is a runtime exception |
| JwtUtil.JwtUtil.ExtractClaim | src/main/java/in/agampal/dishdashapi/util/JwtUtil.java:67-78 | the resolver's view of the claims for an accepted token; the expiry exception passes through unchanged; every other failure becomes one runtime exception "Error extracting claim from token" |
| JwtUtil.JwtUtil.ExtractUsername | src/main/java/in/agampal/dishdashapi/util/JwtUtil.java:59-61 | the subject of an accepted token; expiry thrown exactly for a signed token past its expiration |
| JwtUtil.JwtUtil.ExtractExpiration | src/main/java/in/agampal/dishdashapi/util/JwtUtil.java:63-65 | the expiration in milliseconds (stored seconds times 1000) of an accepted token |
| JwtUtil.JwtUtil.IsTokenExpired | src/main/java/in/agampal/dishdashapi/util/JwtUtil.java:109-118 | fails closed: true exactly when the token is not accepted (expired, malformed or foreign) |
| JwtUtil.JwtUtil.IsRefreshToken | src/main/java/in/agampal/dishdashapi/util/JwtUtil.java:120-127 | true exactly when the token is accepted and its type claim is "refresh" |
| JwtUtil.JwtUtil.ValidateToken | src/main/java/in/agampal/dishdashapi/util/JwtUtil.java:133-147 | false for a missing token or user; otherwise true exactly when the token is accepted and its subject equals the user's name |
| JwtUtil.JwtUtil.ValidateRefreshToken | src/main/java/in/agampal/dishdashapi/util/JwtUtil.java:149-165 | exactly `ValidateToken` together with `IsRefreshToken` |
| JwtUtil.CreatedTokenRoundTrip | src/main/java/in/agampal/dishdashapi/util/JwtUtil.java:49-65 | until its expiration an issued token yields its subject and is not expired |
| JwtUtil.CreatedTokenExpires | src/main/java/in/agampal/dishdashapi/util/JwtUtil.java:49-118 | after its expiration reading the subject throws the expiry exception and the token counts as expired |
| JwtUtil.ExpirationIsIssuedAtPlusLifetime | src/main/java/in/agampal/dishdashapi/util/JwtUtil.java:53-54 | the stored expiration lies within the second before `issuedAt + lifetime`, and for whole-second lifetimes `exp - iat` is the lifetime in seconds |
| JwtUtil.RefreshOutlivesAccess | src/main/java/in/agampal/dishdashapi/util/JwtUtil.java:22-26 | with the default lifetimes a refresh token expires strictly after an access token issued at the same instant |
| JwtUtil.GeneratedTokenClasses | src/main/java/in/agampal/dishdashapi/util/JwtUtil.java:33-47 | a refresh token is a refresh token exactly until it expires; the two access generators never produce one |
| JwtUtil.ForeignTokenNeverValidates | src/main/java/in/agampal/dishdashapi/util/JwtUtil.java:109-147 | a token signed with another secret never validates, is never a refresh token and always counts as expired |
| JwtRefreshInterceptor.SendError | src/main/java/in/agampal/dishdashapi/filters/JwtRefreshInterceptor.java:89-95 | a rejection with status 401 and the given code |
| JwtRefreshInterceptor.RenewalHeaders | src/main/java/in/agampal/dishdashapi/filters/JwtRefreshInterceptor.java:71-72 | exactly the two headers: the new access token and the flag "true" |
| JwtRefreshInterceptor.BearerToken | src/main/java/in/agampal/dishdashapi/filters/JwtRefreshInterceptor.java:42-49 | a token exactly when the Authorization header is present and starts with "Bearer ", the header being the prefix followed by the token |
| JwtRefreshInterceptor.RefreshHeader | src/main/java/in/agampal/dishdashapi/filters/JwtRefreshInterceptor.java:58-60 | the refresh token header exactly when present and non-empty |
| JwtRefreshInterceptor.DoFilterInternal | src/main/java/in/agampal/dishdashapi/filters/JwtRefreshInterceptor.java:31-87 | every rejection is a 401; a pass-through sets either no response header or exactly the two renewal headers with the flag "true" |
| JwtRefreshInterceptor.AuthRoutesPassThrough | src/main/java/in/agampal/dishdashapi/filters/JwtRefreshInterceptor.java:36-40 | a path under /api/auth/ passes through untouched |
| JwtRefreshInterceptor.NoBearerPassesThrough | src/main/java/in/agampal/dishdashapi/filters/JwtRefreshInterceptor.java:42-47 | without a "Bearer " Authorization header the request passes through untouched |
| JwtRefreshInterceptor.BearerTokenIsHeaderTail | src/main/java/in/agampal/dishdashapi/filters/JwtRefreshInterceptor.java:49 | for any header "Bearer " followed by a text, the token judged is exactly that text |
| JwtRefreshInterceptor.OnlyExpiredAccessIsActedUpon | src/main/java/in/agampal/dishdashapi/filters/JwtRefreshInterceptor.java:51-86 | an accepted, malformed or foreign access token passes through with no header; only an expired one is acted upon |
| JwtRefreshInterceptor.ExpiredWithoutRefreshRejected | src/main/java/in/agampal/dishdashapi/filters/JwtRefreshInterceptor.java:55-63 | an expired access token without a non-empty refresh header is refused with TOKEN_EXPIRED |
| JwtRefreshInterceptor.SilentRenewal | src/main/java/in/agampal/dishdashapi/filters/JwtRefreshInterceptor.java:65-75 | an expired access token and a live refresh token: the request goes on with the renewal headers carrying a new access token for the refresh token's subject |
| JwtRefreshInterceptor.RefreshTokenExpiredMeansWrongClass | src/main/java/in/agampal/dishdashapi/filters/JwtRefreshInterceptor.java:65-78 | REFRESH_TOKEN_EXPIRED is given exactly when an accepted refresh header lacks the refresh claim (both directions) |
| JwtRefreshInterceptor.ExpiredRefreshGetsInvalidCode | src/main/java/in/agampal/dishdashapi/filters/JwtRefreshInterceptor.java:65-82 | in the renewal sub-flow INVALID_REFRESH_TOKEN is given exactly when the refresh token is not accepted, an expired one included |
| JwtRefreshInterceptor.DoFilterIntended | src/main/java/in/agampal/dishdashapi/filters/JwtRefreshInterceptor.java:31-87 | the corrected gate: every rejection is a 401 |
| JwtRefreshInterceptor.IntendedRefreshCodes | src/main/java/in/agampal/dishdashapi/filters/JwtRefreshInterceptor.java:65-82 | corrected: REFRESH_TOKEN_EXPIRED exactly for a correctly signed token that is expired or of the wrong class, INVALID_REFRESH_TOKEN exactly for an unreadable or foreign one |
| JwtRefreshInterceptor.IntendedDiffersOnlyOnExpiredRefresh | src/main/java/in/agampal/dishdashapi/filters/JwtRefreshInterceptor.java:79-82 | the correction changes the outcome of no other request |
| JavaString.FirstOfCommaSplit | src/main/java/in/agampal/dishdashapi/config/RateLimitingInterceptor.java:67 | `split(",")[0]`: fails exactly for a non-empty string of commas alone; otherwise a comma-free prefix ending at the first comma or the end |
| JavaString.Trim | src/main/java/in/agampal/dishdashapi/config/RateLimitingInterceptor.java:67 | the result neither starts nor ends with a control or space character and is no longer than the input (that it is the slice left after dropping such characters is `JavaString.TrimIsInfix`) |
| JavaString.TrimIsInfix | src/main/java/in/agampal/dishdashapi/config/RateLimitingInterceptor.java:67 | `trim()` returns a slice `s[i..j]` of its argument, and every character it drops before `i` or from `j` on is at most U+0020 |
| RateLimitingInterceptor.GetClientIpAddress | src/main/java/in/agampal/dishdashapi/config/RateLimitingInterceptor.java:64-76 | the order of sources: the trimmed first comma-separated element of a non-empty X-Forwarded-For (failing exactly when only commas), else a non-empty X-Real-IP, else the remote address |
| RateLimitingInterceptor.ForwardedForFirstHop | src/main/java/in/agampal/dishdashapi/config/RateLimitingInterceptor.java:66-68 | everything after the first comma of X-Forwarded-For is ignored |
| RateLimitingInterceptor.RateLimitKey | src/main/java/in/agampal/dishdashapi/config/RateLimitingInterceptor.java:31 | the key is the address, a colon at position `|address|`, then the path, each part recoverable from it |
| RateLimitingInterceptor.RateLimitKeyInjective | src/main/java/in/agampal/dishdashapi/config/RateLimitingInterceptor.java:31 | for addresses without a colon, two requests share a counter only when address and path both agree |
| RateLimitingInterceptor.RateLimitInfo.Reset | src/main/java/in/agampal/dishdashapi/config/RateLimitingInterceptor.java:90-93 | a counter with count 0 and window start `currentTime`, whose window has not elapsed at that instant and which has room for a request |
| RateLimitingInterceptor.EntryFor | src/main/java/in/agampal/dishdashapi/config/RateLimitingInterceptor.java:33 | `computeIfAbsent`: the stored counter of the key, or, when the key is absent, a new counter with count 0 and window start now, not yet elapsed (the initialisers at lines 79-80); within the bound of 100 whenever every stored counter is |
| RateLimitingInterceptor.Admission | src/main/java/in/agampal/dishdashapi/config/RateLimitingInterceptor.java:37-61 | admitted exactly when the window has elapsed (strictly more than 60 000 ms) or holds fewer than 100 requests; a refusal leaves the counter exactly as it was; an admission after the window leaves count 1 and start `now`, within it adds exactly 1; the bound of 100 is kept |
| RateLimitingInterceptor.ReplayWithinWindow | src/main/java/in/agampal/dishdashapi/config/RateLimitingInterceptor.java:37-61 | requests within one window are admitted exactly while the count is below 100, and the count ends at the smaller of 100 and its start plus the number of requests |
| RateLimitingInterceptor.FreshKeyBurst | src/main/java/in/agampal/dishdashapi/config/RateLimitingInterceptor.java:25-61 | for a new key, of 101 requests within one window the first 100 are admitted and the 101st is refused |
| RateLimitingInterceptor.RateLimitingInterceptor.constructor | src/main/java/in/agampal/dishdashapi/config/RateLimitingInterceptor.java:21 | the limiter starts with an empty counter map, which satisfies the bound of 100 |
| RateLimitingInterceptor.RateLimitingInterceptor.PreHandle | src/main/java/in/agampal/dishdashapi/config/RateLimitingInterceptor.java:29-62 | only the counter of `address:path` changes, and as `Admission` says (a new key starting at count 0 and `now`); admitted exactly when `Admission` admits, otherwise 429 RATE_LIMIT_EXCEEDED; a failed address lookup changes nothing; no counter exceeds 100 |
| AuthController.Login | src/main/java/in/agampal/dishdashapi/controller/AuthController.java:29-54 | an authentication failure or an unknown user propagates unchanged, and nothing else fails; on success an access token and a refresh token for the user's name, with expiresIn 86400 |
| AuthController.IssuePair | src/main/java/in/agampal/dishdashapi/controller/AuthController.java:79-86 | the pair: an access token with no type claim and a refresh-class token, both for the user's name and issued now, with expiresIn 86400 |
| AuthController.StripBearer | src/main/java/in/agampal/dishdashapi/controller/AuthController.java:60-63 | the header minus "Bearer " when it starts with it, the header itself otherwise |
| AuthController.StripBearerOnce | src/main/java/in/agampal/dishdashapi/controller/AuthController.java:60-63 | the prefix is taken off once only |
| AuthController.RefreshToken | src/main/java/in/agampal/dishdashapi/controller/AuthController.java:56-95 | REFRESH_FAILED exactly when the token is not accepted or its subject is unknown; INVALID_REFRESH_TOKEN exactly when it is accepted, its user is found, and it is not a refresh token or the user's name differs from its subject; every refusal is a 401; a success is a new pair for the token's subject |
| AuthController.AccessTokenRefused | src/main/java/in/agampal/dishdashapi/controller/AuthController.java:72-76 | a live access token of a known user is refused with INVALID_REFRESH_TOKEN |
| AuthController.ExpiredRefreshTokenFails | src/main/java/in/agampal/dishdashapi/controller/AuthController.java:91-95 | an expired refresh token is refused with REFRESH_FAILED |
| AuthController.RefreshOfIssuedRefreshToken | src/main/java/in/agampal/dishdashapi/controller/AuthController.java:56-89 | a live refresh token of a known user is exchanged for a new pair for that user |
| AuthController.LoginThenRefresh | src/main/java/in/agampal/dishdashapi/controller/AuthController.java:29-89 | the refresh token from a login, presented while it lives, yields a new pair for the same user |

## Left out

- The JWT library's encoding and signing. HMAC-SHA256, base64url and JSON are replaced by an exact compact form of the claims record, and a signature is modelled by the secret it was made with. Tamper detection is therefore exactly inequality of secrets.
- The WeakKeyException for a secret shorter than 256 bits is not modelled, and neither are unsigned (unsupported) tokens or the catch-all "Error parsing JWT token": the modelled parser fails only as blank, malformed or badly signed.
- Wall-clock reads. One instant `now` serves all of a request's clock reads. The source reads the clock several times and could straddle a millisecond or a second boundary between them.
- Concurrency in the rate limiter. The concurrent map, the atomic counter, and the gap between the check and the increment are left out, and requests are taken one at a time.
- RateLimitingInterceptor.RateLimitingInterceptor.PreHandle: a counter is a value in the map, replaced on each update, instead of a shared mutable object. No other code holds a reference to a counter, so nothing observable is lost.
- Header-name matching is exact in the model. The servlet container matches header names case-insensitively.
- A missing Authorization header on `/api/auth/refresh` is refused by the framework before the endpoint runs. The model takes the header as a string.
- The gate decides its outcome apart from the rest of the filter chain. In the source the chain runs inside the gate's `try` blocks, and the model does not capture these three effects:
  - Any other exception from the chain after line 54 reaches the outer `catch (Exception e)`, and the chain is then invoked a second time.
  - An `ExpiredJwtException` thrown by the chain after line 54 enters the renewal sub-flow as if the access token had expired.
  - An exception from the chain after a silent renewal (line 75) reaches `catch (Exception refreshException)`. The response is then 401 `INVALID_REFRESH_TOKEN` with both renewal headers already set, and the model's `Reject` carries no headers.
- Lifetimes and clock values are Java `long`s. The model uses `nat`, so a negative configured lifetime and an overflow of `currentTimeMillis() + expiration` are not modelled.
- Logging, the JSON error bodies, the response writer and the `ResponseEntity` wrappers. Only status, code and tokens are modelled; the error messages are kept as constants.
- `tokenType` of the token response. The builder leaves it null, so no value is claimed for it.
- `AuthController.register` is an unimplemented stub. `isTokenExpiredException` is an `instanceof` test used by nothing modelled.
- A null subject claim is not modelled: every token carries a subject string.
- Login's failure responses (`BAD_CREDENTIALS`, `AUTH_ERROR`) come from the global exception handler, which is not part of this model. Login's failures are returned unchanged.
- After a refresh the old refresh token remains valid until it expires, because tokens are stateless. The model has no revocation either.

## Findings

| source | as written | input that shows it | evidently intended | confidence | as-written member | corrected member |
|---|---|---|---|---|---|---|
| src/main/java/in/agampal/dishdashapi/filters/JwtRefreshInterceptor.java:65-82 | reading the refresh token's subject throws the expiry exception before its class and expiry are checked, so an expired refresh token is caught as an invalid one | an expired access token with a correctly signed refresh token (type "refresh") whose expiration has passed: the response is 401 INVALID_REFRESH_TOKEN | 401 REFRESH_TOKEN_EXPIRED, as that code's message "Refresh token expired or invalid" (line 77) says; INVALID_REFRESH_TOKEN only for a token that does not parse or is foreign | not executed | JwtRefreshInterceptor.ExpiredRefreshGetsInvalidCode | JwtRefreshInterceptor.IntendedRefreshCodes |
