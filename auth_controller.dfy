/** The credential-exchange endpoints: login trades an e-mail address and password for an
    access/refresh token pair, and refresh trades a refresh token for a new pair. The
    authentication manager and the user lookup are parameters that may fail; the clock
    `now` (milliseconds since the epoch) is passed in. */
module AuthController {
  import opened Wrappers
  import opened Jwt
  import opened JwtUtil
  import JavaString

  /** The lifetime announced to the client, in seconds, whatever the configured lifetime. */
  const EXPIRES_IN: nat := 86400
  const BEARER_PREFIX: string := "Bearer "
  const SC_UNAUTHORIZED: int := 401

  datatype AuthenticationRequest = AuthenticationRequest(email: string, password: string)

  /** The body of a successful login or refresh. */
  datatype TokenRefreshResponse = TokenRefreshResponse(accessToken: string, refreshToken: string, expiresIn: nat)

  /** `authenticationManager.authenticate`: `None` when it accepts the credentials, `Some(reason)`
      when it throws. */
  type Authenticator = (string, string) -> Option<string>

  /** `userDetailsService.loadUserByUsername`: `None` when it throws (no such user). */
  type UserLookup = string -> Option<UserDetails>

  // ---- login -------------------------------------------------------------------------------

  /** The exception login lets through unchanged. */
  datatype LoginFailure = AuthenticationFailed(reason: string) | UserNotFound(email: string)

  /** Credentials accepted and the user found: an access token and a refresh token for the
      user's name and the fixed EXPIRES_IN. Otherwise the first exception, unchanged. */
  function Login(jwt: JwtUtil, authenticate: Authenticator, loadUser: UserLookup,
                 request: AuthenticationRequest, now: nat): (r: Result<TokenRefreshResponse, LoginFailure>)
    ensures authenticate(request.email, request.password).Some? ==>
              r == Failure(AuthenticationFailed(authenticate(request.email, request.password).value))
    ensures authenticate(request.email, request.password).None? && loadUser(request.email).None? ==>
              r == Failure(UserNotFound(request.email))
    ensures r.Success? <==> authenticate(request.email, request.password).None? && loadUser(request.email).Some?
    ensures r.Success? ==> IssuedPairFor(jwt, loadUser(request.email).value, r.value, now)
  {
    match authenticate(request.email, request.password)
    case Some(reason) => Failure(AuthenticationFailed(reason))
    case None =>
      match loadUser(request.email)
      case None => Failure(UserNotFound(request.email))
      case Some(userDetails) => Success(IssuePair(jwt, userDetails, now))
  }

  /** The pair both endpoints hand out. */
  function IssuePair(jwt: JwtUtil, user: UserDetails, now: nat): (response: TokenRefreshResponse)
    ensures IssuedPairFor(jwt, user, response, now)
  {
    TokenRefreshResponse(jwt.GenerateToken(user, now), jwt.GenerateRefreshToken(user, now), EXPIRES_IN)
  }

  /** A response carrying, for `user`, an access token with no type claim and a refresh-class
      token, both issued at `now` and signed with the secret, announced as EXPIRES_IN seconds. */
  predicate IssuedPairFor(jwt: JwtUtil, user: UserDetails, response: TokenRefreshResponse, now: nat) {
    && jwt.SignedClaims(response.accessToken).Some?
    && jwt.SignedClaims(response.refreshToken).Some?
    && var access := jwt.SignedClaims(response.accessToken).value;
       var refresh := jwt.SignedClaims(response.refreshToken).value;
       && access.subject == user.username && access.typeClaim == None
       && access.iat == NumericDate(now) && access.exp == NumericDate(now + jwt.jwtExpiration)
       && refresh.subject == user.username && refresh.typeClaim == Some(REFRESH_TYPE)
       && refresh.iat == NumericDate(now) && refresh.exp == NumericDate(now + jwt.refreshTokenExpiration)
       && response.expiresIn == EXPIRES_IN
  }

  // ---- refresh -----------------------------------------------------------------------------

  /** The header with "Bearer " taken off its front, if it is there; otherwise the header. */
  function StripBearer(header: string): (token: string)
    ensures JavaString.StartsWith(header, BEARER_PREFIX) ==> header == BEARER_PREFIX + token
    ensures !JavaString.StartsWith(header, BEARER_PREFIX) ==> token == header
  {
    if JavaString.StartsWith(header, BEARER_PREFIX) then
      assert header == header[..7] + header[7..];
      header[7..]
    else header
  }

  /** The prefix is taken off once only. */
  lemma StripBearerOnce(token: string)
    ensures StripBearer(BEARER_PREFIX + token) == token
    ensures StripBearer(BEARER_PREFIX + BEARER_PREFIX + token) == BEARER_PREFIX + token
  {
    assert BEARER_PREFIX <= BEARER_PREFIX + token;
    assert BEARER_PREFIX <= BEARER_PREFIX + BEARER_PREFIX + token;
  }

  datatype RefreshError = InvalidRefreshToken | RefreshFailed {
    function Code(): string {
      match this
      case InvalidRefreshToken => "INVALID_REFRESH_TOKEN"
      case RefreshFailed => "REFRESH_FAILED"
    }
    function Message(): string {
      match this
      case InvalidRefreshToken => "Invalid refresh token"
      case RefreshFailed => "Token refresh failed"
    }
  }

  datatype RefreshResponse = Refreshed(body: TokenRefreshResponse) | Unauthorized(status: int, error: RefreshError)

  /** `refreshToken(authorization)`. A token without an accepted subject, or whose subject the
      lookup does not know, ends in REFRESH_FAILED (the exception handler); a token with a known
      subject that is not a refresh token for that user ends in INVALID_REFRESH_TOKEN; otherwise
      a new pair is issued for the user. */
  function RefreshToken(jwt: JwtUtil, loadUser: UserLookup, authorization: string, now: nat): (r: RefreshResponse)
    ensures r.Unauthorized? ==> r.status == SC_UNAUTHORIZED
    ensures var token := StripBearer(authorization);
            r == Unauthorized(SC_UNAUTHORIZED, RefreshFailed) <==>
              !jwt.Accepts(token, now) || loadUser(jwt.SignedClaims(token).value.subject).None?
    ensures var token := StripBearer(authorization);
            r == Unauthorized(SC_UNAUTHORIZED, InvalidRefreshToken) <==>
              && jwt.Accepts(token, now)
              && var subject := jwt.SignedClaims(token).value.subject;
                 && loadUser(subject).Some?
                 && (jwt.SignedClaims(token).value.typeClaim != Some(REFRESH_TYPE) || loadUser(subject).value.username != subject)
    ensures r.Refreshed? ==>
              var token := StripBearer(authorization);
              var subject := jwt.SignedClaims(token).value.subject;
              && jwt.IsRefreshToken(token, now)
              && loadUser(subject).Some? && loadUser(subject).value.username == subject
              && IssuedPairFor(jwt, loadUser(subject).value, r.body, now)
  {
    var refreshToken := StripBearer(authorization);
    match jwt.ExtractUsername(refreshToken, now)
    case ThrewExpired => Unauthorized(SC_UNAUTHORIZED, RefreshFailed)
    case ThrewRuntime(_) => Unauthorized(SC_UNAUTHORIZED, RefreshFailed)
    case Returned(username) =>
      match loadUser(username)
      case None => Unauthorized(SC_UNAUTHORIZED, RefreshFailed)
      case Some(userDetails) =>
        if !jwt.ValidateRefreshToken(Some(refreshToken), Some(userDetails), now) then
          Unauthorized(SC_UNAUTHORIZED, InvalidRefreshToken)
        else
          Refreshed(IssuePair(jwt, userDetails, now))
  }

  // ---- scenarios ---------------------------------------------------------------------------

  /** An access token, even a live one for a known user, is refused as an invalid refresh
      token. */
  lemma AccessTokenRefused(jwt: JwtUtil, loadUser: UserLookup, user: UserDetails, issuedAt: nat, now: nat)
    requires now <= NumericDate(issuedAt + jwt.jwtExpiration) * 1000
    requires loadUser(user.username).Some?
    ensures RefreshToken(jwt, loadUser, BEARER_PREFIX + jwt.GenerateToken(user, issuedAt), now) ==
              Unauthorized(SC_UNAUTHORIZED, InvalidRefreshToken)
  {
    StripBearerOnce(jwt.GenerateToken(user, issuedAt));
  }

  /** A refresh token past its expiration is refused as a failed refresh. */
  lemma ExpiredRefreshTokenFails(jwt: JwtUtil, loadUser: UserLookup, user: UserDetails, issuedAt: nat, now: nat)
    requires now > NumericDate(issuedAt + jwt.refreshTokenExpiration) * 1000
    ensures RefreshToken(jwt, loadUser, BEARER_PREFIX + jwt.GenerateRefreshToken(user, issuedAt), now) ==
              Unauthorized(SC_UNAUTHORIZED, RefreshFailed)
  {
    StripBearerOnce(jwt.GenerateRefreshToken(user, issuedAt));
  }

  /** A live refresh token for a user the lookup knows under its name is exchanged for a new
      pair for that user. */
  lemma RefreshOfIssuedRefreshToken(jwt: JwtUtil, loadUser: UserLookup, user: UserDetails, issuedAt: nat, now: nat)
    requires loadUser(user.username) == Some(user)
    requires now <= NumericDate(issuedAt + jwt.refreshTokenExpiration) * 1000
    ensures RefreshToken(jwt, loadUser, BEARER_PREFIX + jwt.GenerateRefreshToken(user, issuedAt), now) ==
              Refreshed(IssuePair(jwt, user, now))
  {
    var token := jwt.GenerateRefreshToken(user, issuedAt);
    StripBearerOnce(token);
    assert jwt.Accepts(token, now);
    assert jwt.ExtractUsername(token, now) == Returned(user.username);
    assert jwt.ValidateRefreshToken(Some(token), Some(user), now);
  }

  /** A successful login followed, while the refresh token lives, by a refresh with that token
      yields a new pair for the same user (the lookup still knowing the user under its name). */
  lemma LoginThenRefresh(jwt: JwtUtil, authenticate: Authenticator, loadUser: UserLookup,
                         request: AuthenticationRequest, loginTime: nat, now: nat)
    requires Login(jwt, authenticate, loadUser, request, loginTime).Success?
    requires var user := loadUser(request.email).value; loadUser(user.username) == Some(user)
    requires now <= NumericDate(loginTime + jwt.refreshTokenExpiration) * 1000
    ensures var pair := Login(jwt, authenticate, loadUser, request, loginTime).value;
            var r := RefreshToken(jwt, loadUser, BEARER_PREFIX + pair.refreshToken, now);
            r.Refreshed? && IssuedPairFor(jwt, loadUser(request.email).value, r.body, now)
  {
    var user := loadUser(request.email).value;
    assert Login(jwt, authenticate, loadUser, request, loginTime).value == IssuePair(jwt, user, loginTime);
    RefreshOfIssuedRefreshToken(jwt, loadUser, user, loginTime, now);
  }
}
