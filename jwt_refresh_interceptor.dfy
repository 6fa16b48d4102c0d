/** The per-request auth gate. It lets the request through, lets it through with a freshly
    minted access token in the response headers, or answers 401 with an error code. The
    decision depends only on the URI, two request headers, the token utility and the clock. */
module JwtRefreshInterceptor {
  import opened Wrappers
  import JavaString
  import Http
  import opened Jwt
  import opened JwtUtil

  const AUTH_PATH_PREFIX: string := "/api/auth/"
  const AUTHORIZATION: string := "Authorization"
  const BEARER_PREFIX: string := "Bearer "
  const REFRESH_TOKEN_HEADER: string := "X-Refresh-Token"
  const NEW_ACCESS_TOKEN_HEADER: string := "X-New-Access-Token"
  const TOKEN_REFRESHED_HEADER: string := "X-Token-Refreshed"

  /** HttpStatus.UNAUTHORIZED. */
  const SC_UNAUTHORIZED: int := 401

  /** The error codes the gate answers with; each goes with one message. */
  datatype ErrorCode = TokenExpired | RefreshTokenExpired | InvalidRefreshToken {
    function Code(): string {
      match this
      case TokenExpired => "TOKEN_EXPIRED"
      case RefreshTokenExpired => "REFRESH_TOKEN_EXPIRED"
      case InvalidRefreshToken => "INVALID_REFRESH_TOKEN"
    }

    function Message(): string {
      match this
      case TokenExpired => "Access token expired. Please use refresh token to get new access token."
      case RefreshTokenExpired => "Refresh token expired or invalid. Please login again."
      case InvalidRefreshToken => "Invalid refresh token. Please login again."
    }
  }

  /** `Proceed`: the filter chain is invoked, after the given response headers were set.
      `Reject`: `sendError` wrote the status and the error body (`code` with its message);
      the chain is not invoked. */
  datatype FilterOutcome =
    | Proceed(responseHeaders: map<string, string>)
    | Reject(status: int, code: ErrorCode)

  /** `sendError`: always status 401. */
  function SendError(code: ErrorCode): (o: FilterOutcome)
    ensures o.Reject? && o.status == SC_UNAUTHORIZED && o.code == code
  {
    Reject(SC_UNAUTHORIZED, code)
  }

  /** The two headers set on a silent renewal. */
  function RenewalHeaders(newAccessToken: string): (h: map<string, string>)
    ensures h.Keys == {NEW_ACCESS_TOKEN_HEADER, TOKEN_REFRESHED_HEADER}
    ensures h[NEW_ACCESS_TOKEN_HEADER] == newAccessToken && h[TOKEN_REFRESHED_HEADER] == "true"
  {
    map[NEW_ACCESS_TOKEN_HEADER := newAccessToken, TOKEN_REFRESHED_HEADER := "true"]
  }

  /** The access token the request presents: the Authorization header without its
      "Bearer " prefix, when the header is there and carries that prefix. */
  function BearerToken(request: Http.Request): (token: Option<string>)
    ensures token.Some? <==> request.GetHeader(AUTHORIZATION).Some? && JavaString.StartsWith(request.GetHeader(AUTHORIZATION).value, BEARER_PREFIX)
    ensures token.Some? ==> request.GetHeader(AUTHORIZATION).value == BEARER_PREFIX + token.value
  {
    var authHeader := request.GetHeader(AUTHORIZATION);
    if authHeader.None? || !JavaString.StartsWith(authHeader.value, BEARER_PREFIX) then None
    else
      assert authHeader.value == authHeader.value[..7] + authHeader.value[7..];
      Some(authHeader.value[7..])
  }

  /** The refresh token header, when present and non-empty. */
  function RefreshHeader(request: Http.Request): (token: Option<string>)
    ensures token.Some? <==> request.GetHeader(REFRESH_TOKEN_HEADER).Some? && request.GetHeader(REFRESH_TOKEN_HEADER).value != ""
    ensures token.Some? ==> token == request.GetHeader(REFRESH_TOKEN_HEADER)
  {
    var refreshToken := request.GetHeader(REFRESH_TOKEN_HEADER);
    if refreshToken.None? || refreshToken.value == "" then None else refreshToken
  }

  /** `doFilterInternal`, as written. A rejection is always a 401 with one of three codes;
      a pass-through sets either no header or exactly the two renewal headers. */
  function DoFilterInternal(jwt: JwtUtil, request: Http.Request, now: nat): (o: FilterOutcome)
    ensures o.Reject? ==> o.status == SC_UNAUTHORIZED
    ensures o.Proceed? && o.responseHeaders != map[] ==>
              o.responseHeaders.Keys == {NEW_ACCESS_TOKEN_HEADER, TOKEN_REFRESHED_HEADER}
              && o.responseHeaders[TOKEN_REFRESHED_HEADER] == "true"
  {
    if JavaString.StartsWith(request.requestUri, AUTH_PATH_PREFIX) then Proceed(map[])
    else
      match BearerToken(request)
      case None => Proceed(map[])
      case Some(token) =>
        match jwt.ExtractUsername(token, now)
        case Returned(_) => Proceed(map[])
        case ThrewRuntime(_) => Proceed(map[])
        case ThrewExpired =>
          match RefreshHeader(request)
          case None => SendError(TokenExpired)
          case Some(refreshToken) =>
            match jwt.ExtractUsername(refreshToken, now)
            case Returned(username) =>
              if jwt.IsRefreshToken(refreshToken, now) && !jwt.IsTokenExpired(refreshToken, now) then
                Proceed(RenewalHeaders(jwt.GenerateTokenFromUsername(username, now)))
              else
                SendError(RefreshTokenExpired)
            case ThrewExpired => SendError(InvalidRefreshToken)
            case ThrewRuntime(_) => SendError(InvalidRefreshToken)
  }

  /** The access token was signed with the secret but has expired: the one case that enters
      the renewal sub-flow. */
  predicate AccessExpired(jwt: JwtUtil, request: Http.Request, now: nat) {
    && !JavaString.StartsWith(request.requestUri, AUTH_PATH_PREFIX)
    && BearerToken(request).Some?
    && jwt.SignedClaims(BearerToken(request).value).Some?
    && !LiveAt(jwt.SignedClaims(BearerToken(request).value).value, now)
  }

  // ---- properties ---------------------------------------------------------------------------

  /** Credential-exchange routes are never inspected. */
  lemma AuthRoutesPassThrough(jwt: JwtUtil, request: Http.Request, now: nat)
    requires JavaString.StartsWith(request.requestUri, AUTH_PATH_PREFIX)
    ensures DoFilterInternal(jwt, request, now) == Proceed(map[])
  {
  }

  /** Without an Authorization header carrying the "Bearer " prefix the request goes on
      unchanged. */
  lemma NoBearerPassesThrough(jwt: JwtUtil, request: Http.Request, now: nat)
    requires request.GetHeader(AUTHORIZATION).None? || !JavaString.StartsWith(request.GetHeader(AUTHORIZATION).value, BEARER_PREFIX)
    ensures DoFilterInternal(jwt, request, now) == Proceed(map[])
  {
  }

  /** The token inspected is the header with its first seven characters removed: a request
      whose header is "Bearer " followed by any text is judged by that text. */
  lemma BearerTokenIsHeaderTail(request: Http.Request, tail: string)
    requires request.GetHeader(AUTHORIZATION) == Some(BEARER_PREFIX + tail)
    ensures BearerToken(request) == Some(tail)
  {
    assert BEARER_PREFIX <= BEARER_PREFIX + tail;
  }

  /** An access token that is accepted, and one that is malformed or badly signed, both pass
      through with no header set: only an expired token is acted upon. */
  lemma OnlyExpiredAccessIsActedUpon(jwt: JwtUtil, request: Http.Request, now: nat)
    requires !AccessExpired(jwt, request, now)
    ensures DoFilterInternal(jwt, request, now) == Proceed(map[])
  {
  }

  /** An expired access token without a refresh token header (or with an empty one) is
      refused with TOKEN_EXPIRED. */
  lemma ExpiredWithoutRefreshRejected(jwt: JwtUtil, request: Http.Request, now: nat)
    requires AccessExpired(jwt, request, now)
    requires RefreshHeader(request).None?
    ensures DoFilterInternal(jwt, request, now).Reject?
    ensures DoFilterInternal(jwt, request, now).code == TokenExpired
  {
  }

  /** An expired access token together with an accepted refresh-class token: the request goes
      on, and the response carries the two renewal headers (see `RenewalHeaders`) with an
      access token generated now for the refresh token's subject (see
      `JwtUtil.GenerateTokenFromUsername` for its claims). */
  lemma SilentRenewal(jwt: JwtUtil, request: Http.Request, now: nat)
    requires AccessExpired(jwt, request, now)
    requires RefreshHeader(request).Some?
    requires jwt.IsRefreshToken(RefreshHeader(request).value, now)
    ensures var subject := jwt.SignedClaims(RefreshHeader(request).value).value.subject;
            DoFilterInternal(jwt, request, now) == Proceed(RenewalHeaders(jwt.GenerateTokenFromUsername(subject, now)))
  {
    var refresh := RefreshHeader(request).value;
    assert jwt.ExtractUsername(BearerToken(request).value, now) == ThrewExpired;
    assert jwt.ExtractUsername(refresh, now) == Returned(jwt.SignedClaims(refresh).value.subject);
  }

  /** REFRESH_TOKEN_EXPIRED is given to an accepted refresh header that lacks the refresh
      claim, and to nothing else. */
  lemma RefreshTokenExpiredMeansWrongClass(jwt: JwtUtil, request: Http.Request, now: nat)
    ensures DoFilterInternal(jwt, request, now) == SendError(RefreshTokenExpired)
            <==>
            AccessExpired(jwt, request, now) && RefreshHeader(request).Some?
            && jwt.Accepts(RefreshHeader(request).value, now)
            && jwt.SignedClaims(RefreshHeader(request).value).value.typeClaim != Some(REFRESH_TYPE)
  {
  }

  /** As written, an expired refresh token is refused with INVALID_REFRESH_TOKEN, like a
      malformed or foreign one: reading its subject throws before its class and expiry are
      looked at. */
  lemma ExpiredRefreshGetsInvalidCode(jwt: JwtUtil, request: Http.Request, now: nat)
    requires AccessExpired(jwt, request, now)
    requires RefreshHeader(request).Some?
    ensures DoFilterInternal(jwt, request, now).Reject? && DoFilterInternal(jwt, request, now).code == InvalidRefreshToken
            <==> !jwt.Accepts(RefreshHeader(request).value, now)
  {
  }

  // ---- the evidently intended renewal sub-flow ----------------------------------------------

  /** `doFilterInternal` with the expiry of the refresh token caught apart from its other
      failures, as the code REFRESH_TOKEN_EXPIRED and its message ("expired or invalid") say
      was meant. Identical to `DoFilterInternal` everywhere else. */
  function DoFilterIntended(jwt: JwtUtil, request: Http.Request, now: nat): (o: FilterOutcome)
    ensures o.Reject? ==> o.status == SC_UNAUTHORIZED
  {
    if JavaString.StartsWith(request.requestUri, AUTH_PATH_PREFIX) then Proceed(map[])
    else
      match BearerToken(request)
      case None => Proceed(map[])
      case Some(token) =>
        match jwt.ExtractUsername(token, now)
        case Returned(_) => Proceed(map[])
        case ThrewRuntime(_) => Proceed(map[])
        case ThrewExpired =>
          match RefreshHeader(request)
          case None => SendError(TokenExpired)
          case Some(refreshToken) =>
            match jwt.ExtractUsername(refreshToken, now)
            case Returned(username) =>
              if jwt.IsRefreshToken(refreshToken, now) && !jwt.IsTokenExpired(refreshToken, now) then
                Proceed(RenewalHeaders(jwt.GenerateTokenFromUsername(username, now)))
              else
                SendError(RefreshTokenExpired)
            case ThrewExpired => SendError(RefreshTokenExpired)
            case ThrewRuntime(_) => SendError(InvalidRefreshToken)
  }

  /** In the intended flow an expired or wrong-class refresh token gets REFRESH_TOKEN_EXPIRED,
      and INVALID_REFRESH_TOKEN is kept for a refresh token that is malformed or not signed
      with the secret. */
  lemma IntendedRefreshCodes(jwt: JwtUtil, request: Http.Request, now: nat)
    requires AccessExpired(jwt, request, now)
    requires RefreshHeader(request).Some?
    ensures var o := DoFilterIntended(jwt, request, now);
            var refresh := RefreshHeader(request).value;
            && (o.Reject? && o.code == RefreshTokenExpired <==>
                  jwt.SignedClaims(refresh).Some? && !jwt.IsRefreshToken(refresh, now))
            && (o.Reject? && o.code == InvalidRefreshToken <==> jwt.SignedClaims(refresh).None?)
  {
  }

  /** The correction changes nothing but the code given to an expired refresh token. */
  lemma IntendedDiffersOnlyOnExpiredRefresh(jwt: JwtUtil, request: Http.Request, now: nat)
    requires !(AccessExpired(jwt, request, now) && RefreshHeader(request).Some?
               && jwt.SignedClaims(RefreshHeader(request).value).Some? && !jwt.Accepts(RefreshHeader(request).value, now))
    ensures DoFilterIntended(jwt, request, now) == DoFilterInternal(jwt, request, now)
  {
  }
}
