/** The token utility: issues access and refresh tokens and answers questions about a token
    string, turning the parser's exceptions into results. Every answer depends on the token
    string, the configured secret and lifetimes, and the clock `now` (milliseconds since the
    epoch), which is passed in. */
module JwtUtil {
  import opened Wrappers
  import opened Jwt

  /** Default lifetimes, in milliseconds: 24 hours and 7 days. */
  const JWT_EXPIRATION_DEFAULT: nat := 86400000
  const REFRESH_TOKEN_EXPIRATION_DEFAULT: nat := 604800000

  /** The value of the "type" claim that marks a refresh token. */
  const REFRESH_TYPE: string := "refresh"

  datatype UserDetails = UserDetails(username: string)

  /** How a call ends: a returned value, an ExpiredJwtException, or a RuntimeException with
      its message. */
  datatype Outcome<T> = Returned(value: T) | ThrewExpired | ThrewRuntime(message: string)

  /** The configured utility: the signing secret and the two lifetimes in milliseconds. */
  datatype JwtUtil = JwtUtil(secretKey: string, jwtExpiration: nat, refreshTokenExpiration: nat) {

    /** The claims `token` carries when it is signed with this utility's secret. */
    function SignedClaims(token: string): Option<Token> {
      match Decode(token)
      case Some(t) => if t.signedWith == secretKey then Some(t) else None
      case None => None
    }

    /** `token` is signed with the secret and not yet expired at `now`. */
    predicate Accepts(token: string, now: nat) {
      SignedClaims(token).Some? && LiveAt(SignedClaims(token).value, now)
    }

    /** A token with the given type claim and subject, issued at `now` and expiring
        `expiration` milliseconds later, signed with the secret. */
    function CreateToken(typeClaim: Option<string>, subject: string, expiration: nat, now: nat): (token: string)
      ensures SignedClaims(token) == Some(Token(subject, typeClaim, NumericDate(now), NumericDate(now + expiration), secretKey))
    {
      var t := Token(subject, typeClaim, NumericDate(now), NumericDate(now + expiration), secretKey);
      DecodeCompact(t);
      Compact(t)
    }

    /** An access token: no type claim, the access lifetime. */
    function GenerateToken(user: UserDetails, now: nat): (token: string)
      ensures SignedClaims(token).Some?
      ensures var c := SignedClaims(token).value;
              c.subject == user.username && c.typeClaim == None && c.iat == NumericDate(now) && c.exp == NumericDate(now + jwtExpiration)
    {
      CreateToken(None, user.username, jwtExpiration, now)
    }

    /** A refresh token: type claim "refresh", the refresh lifetime. */
    function GenerateRefreshToken(user: UserDetails, now: nat): (token: string)
      ensures SignedClaims(token).Some?
      ensures var c := SignedClaims(token).value;
              c.subject == user.username && c.typeClaim == Some(REFRESH_TYPE) && c.iat == NumericDate(now) && c.exp == NumericDate(now + refreshTokenExpiration)
    {
      CreateToken(Some(REFRESH_TYPE), user.username, refreshTokenExpiration, now)
    }

    /** An access token for a bare username. */
    function GenerateTokenFromUsername(username: string, now: nat): (token: string)
      ensures SignedClaims(token).Some?
      ensures var c := SignedClaims(token).value;
              c.subject == username && c.typeClaim == None && c.iat == NumericDate(now) && c.exp == NumericDate(now + jwtExpiration)
    {
      CreateToken(None, username, jwtExpiration, now)
    }

    /** The claims of the token; an expired token is rethrown as such, every other parser
        failure becomes a RuntimeException whose message names it. */
    function ExtractAllClaims(token: string, now: nat): (r: Outcome<Token>)
      ensures r.Returned? <==> Accepts(token, now)
      ensures r.Returned? ==> SignedClaims(token) == Some(r.value)
      ensures r.ThrewExpired? <==> SignedClaims(token).Some? && !LiveAt(SignedClaims(token).value, now)
    {
      match ParseClaimsJws(token, secretKey, now)
      case Parsed(claims) => Returned(claims)
      case Expired(_) => ThrewExpired
      case Failed(IllegalArgument) => ThrewRuntime("JWT token compact of handler are invalid")
      case Failed(Malformed) => ThrewRuntime("JWT token is malformed")
      case Failed(BadSignature) => ThrewRuntime("JWT signature validation failed")
    }

    /** One claim, chosen by `resolver`; the expired case is kept apart from every other
        failure, which is wrapped in one generic RuntimeException. */
    function ExtractClaim<T>(token: string, now: nat, resolver: Token -> T): (r: Outcome<T>)
      ensures r.Returned? <==> Accepts(token, now)
      ensures r.Returned? ==> r.value == resolver(SignedClaims(token).value)
      ensures r.ThrewExpired? <==> SignedClaims(token).Some? && !LiveAt(SignedClaims(token).value, now)
      ensures r.ThrewRuntime? ==> r.message == "Error extracting claim from token"
    {
      match ExtractAllClaims(token, now)
      case Returned(claims) => Returned(resolver(claims))
      case ThrewExpired => ThrewExpired
      case ThrewRuntime(_) => ThrewRuntime("Error extracting claim from token")
    }

    function ExtractUsername(token: string, now: nat): (r: Outcome<string>)
      ensures r.Returned? <==> Accepts(token, now)
      ensures r.Returned? ==> r.value == SignedClaims(token).value.subject
      ensures r.ThrewExpired? <==> SignedClaims(token).Some? && !LiveAt(SignedClaims(token).value, now)
    {
      ExtractClaim(token, now, (c: Token) => c.subject)
    }

    /** The expiration as a date in milliseconds. */
    function ExtractExpiration(token: string, now: nat): (r: Outcome<nat>)
      ensures r.Returned? <==> Accepts(token, now)
      ensures r.Returned? ==> r.value == ExpiresAtMillis(SignedClaims(token).value)
    {
      ExtractClaim(token, now, (c: Token) => ExpiresAtMillis(c))
    }

    /** Never throws: true for an expired token and, failing closed, for any token that does
        not parse or is not signed with the secret. */
    predicate IsTokenExpired(token: string, now: nat)
      ensures IsTokenExpired(token, now) <==> !Accepts(token, now)
    {
      match ExtractExpiration(token, now)
      case Returned(expiration) => expiration < now
      case ThrewExpired => true
      case ThrewRuntime(_) => true
    }

    /** Never throws: true exactly for an accepted token whose type claim is "refresh". */
    predicate IsRefreshToken(token: string, now: nat)
      ensures IsRefreshToken(token, now) <==> Accepts(token, now) && SignedClaims(token).value.typeClaim == Some(REFRESH_TYPE)
    {
      match ExtractAllClaims(token, now)
      case Returned(claims) => claims.typeClaim == Some(REFRESH_TYPE)
      case ThrewExpired => false
      case ThrewRuntime(_) => false
    }

    /** False for a missing token or user; otherwise true exactly when the token is accepted
        and its subject is the user's name, compared exactly. */
    predicate ValidateToken(token: Option<string>, user: Option<UserDetails>, now: nat)
      ensures ValidateToken(token, user, now) <==>
                token.Some? && user.Some? && Accepts(token.value, now)
                && SignedClaims(token.value).value.subject == user.value.username
    {
      if token.None? || user.None? then false
      else
        match ExtractUsername(token.value, now)
        case Returned(username) => username == user.value.username && !IsTokenExpired(token.value, now)
        case ThrewExpired => false
        case ThrewRuntime(_) => false
    }

    /** As `ValidateToken`, and the token must in addition be a refresh token. */
    predicate ValidateRefreshToken(token: Option<string>, user: Option<UserDetails>, now: nat)
      ensures ValidateRefreshToken(token, user, now) <==>
                ValidateToken(token, user, now) && IsRefreshToken(token.value, now)
    {
      if token.None? || user.None? then false
      else
        match ExtractUsername(token.value, now)
        case Returned(username) =>
          username == user.value.username && !IsTokenExpired(token.value, now) && IsRefreshToken(token.value, now)
        case ThrewExpired => false
        case ThrewRuntime(_) => false
    }
  }

  // ---- properties of issued tokens ---------------------------------------------------------

  /** A token read back with the same secret yields the subject it was created for, and is
      not expired, as long as the clock has not passed its expiration. */
  lemma CreatedTokenRoundTrip(u: JwtUtil, typeClaim: Option<string>, subject: string, expiration: nat, issuedAt: nat, now: nat)
    requires now <= NumericDate(issuedAt + expiration) * 1000
    ensures u.ExtractUsername(u.CreateToken(typeClaim, subject, expiration, issuedAt), now) == Returned(subject)
    ensures !u.IsTokenExpired(u.CreateToken(typeClaim, subject, expiration, issuedAt), now)
  {
  }

  /** Once the clock is past the expiration, reading the subject throws the expiry exception
      and the token counts as expired. */
  lemma CreatedTokenExpires(u: JwtUtil, typeClaim: Option<string>, subject: string, expiration: nat, issuedAt: nat, now: nat)
    requires now > NumericDate(issuedAt + expiration) * 1000
    ensures u.ExtractUsername(u.CreateToken(typeClaim, subject, expiration, issuedAt), now) == ThrewExpired
    ensures u.IsTokenExpired(u.CreateToken(typeClaim, subject, expiration, issuedAt), now)
  {
  }

  /** The stored expiration is the issue time plus the lifetime, truncated to the second:
      it lies in the last second before `issuedAt + expiration`, and for a lifetime of whole
      seconds `exp - iat` is exactly that many seconds. */
  lemma ExpirationIsIssuedAtPlusLifetime(issuedAt: nat, expiration: nat)
    ensures NumericDate(issuedAt + expiration) * 1000 <= issuedAt + expiration < NumericDate(issuedAt + expiration) * 1000 + 1000
    ensures expiration % 1000 == 0 ==> NumericDate(issuedAt + expiration) == NumericDate(issuedAt) + expiration / 1000
  {
    if expiration % 1000 == 0 {
      var q, r := issuedAt / 1000, issuedAt % 1000;
      var k := expiration / 1000;
      assert issuedAt + expiration == (q + k) * 1000 + r;
    }
  }

  /** With the default lifetimes a refresh token issued at the same instant as an access
      token for the same user expires strictly later. */
  lemma RefreshOutlivesAccess(secret: string, user: UserDetails, now: nat)
    ensures
      var u := JwtUtil(secret, JWT_EXPIRATION_DEFAULT, REFRESH_TOKEN_EXPIRATION_DEFAULT);
      u.SignedClaims(u.GenerateRefreshToken(user, now)).value.exp > u.SignedClaims(u.GenerateToken(user, now)).value.exp
  {
    ExpirationIsIssuedAtPlusLifetime(now, JWT_EXPIRATION_DEFAULT);
    ExpirationIsIssuedAtPlusLifetime(now, REFRESH_TOKEN_EXPIRATION_DEFAULT);
  }

  /** Only refresh tokens carry the refresh claim: a fresh refresh token is a refresh token
      until it expires, and no token issued by the other two generators ever is. */
  lemma GeneratedTokenClasses(u: JwtUtil, user: UserDetails, issuedAt: nat, now: nat)
    ensures u.IsRefreshToken(u.GenerateRefreshToken(user, issuedAt), now) <==>
              now <= NumericDate(issuedAt + u.refreshTokenExpiration) * 1000
    ensures !u.IsRefreshToken(u.GenerateToken(user, issuedAt), now)
    ensures !u.IsRefreshToken(u.GenerateTokenFromUsername(user.username, issuedAt), now)
  {
  }

  /** A token signed with another secret never validates, for any user and clock. */
  lemma ForeignTokenNeverValidates(u: JwtUtil, t: Token, user: Option<UserDetails>, now: nat)
    requires t.signedWith != u.secretKey
    ensures !u.ValidateToken(Some(Compact(t)), user, now)
    ensures !u.IsRefreshToken(Compact(t), now)
    ensures u.IsTokenExpired(Compact(t), now)
  {
    DecodeCompact(t);
  }
}
