/** Access and refresh tokens: the claim sets of utils/jwt.go (JSON Web
    Tokens, RFC 7519, signed with HS256, section 3.2 of RFC 7518).

    The signer is abstract: a pair of functions keyed by the secret, one that
    signs a claim set into a compact token and one that checks a token's
    signature and parses its claims. What golang-jwt promises of the pair --
    a token signed with a secret parses back, with that secret, to the claims
    it was signed from -- is the hypothesis SignerSound, not an axiom. Time is
    integer Unix seconds, passed in as `now`. */
module Jwt {
  import opened Wrappers

  /** 24 hours and 7 days, in seconds. */
  const AccessLifetime: int := 24 * 60 * 60
  const RefreshLifetime: int := 7 * 24 * 60 * 60

  /** The `refresh` entry of a claim map: missing, a JSON boolean, or some other
      JSON value (a token signed elsewhere with the same secret may carry one). */
  datatype RefreshClaim = Absent | Bool(b: bool) | NonBool

  /** A claim set: `user_id`, `iat`, `exp` and `refresh`. */
  datatype Claims = Claims(userId: nat, iat: int, exp: int, refresh: RefreshClaim)

  datatype TokenError = SigningFailed | InvalidToken | ExpiredToken

  type Secret = string

  /** HS256 signing and parsing, left abstract. `sign` fails with None;
      `parse` yields None for a malformed token or a signature mismatch. */
  datatype Signer = Signer(sign: (Secret, Claims) -> Option<string>,
                           parse: (Secret, string) -> Option<Claims>)

  /** The round trip the library guarantees: a token signed with a secret
      parses back, under the same secret, to exactly the signed claims. */
  ghost predicate SignerSound(s: Signer)
  {
    forall key: Secret, c: Claims :: s.sign(key, c).Some? ==> s.parse(key, s.sign(key, c).value) == Some(c)
  }

  /** A token is a refresh token exactly when its `refresh` claim is the
      boolean true; anything else (absent, false, not a boolean) is not. */
  predicate IsRefreshToken(c: Claims)
  {
    c.refresh == Bool(true)
  }

  function Lifetime(c: Claims): int
  {
    c.exp - c.iat
  }

  /** The claims of an access token issued at `now`. */
  function AccessClaims(userId: nat, now: int): (c: Claims)
    ensures c.userId == userId && c.iat == now
    ensures Lifetime(c) == AccessLifetime
    ensures !IsRefreshToken(c) && c.refresh == Absent
  {
    Claims(userId, now, now + AccessLifetime, Absent)
  }

  /** The claims of a refresh token issued at `now`. */
  function RefreshClaims(userId: nat, now: int): (c: Claims)
    ensures c.userId == userId && c.iat == now
    ensures Lifetime(c) == RefreshLifetime
    ensures IsRefreshToken(c)
  {
    Claims(userId, now, now + RefreshLifetime, Bool(true))
  }

  /** jwt.Parse with the process secret: the signature and structure check is
      the signer's; the `exp` check (expired unless now < exp) is golang-jwt's
      default validation. */
  function ValidateToken(s: Signer, key: Secret, token: string, now: int): (r: Result<Claims, TokenError>)
    ensures r.Ok? <==> s.parse(key, token).Some? && now < s.parse(key, token).value.exp
    ensures r.Ok? ==> r.value == s.parse(key, token).value
    ensures s.parse(key, token).None? ==> r == Err(InvalidToken)
    ensures s.parse(key, token).Some? && s.parse(key, token).value.exp <= now ==> r == Err(ExpiredToken)
  {
    match s.parse(key, token)
    case None => Err(InvalidToken)
    case Some(c) => if now < c.exp then Ok(c) else Err(ExpiredToken)
  }

  function Sign(s: Signer, key: Secret, c: Claims): Result<string, TokenError>
  {
    match s.sign(key, c)
    case None => Err(SigningFailed)
    case Some(t) => Ok(t)
  }

  /** GenerateToken: sign the access claims for `userId`. */
  function GenerateToken(s: Signer, key: Secret, userId: nat, now: int): (r: Result<string, TokenError>)
    ensures r.Err? <==> s.sign(key, AccessClaims(userId, now)).None?
    ensures r.Err? ==> r.error == SigningFailed
    ensures SignerSound(s) && r.Ok? ==> s.parse(key, r.value) == Some(AccessClaims(userId, now))
  {
    Sign(s, key, AccessClaims(userId, now))
  }

  /** GenerateRefreshToken: sign the refresh claims for `userId`. */
  function GenerateRefreshToken(s: Signer, key: Secret, userId: nat, now: int): (r: Result<string, TokenError>)
    ensures r.Err? <==> s.sign(key, RefreshClaims(userId, now)).None?
    ensures r.Err? ==> r.error == SigningFailed
    ensures SignerSound(s) && r.Ok? ==> s.parse(key, r.value) == Some(RefreshClaims(userId, now))
  {
    Sign(s, key, RefreshClaims(userId, now))
  }

  datatype TokenPair = TokenPair(access: string, refresh: string)

  /** GenerateTokenPair: the access token, then the refresh token; the first
      failure is returned and no token of a failed pair escapes. */
  function GenerateTokenPair(s: Signer, key: Secret, userId: nat, now: int): (r: Result<TokenPair, TokenError>)
    ensures r.Ok? <==> GenerateToken(s, key, userId, now).Ok? && GenerateRefreshToken(s, key, userId, now).Ok?
    ensures r.Ok? ==> (r.value.access == GenerateToken(s, key, userId, now).value &&
                       r.value.refresh == GenerateRefreshToken(s, key, userId, now).value)
    ensures r.Err? ==> r.error == SigningFailed
  {
    match GenerateToken(s, key, userId, now)
    case Err(e) => Err(e)
    case Ok(access) =>
      match GenerateRefreshToken(s, key, userId, now)
      case Err(e) => Err(e)
      case Ok(refresh) => Ok(TokenPair(access, refresh))
  }

  /** Issued at the same instant, a refresh token lives exactly seven times
      as long as an access token. */
  lemma RefreshLivesSevenTimesLonger(userId: nat, now: int)
    ensures Lifetime(RefreshClaims(userId, now)) == 7 * Lifetime(AccessClaims(userId, now))
  {
  }

  /** A freshly issued access token validates, with its own claims, until
      24 hours after issue (also before its issue instant: `iat` is not
      checked), and never after. */
  lemma AccessTokenValidity(s: Signer, key: Secret, userId: nat, now: int, t: int)
    requires SignerSound(s)
    requires GenerateToken(s, key, userId, now).Ok?
    ensures var r := ValidateToken(s, key, GenerateToken(s, key, userId, now).value, t);
            (r.Ok? <==> t < now + AccessLifetime)
            && (r.Ok? ==> r.value.userId == userId && !IsRefreshToken(r.value))
            && (r.Err? ==> r.error == ExpiredToken)
  {
  }

  /** A freshly issued refresh token validates, as a refresh token, until
      seven days after issue and never after. */
  lemma RefreshTokenValidity(s: Signer, key: Secret, userId: nat, now: int, t: int)
    requires SignerSound(s)
    requires GenerateRefreshToken(s, key, userId, now).Ok?
    ensures var r := ValidateToken(s, key, GenerateRefreshToken(s, key, userId, now).value, t);
            (r.Ok? <==> t < now + RefreshLifetime)
            && (r.Ok? ==> r.value.userId == userId && IsRefreshToken(r.value))
            && (r.Err? ==> r.error == ExpiredToken)
  {
  }

  /** Both tokens of a pair carry the caller's user id; the first is the
      access token and the second the refresh token. */
  lemma TokenPairClaims(s: Signer, key: Secret, userId: nat, now: int)
    requires SignerSound(s)
    requires GenerateTokenPair(s, key, userId, now).Ok?
    ensures var p := GenerateTokenPair(s, key, userId, now).value;
            ValidateToken(s, key, p.access, now) == Ok(AccessClaims(userId, now))
            && ValidateToken(s, key, p.refresh, now) == Ok(RefreshClaims(userId, now))
  {
  }
}
