/** The token guard of the refresh endpoint (RefreshToken in
    handlers/auth.go): the submitted token must validate and carry
    `refresh = true`; a new access token is then issued for its user id.
    JSON binding and the HTTP responses are not modelled. */
module RefreshEndpoint {
  import opened Wrappers
  import opened Jwt

  datatype RefreshError = InvalidRefreshToken | AccessTokenFailed

  /** The new access token, or why the request is refused. */
  function Refresh(s: Signer, key: Secret, token: string, now: int): (r: Result<string, RefreshError>)
    ensures r == Err(InvalidRefreshToken) <==>
              ValidateToken(s, key, token, now).Err? || !IsRefreshToken(ValidateToken(s, key, token, now).value)
    ensures r.Ok? ==> ValidateToken(s, key, token, now).Ok?
                      && GenerateToken(s, key, ValidateToken(s, key, token, now).value.userId, now)
                         == Ok(r.value)
    ensures r == Err(AccessTokenFailed) ==>
              ValidateToken(s, key, token, now).Ok?
              && GenerateToken(s, key, ValidateToken(s, key, token, now).value.userId, now).Err?
  {
    match ValidateToken(s, key, token, now)
    case Err(_) => Err(InvalidRefreshToken)
    case Ok(claims) =>
      if !IsRefreshToken(claims) then Err(InvalidRefreshToken)
      else
        match GenerateToken(s, key, claims.userId, now)
        case Err(_) => Err(AccessTokenFailed)
        case Ok(access) => Ok(access)
  }

  /** An access token is never accepted as a refresh token. */
  lemma AccessTokenRefused(s: Signer, key: Secret, userId: nat, issued: int, now: int)
    requires SignerSound(s)
    requires GenerateToken(s, key, userId, issued).Ok?
    ensures Refresh(s, key, GenerateToken(s, key, userId, issued).value, now) == Err(InvalidRefreshToken)
  {
  }

  /** A live refresh token yields, when signing succeeds, an access token for
      the same user that validates from `now` for 24 hours. */
  lemma RefreshYieldsAccessToken(s: Signer, key: Secret, userId: nat, issued: int, now: int)
    requires SignerSound(s)
    requires GenerateRefreshToken(s, key, userId, issued).Ok?
    requires now < issued + RefreshLifetime
    requires Refresh(s, key, GenerateRefreshToken(s, key, userId, issued).value, now).Ok?
    ensures ValidateToken(s, key, Refresh(s, key, GenerateRefreshToken(s, key, userId, issued).value, now).value, now)
            == Ok(AccessClaims(userId, now))
  {
  }
}
