# auth_server: tokens, the authorization gate and single-use codes

This project is a Dafny model of the part of the `auth_server` Go service that holds its logic:

- **Token issuing and validation** (`utils/jwt.go`). Access and refresh tokens are JSON Web Tokens (RFC 7519) signed with HS256 (section 3.2 of RFC 7518). The claims are a record `Claims(userId, iat, exp, refresh)`. An access token lives 24 hours and has no `refresh` claim. A refresh token lives 7 days and has `refresh = true`. The signer is abstract: a `sign`/`parse` pair keyed by the secret. The round trip golang-jwt guarantees is the hypothesis `SignerSound`: a token signed with a secret parses back, under that secret, to its claims.
- **Authorization gate** (`middleware/auth.go`). The header checks are pure functions: present, then `strings.Split` on `" "` giving exactly `["Bearer", token]`. Then the token must validate, and a token whose `refresh` claim is the boolean `true` is refused. The gin request context is the class `Context`. `AuthMiddleware` updates its response status, error message, abort flag, `user_id` and whether the chain ran.
- **TTL store** (the Redis client). `TtlStore.Store` is a class over a `map<string, Entry>`, where each entry has a value and an expiry instant. It offers `Get`, `Set` and `Del`. An entry is live while `now < expiresAt`.
- **Phone OTP** (`utils/otp.go`). A code is 6 zero-padded digits, stored under `phone_otp:<phone>` for 300 s. A new code overwrites the old one. Validation has three outcomes: no live entry is an error; a wrong code is an error and the entry stays; the right code deletes the entry.
- **Password-reset codes** (`utils/password_reset.go`). A code is 32 random bytes, hex-encoded to 64 lower-case characters. It is stored as `pwd_reset:<code> → email` for 900 s and deleted when redeemed. The key is the code, so codes issued earlier for the same address stay live.

Inputs taken as parameters: time is an integer `now` in Unix seconds. The OTP draw is a `nat` below 1000000. The reset randomness is a 32-byte sequence. Failures of the random source and of the store are boolean inputs. The signing secret is a parameter.

Files: `wrappers.dfy` (Option, Result), `jwt.dfy`, `middleware.dfy`, `refresh_endpoint.dfy` (the token guard of the refresh endpoint in `handlers/auth.go`), `ttl_store.dfy`, `otp.dfy`, `hex.dfy` (Go's `encoding/hex`), `password_reset.dfy`.

Behaviour of the code that the model reproduces as written, although a design for such a service might choose otherwise:
- Each rejection of the middleware has its own error message, so a caller can tell a missing header from a bad token. `Middleware.Message` keeps the code's messages; the status is always 401.
- A failed store `GET` of any kind, including an unreachable store, is reported as "invalid or expired" (`utils/otp.go:37-39`, `utils/password_reset.go:44-46`). There is no separate store-unavailable error.
- Reset codes are keyed by the code, not by the e-mail address. So one address can hold several live codes at once, unlike OTPs, where a phone holds at most one.
- Nothing checks that the signing secret is non-empty.
- OTP codes come from `math/rand`, which is not a cryptographic source. The draw is an input here, so that source is not modelled.

## Model

| member | source | states |
|---|---|---|
| `Jwt.AccessClaims` | utils/jwt.go:11-15 | an access claim set carries the given `user_id`, `iat = now`, a lifetime of 86400 s and no `refresh` claim, so it is not a refresh token |
| `Jwt.RefreshClaims` | utils/jwt.go:22-27 | a refresh claim set carries the given `user_id`, `iat = now`, a lifetime of 604800 s and `refresh = true` |
| `Jwt.ValidateToken` | utils/jwt.go:47-51 | a token validates iff it parses under the secret and `now < exp`, and it then yields the parsed claims; a token that does not parse or whose signature fails is InvalidToken; a parsed token with `exp <= now` is ExpiredToken |
| `Jwt.GenerateToken` | utils/jwt.go:10-19 | fails iff signing the access claims fails; with a sound signer a produced token parses back to exactly the access claims |
| `Jwt.GenerateRefreshToken` | utils/jwt.go:21-31 | fails iff signing the refresh claims fails; with a sound signer a produced token parses back to exactly the refresh claims |
| `Jwt.GenerateTokenPair` | utils/jwt.go:33-45 | succeeds iff both signings succeed, returning (access, refresh) in that order; any failure is a signing error with no token returned |
| `Jwt.RefreshLivesSevenTimesLonger` | utils/jwt.go:13-24 | issued at the same instant, a refresh token's lifetime is exactly 7 times an access token's |
| `Jwt.AccessTokenValidity` | utils/jwt.go:10-51 | a freshly issued access token validates, with its user id and as a non-refresh token, at every time before 24 h after issue (`iat` is not checked), and is expired from then on |
| `Jwt.RefreshTokenValidity` | utils/jwt.go:21-51 | a freshly issued refresh token validates, with its user id and as a refresh token, at every time before 7 days after issue, and is expired from then on |
| `Jwt.TokenPairClaims` | utils/jwt.go:33-51 | both tokens of a pair validate at issue to the access and refresh claims of the same user id |
| `Middleware.Split` | middleware/auth.go:22 | `strings.Split` on one character gives at least one piece, and no piece contains the separator |
| `Middleware.JoinSplit` | middleware/auth.go:22 | joining the pieces of a split with the separator restores the string |
| `Middleware.SplitJoin` | middleware/auth.go:22 | splitting the join of separator-free pieces gives those pieces back |
| `Middleware.BearerToken` | middleware/auth.go:15-27 | the header checks fail only as missing or malformed, and report missing exactly for the empty header |
| `Middleware.BearerTokenExactly` | middleware/auth.go:22-29 | the header passes with token `t` iff it is `Bearer`, one space, then `t`, and `t` has no space; `t` is what goes to the validator |
| `Middleware.BearerTokenShape` | middleware/auth.go:22-29 | any token the header checks pass on is the header after `Bearer ` and has no space |
| `Middleware.NearMissHeadersRejected` | middleware/auth.go:22-27 | `Bearer a b`, `bearer x` and `Bearer  x` are refused; `Bearer x` passes `x` |
| `Middleware.Decide` | middleware/auth.go:15-51 | admission implies the header passed, the token validated, it is not a refresh token, and the admitted id is its `user_id`; each refusal reason holds exactly in its own case: missing iff the header is empty, malformed iff a non-empty header fails the split checks, invalid token iff the passed token fails validation, refresh token iff it validates with `refresh = true` |
| `Middleware.DecideAdmitsExactly` | middleware/auth.go:22-51 | for a header `Bearer <token>`: admitted with `u` iff the token has no space, validates, is not a refresh token and has `user_id = u` |
| `Middleware.MalformedHeaderRejected` | middleware/auth.go:22-27 | a non-empty header not of the form `Bearer ` plus a space-free token is refused as malformed, whatever the token |
| `Middleware.InvalidTokenRejectedAlways` | middleware/auth.go:29-34 | a token the validator refuses is refused by the gate |
| `Middleware.RefreshTokenNeverAdmitted` | middleware/auth.go:43-48 | whatever header passes an issued refresh token to the validator, at any time, the request is refused |
| `Middleware.RefreshBearerHeaderRejected` | middleware/auth.go:22-48 | the header `Bearer <refresh token>` is refused at any time |
| `Middleware.AccessTokenAdmitted` | middleware/auth.go:29-51 | an issued access token presented as `Bearer <token>` at any time before 24 h after issue is admitted with the user id it was issued for; the token is assumed to contain no space (true of the JWT compact form, not guaranteed by the abstract signer) |
| `Middleware.Context.Reject` | middleware/auth.go:17-18 | a refusal sets status 401 and the rejection's message, aborts, and changes neither `user_id` nor whether the chain ran |
| `Middleware.AuthMiddleware` | middleware/auth.go:13-53 | on admission `user_id` is the decided id, the chain runs and no response or abort is written; on every refusal the status is 401 with that path's message, the request is aborted, `user_id` is not set and the chain does not run |
| `TtlStore.Lookup` | utils/otp.go:36 | a read yields a value iff the key is live, and then the stored value |
| `TtlStore.Put` | utils/otp.go:24 | after a write the key reads as the value until `now + ttl` and as absent afterwards; every other key keeps its entry |
| `TtlStore.Remove` | utils/otp.go:46 | after a delete the key reads as absent at every time; every other key keeps its entry |
| `TtlStore.OtherKeysUnaffected` | utils/otp.go:24 | writing or deleting a key does not change what any other key reads |
| `TtlStore.Store.Get` | utils/otp.go:36 | a GET the store fails reports unavailable; otherwise it succeeds iff the key is live, with the stored value, and reports nil otherwise |
| `TtlStore.Store.Set` | utils/otp.go:24 | a failed SET reports an error and changes nothing; otherwise the entries become `Put` of the old ones |
| `TtlStore.Store.Del` | utils/otp.go:46 | the entries become the old ones without the key |
| `Otp.OtpKeyInjective` | utils/otp.go:23 | two phones share a key iff they are equal |
| `Otp.Digits` | utils/otp.go:19 | the n-digit rendering has exactly n characters, all decimal digits |
| `Otp.DigitsValue` | utils/otp.go:19 | a number below 10^w rendered in w digits reads back as itself |
| `Otp.FormatCode` | utils/otp.go:19 | a code is exactly 6 decimal digits |
| `Otp.FormatCodeValue` | utils/otp.go:19 | a code reads back as the draw it was formatted from (zero padding), so distinct draws give distinct codes |
| `Otp.Verdict` | utils/otp.go:36-48 | no error iff the live stored code equals the submitted one; invalid or expired iff no live entry; incorrect iff a live entry holds a different code |
| `Otp.GenerateOTP` | utils/otp.go:17-29 | on success returns the formatted draw and the store maps `phone_otp:<phone>` to it for 300 s, every other key unchanged; a store failure returns `""` with an error and changes nothing |
| `Otp.ValidateOTP` | utils/otp.go:32-49 | returns true iff no error; a failed GET is an invalid-or-expired error with the store unchanged; otherwise the error is the verdict and only a match deletes the key |
| `Otp.IssuedCodeMatchesOnce` | utils/otp.go:45-48 | a code submitted before 5 minutes after issue matches, and after that match every later submission of it fails as invalid or expired |
| `Otp.IssuedCodeExpires` | utils/otp.go:24 | 5 minutes after issue the code fails as invalid or expired |
| `Otp.WrongCodeKeepsEntry` | utils/otp.go:41-43 | a wrong guess fails as incorrect, leaves the store as it was, and the right code still matches |
| `Otp.LastIssuedWins` | utils/otp.go:24 | after a second issue for a phone the first code no longer matches and the second does while live |
| `Otp.OtherPhonesUnaffected` | utils/otp.go:23-24 | issuing or consuming a code for one phone does not change the verdict for any other phone |
| `Hex.Encode` | utils/password_reset.go:26 | the encoding has two characters per byte, all lower-case hex digits |
| `Hex.Decode` | utils/password_reset.go:26 | a successful decode yields half as many bytes as characters |
| `Hex.DecodeEncode` | utils/password_reset.go:26 | decoding the encoding of any bytes yields those bytes |
| `Hex.EncodeInjective` | utils/password_reset.go:26 | two byte sequences share an encoding iff they are equal |
| `PasswordReset.ResetKeyInjective` | utils/password_reset.go:30 | two codes share a key iff they are equal |
| `PasswordReset.NamespacesDisjoint` | utils/password_reset.go:30 | no reset key equals any OTP key |
| `PasswordReset.OtpIssueKeepsResetCodes` | utils/password_reset.go:30 | issuing an OTP never changes what a reset key reads |
| `PasswordReset.ResetCodeFormat` | utils/password_reset.go:21-26 | a reset code is 64 lower-case hex characters that decode back to the 32 random bytes |
| `PasswordReset.Redeem` | utils/password_reset.go:43-46 | a code redeems iff its key is live, and then to the stored address; otherwise the error is invalid or expired |
| `PasswordReset.ReadRandom` | utils/password_reset.go:21-22 | the buffer ends up holding exactly the delivered random bytes |
| `PasswordReset.GenerateResetCode` | utils/password_reset.go:19-36 | succeeds iff neither the random source nor the store fails; on success the code is the hex of the random bytes and the store maps `pwd_reset:<code>` to the address for 900 s, every other key unchanged; a random failure or a store failure returns `""` with its own error and changes nothing |
| `PasswordReset.ValidateResetCode` | utils/password_reset.go:39-52 | a failed GET is an invalid-or-expired error with the store unchanged; otherwise returns the stored address iff the code is live, deleting only that key, and reports invalid or expired with the store unchanged when it is not |
| `PasswordReset.IssuedCodeRedeemsOnce` | utils/password_reset.go:43-51 | redeemed before 15 minutes after issue a code yields its address, and afterwards it is unknown at every time |
| `PasswordReset.IssuedCodeExpires` | utils/password_reset.go:31 | 15 minutes after issue a code no longer redeems |
| `PasswordReset.UnknownCodeLeavesStore` | utils/password_reset.go:43-46 | an unknown or expired code is refused and the store is untouched |
| `PasswordReset.EarlierCodesStayLive` | utils/password_reset.go:30-31 | issuing a second code for the same address leaves the first code redeemable to that address until it expires |
| `PasswordReset.OtherCodesUnaffected` | utils/password_reset.go:41-49 | redeeming one code does not change what any other code redeems to |
| `RefreshEndpoint.Refresh` | handlers/auth.go:124-147 | the request is refused as an invalid refresh token iff the token fails validation or its `refresh` claim is not the boolean true; otherwise the result is a new access token for the token's `user_id`, or a signing failure |
| `RefreshEndpoint.AccessTokenRefused` | handlers/auth.go:137-140 | an issued access token is always refused by the refresh endpoint |
| `RefreshEndpoint.RefreshYieldsAccessToken` | handlers/auth.go:142-147 | a live refresh token yields an access token that validates to the access claims of the same user, issued at `now` |

## Left out

- HMAC-SHA256, base64url and JSON serialisation, and parsing inside golang-jwt: these are foreign code. The signer is the abstract `Jwt.Signer`, with its round trip as the hypothesis `SignerSound`.
- The key function at `utils/jwt.go:48-50` does not check the signing algorithm. The abstract parser cannot express which algorithm a token names.
- Jwt.ValidateToken: models golang-jwt's default `exp` check only (expired unless `now < exp`, no leeway). The `nbf` check of the library is not modelled, because these claim records have no `nbf`. `exp` is assumed present; golang-jwt accepts a token without one as never expiring.
- The `claims.(jwt.MapClaims)` branch (`middleware/auth.go:36-41`) is not modelled. Parsed claims are always a `Claims` record, so that refusal cannot happen.
- `user_id` is a `nat` claim that is always present. The float64 round trip and the panic of the type assertion at `middleware/auth.go:50` are not modelled.
- The real clock: `time.Now()` is read twice per token and once per validation. Here it is a single `now` per call.
- Randomness: `math/rand` seeding and `crypto/rand` are replaced by the draw passed in.
- Concurrency: the Get-then-Del sequences are not atomic, so two concurrent redemptions can both succeed. Only sequential behaviour is modelled.
- The result of `Del` is ignored by the code. `Del` always succeeds here.
- A failed `SET` is modelled as not applied. go-redis can also report an error for a `SET` that reached Redis (a timeout or a lost reply); then the code reports failure although the code or OTP is stored. The "changes nothing" clauses of Otp.GenerateOTP and PasswordReset.GenerateResetCode hold only under this assumption.
- Error values of the OTP and reset-code functions are the enumerations `Otp.OtpError` and `PasswordReset.ResetError`. Their message texts, and the store or random-source cause that `fmt.Errorf` wraps into them (`utils/otp.go:25`, `utils/password_reset.go:23`, `utils/password_reset.go:32`), are not modelled.
- TtlStore.Store.Set: requires a positive TTL. go-redis treats a zero expiration as "never expire", and no caller passes zero.
- Redis connection setup (`config/redis.go`), process start-up and route registration (`main.go`) and the user record (`models/user.go`) are not part of this model.
- `handlers/auth.go` binds JSON, queries the database (the user lookups at `handlers/auth.go:95`, `163`, `226` and `272`), and hashes and compares passwords with bcrypt (`handlers/auth.go:60`, `100`, `198`) before or after calling the modelled functions. None of that is modelled, nor the "Invalid token claims" branch (`handlers/auth.go:130-134`), which cannot fire once claims are parsed as a record. The refresh endpoint's own token guard and re-issue (`handlers/auth.go:124-147`) are modelled as `RefreshEndpoint.Refresh`, without the float64 conversion of `user_id`.
- Response bodies: only the status and the error message of a refusal are modelled, not the JSON encoding.
