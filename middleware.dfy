/** The authorization gate of middleware/auth.go: a bearer-scheme header
    (section 2.1 of RFC 6750) is split, its token validated, refresh tokens
    refused, and on admission the user id is put in the request context and
    the handler chain continues. The guards are pure functions; the gin
    request context is a class whose fields the middleware updates. */
module Middleware {
  import opened Wrappers
  import opened Jwt

  // ---------------------------------------------------------------------
  // strings.Split with a one-character separator, and its inverse
  // ---------------------------------------------------------------------

  /** strings.Split(s, [sep]): the pieces between occurrences of `sep`,
      always at least one (the empty string splits into [""]). */
  function Split(s: string, sep: char): (parts: seq<string>)
    ensures |parts| >= 1
    ensures forall i :: 0 <= i < |parts| ==> sep !in parts[i]
  {
    if s == [] then [[]]
    else if s[0] == sep then [[]] + Split(s[1..], sep)
    else
      var rest := Split(s[1..], sep);
      [[s[0]] + rest[0]] + rest[1..]
  }

  /** strings.Join(parts, [sep]). */
  function Join(parts: seq<string>, sep: char): string
    requires |parts| >= 1
  {
    if |parts| == 1 then parts[0] else parts[0] + [sep] + Join(parts[1..], sep)
  }

  /** Joining the pieces restores the string. */
  lemma {:induction false} JoinSplit(s: string, sep: char)
    ensures Join(Split(s, sep), sep) == s
  {
    if s == [] {
    } else if s[0] == sep {
      JoinSplit(s[1..], sep);
      assert Split(s, sep)[1..] == Split(s[1..], sep);
    } else {
      JoinSplit(s[1..], sep);
      var rest := Split(s[1..], sep);
      if |rest| == 1 {
      } else {
        assert Split(s, sep)[1..] == rest[1..];
        assert Join(rest, sep) == rest[0] + [sep] + Join(rest[1..], sep);
      }
    }
  }

  /** Splitting pieces that contain no separator, once joined, gives the
      same pieces back. */
  lemma {:induction false} SplitJoin(parts: seq<string>, sep: char)
    requires |parts| >= 1
    requires forall i :: 0 <= i < |parts| ==> sep !in parts[i]
    ensures Split(Join(parts, sep), sep) == parts
    decreases |parts|, |parts[0]|
  {
    var p := parts[0];
    if p == [] {
      if |parts| == 1 {
      } else {
        SplitJoin(parts[1..], sep);
        var j := Join(parts, sep);
        assert j == [sep] + Join(parts[1..], sep);
        assert j[1..] == Join(parts[1..], sep);
      }
    } else {
      var tail := [p[1..]] + parts[1..];
      assert forall i :: 0 <= i < |tail| ==> sep !in tail[i] by {
        forall i | 0 <= i < |tail| ensures sep !in tail[i] {
          if i == 0 { assert forall x :: x in p[1..] ==> x in p; } else { assert tail[i] == parts[i]; }
        }
      }
      SplitJoin(tail, sep);
      var j := Join(parts, sep);
      if |parts| == 1 {
        assert j == p && j[1..] == Join(tail, sep);
      } else {
        assert tail[1..] == parts[1..];
        assert j[1..] == Join(tail, sep);
      }
      assert j[0] == p[0] && j[0] != sep;
      assert [p[0]] + p[1..] == p;
    }
  }

  // ---------------------------------------------------------------------
  // The guards
  // ---------------------------------------------------------------------

  const BearerScheme: string := "Bearer"

  /** Why a request is turned away; each carries its own error message. */
  datatype Rejection = MissingHeader | MalformedHeader | InvalidTokenRejected | RefreshTokenRejected

  const Unauthorized: nat := 401

  function Message(r: Rejection): string
  {
    match r
    case MissingHeader => "Authorization header is required"
    case MalformedHeader => "Invalid authorization header format"
    case InvalidTokenRejected => "Invalid token"
    case RefreshTokenRejected => "Refresh token cannot be used for authentication"
  }

  /** The header checks: present, and splitting on single spaces into exactly
      the scheme `Bearer` and one token. */
  function BearerToken(header: string): (r: Result<string, Rejection>)
    ensures r.Err? ==> r.error in {MissingHeader, MalformedHeader}
    ensures r == Err(MissingHeader) <==> header == ""
  {
    if header == "" then Err(MissingHeader)
    else
      var parts := Split(header, ' ');
      if |parts| != 2 || parts[0] != BearerScheme then Err(MalformedHeader)
      else Ok(parts[1])
  }

  /** The header is accepted with token `t` exactly when it is the text
      `Bearer `, one space, then `t`, and `t` contains no space. */
  lemma BearerTokenExactly(header: string, t: string)
    ensures BearerToken(header) == Ok(t) <==> header == BearerScheme + " " + t && ' ' !in t
  {
    if BearerToken(header) == Ok(t) {
      JoinSplit(header, ' ');
      var parts := Split(header, ' ');
      assert parts == [BearerScheme, t];
      assert Join(parts, ' ') == BearerScheme + [' '] + t;
    }
    if header == BearerScheme + " " + t && ' ' !in t {
      var parts := [BearerScheme, t];
      assert forall i :: 0 <= i < |parts| ==> ' ' !in parts[i];
      SplitJoin(parts, ' ');
      assert Join(parts, ' ') == header;
    }
  }

  /** Whatever token the header checks hand on, the header was the scheme,
      one space and that token. */
  lemma BearerTokenShape(header: string)
    ensures BearerToken(header).Ok? ==>
              header == BearerScheme + " " + BearerToken(header).value && ' ' !in BearerToken(header).value
  {
    if BearerToken(header).Ok? {
      BearerTokenExactly(header, BearerToken(header).value);
    }
  }

  /** Header forms that differ from `Bearer <token>` only slightly are all
      refused: a second space inside, the scheme in lower case, a doubled
      separator. */
  lemma NearMissHeadersRejected()
    ensures BearerToken("Bearer a b").Err?
    ensures BearerToken("bearer x").Err?
    ensures BearerToken("Bearer  x").Err?
    ensures BearerToken("Bearer x") == Ok("x")
  {
    BearerTokenShape("Bearer a b");
    BearerTokenShape("bearer x");
    BearerTokenShape("Bearer  x");
    BearerTokenExactly("Bearer x", "x");
    assert forall t: string :: "Bearer a b" == BearerScheme + " " + t ==> t == "Bearer a b"[7..];
    assert forall t: string :: "Bearer  x" == BearerScheme + " " + t ==> t == "Bearer  x"[7..];
    assert forall t: string :: "bearer x" != BearerScheme + " " + t by {
      forall t: string ensures "bearer x" != BearerScheme + " " + t {
        assert (BearerScheme + " " + t)[0] == 'B';
      }
    }
  }

  /** The whole guard chain: the user id the request is admitted with, or the
      reason it is refused. */
  function Decide(s: Signer, key: Secret, header: string, now: int): (r: Result<nat, Rejection>)
    ensures r.Ok? ==> BearerToken(header).Ok?
                      && ValidateToken(s, key, BearerToken(header).value, now).Ok?
                      && !IsRefreshToken(ValidateToken(s, key, BearerToken(header).value, now).value)
                      && r.value == ValidateToken(s, key, BearerToken(header).value, now).value.userId
    ensures r == Err(MissingHeader) <==> header == ""
    ensures r == Err(MalformedHeader) <==> header != "" && BearerToken(header).Err?
    ensures r == Err(InvalidTokenRejected) <==>
              BearerToken(header).Ok? && ValidateToken(s, key, BearerToken(header).value, now).Err?
    ensures r == Err(RefreshTokenRejected) <==>
              BearerToken(header).Ok? && ValidateToken(s, key, BearerToken(header).value, now).Ok?
              && IsRefreshToken(ValidateToken(s, key, BearerToken(header).value, now).value)
  {
    match BearerToken(header)
    case Err(e) => Err(e)
    case Ok(token) =>
      match ValidateToken(s, key, token, now)
      case Err(_) => Err(InvalidTokenRejected)
      case Ok(claims) =>
        if IsRefreshToken(claims) then Err(RefreshTokenRejected) else Ok(claims.userId)
  }

  /** A request is admitted with user id `u` exactly when its header is
      `Bearer ` and a space-free token, that token validates, its claims are
      not a refresh token's, and their user id is `u`. */
  lemma DecideAdmitsExactly(s: Signer, key: Secret, header: string, now: int, token: string, u: nat)
    requires header == BearerScheme + " " + token
    ensures Decide(s, key, header, now) == Ok(u) <==>
              ' ' !in token && ValidateToken(s, key, token, now).Ok?
              && !IsRefreshToken(ValidateToken(s, key, token, now).value)
              && ValidateToken(s, key, token, now).value.userId == u
  {
    BearerTokenExactly(header, token);
    BearerTokenShape(header);
    if BearerToken(header).Ok? {
      assert header[7..] == BearerToken(header).value && header[7..] == token;
    }
  }

  /** A header that is not `Bearer ` followed by a space-free token is
      refused whatever token it holds, without consulting the validator. */
  lemma MalformedHeaderRejected(s: Signer, key: Secret, header: string, now: int)
    requires header != "" && (|header| < 7 || header[..7] != BearerScheme + " " || ' ' in header[7..])
    ensures Decide(s, key, header, now) == Err(MalformedHeader)
  {
    BearerTokenShape(header);
  }

  /** A token the validator refuses is refused by the gate. */
  lemma InvalidTokenRejectedAlways(s: Signer, key: Secret, token: string, now: int)
    requires ValidateToken(s, key, token, now).Err?
    ensures Decide(s, key, BearerScheme + " " + token, now).Err?
  {
    var header := BearerScheme + " " + token;
    BearerTokenShape(header);
    if BearerToken(header).Ok? {
      assert header[7..] == BearerToken(header).value && header[7..] == token;
    }
  }

  /** A refresh token never authenticates an ordinary request, at any time:
      whatever header hands it to the validator is refused. */
  lemma RefreshTokenNeverAdmitted(s: Signer, key: Secret, userId: nat, issued: int, header: string, now: int)
    requires SignerSound(s)
    requires GenerateRefreshToken(s, key, userId, issued).Ok?
    requires BearerToken(header) == Ok(GenerateRefreshToken(s, key, userId, issued).value)
    ensures Decide(s, key, header, now).Err?
  {
  }

  /** In particular the header `Bearer <refresh token>` is refused. */
  lemma RefreshBearerHeaderRejected(s: Signer, key: Secret, userId: nat, issued: int, now: int)
    requires SignerSound(s)
    requires GenerateRefreshToken(s, key, userId, issued).Ok?
    ensures Decide(s, key, BearerScheme + " " + GenerateRefreshToken(s, key, userId, issued).value, now).Err?
  {
    var header := BearerScheme + " " + GenerateRefreshToken(s, key, userId, issued).value;
    BearerTokenShape(header);
    if BearerToken(header).Ok? {
      assert header[7..] == BearerToken(header).value;
      RefreshTokenNeverAdmitted(s, key, userId, issued, header, now);
    }
  }

  /** A live access token presented as `Bearer <token>` is admitted with the
      user id it was issued for. */
  lemma AccessTokenAdmitted(s: Signer, key: Secret, userId: nat, issued: int, now: int)
    requires SignerSound(s)
    requires GenerateToken(s, key, userId, issued).Ok?
    requires ' ' !in GenerateToken(s, key, userId, issued).value
    requires now < issued + AccessLifetime
    ensures Decide(s, key, BearerScheme + " " + GenerateToken(s, key, userId, issued).value, now) == Ok(userId)
  {
    var token := GenerateToken(s, key, userId, issued).value;
    BearerTokenExactly(BearerScheme + " " + token, token);
  }

  // ---------------------------------------------------------------------
  // The request context and the middleware itself
  // ---------------------------------------------------------------------

  /** The parts of a gin request context the middleware touches: the
      Authorization header it reads, the JSON error response, the abort flag,
      the `user_id` key, and whether the rest of the chain ran. */
  class Context {
    const header: string
    var status: Option<nat>
    var errorMessage: Option<string>
    var aborted: bool
    var userId: Option<nat>
    var nextRan: bool

    constructor (header: string)
      ensures this.header == header
      ensures status == None && errorMessage == None
      ensures !aborted && userId == None && !nextRan
    {
      this.header := header;
      status, errorMessage := None, None;
      aborted, userId, nextRan := false, None, false;
    }

    /** c.JSON(code, gin.H{"error": message}) */
    method Json(code: nat, message: string)
      modifies this
      ensures status == Some(code) && errorMessage == Some(message)
      ensures aborted == old(aborted) && userId == old(userId) && nextRan == old(nextRan)
    {
      status, errorMessage := Some(code), Some(message);
    }

    /** c.Abort() */
    method Abort()
      modifies this
      ensures aborted
      ensures status == old(status) && errorMessage == old(errorMessage)
      ensures userId == old(userId) && nextRan == old(nextRan)
    {
      aborted := true;
    }

    /** c.Set("user_id", id) */
    method SetUserId(id: nat)
      modifies this
      ensures userId == Some(id)
      ensures status == old(status) && errorMessage == old(errorMessage)
      ensures aborted == old(aborted) && nextRan == old(nextRan)
    {
      userId := Some(id);
    }

    /** c.Next() */
    method Next()
      modifies this
      ensures nextRan
      ensures status == old(status) && errorMessage == old(errorMessage)
      ensures aborted == old(aborted) && userId == old(userId)
    {
      nextRan := true;
    }

    /** Responds 401 with the rejection's message and aborts. */
    method Reject(r: Rejection)
      modifies this
      ensures status == Some(Unauthorized) && errorMessage == Some(Message(r)) && aborted
      ensures userId == old(userId) && nextRan == old(nextRan)
    {
      Json(Unauthorized, Message(r));
      Abort();
    }
  }

  /** The handler AuthMiddleware returns, run on one request. Admission sets
      `user_id` to the decided id and runs the chain, writing no response;
      every refusal answers 401 with its message, aborts, and neither sets
      `user_id` nor runs the chain. */
  method AuthMiddleware(c: Context, s: Signer, key: Secret, now: int)
    modifies c
    ensures Decide(s, key, c.header, now).Ok? ==>
              c.userId == Some(Decide(s, key, c.header, now).value) && c.nextRan
              && c.aborted == old(c.aborted)
              && c.status == old(c.status) && c.errorMessage == old(c.errorMessage)
    ensures Decide(s, key, c.header, now).Err? ==>
              c.aborted && c.status == Some(Unauthorized)
              && c.errorMessage == Some(Message(Decide(s, key, c.header, now).error))
              && c.userId == old(c.userId) && c.nextRan == old(c.nextRan)
  {
    var authHeader := c.header;
    if authHeader == "" {
      c.Reject(MissingHeader);
      return;
    }

    var parts := Split(authHeader, ' ');
    if |parts| != 2 || parts[0] != BearerScheme {
      c.Reject(MalformedHeader);
      return;
    }

    var validated := ValidateToken(s, key, parts[1], now);
    if validated.Err? {
      c.Reject(InvalidTokenRejected);
      return;
    }

    var claims := validated.value;
    if claims.refresh.Bool? && claims.refresh.b {
      c.Reject(RefreshTokenRejected);
      return;
    }

    c.SetUserId(claims.userId);
    c.Next();
  }
}
