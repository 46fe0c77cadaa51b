/** Phone one-time passwords (utils/otp.go): a 6-digit code stored under
    `phone_otp:<phone>` for five minutes, overwriting any earlier code, and
    deleted once it has been matched. The random draw (math/rand's
    Intn(1000000)) and store failures are inputs. */
module Otp {
  import opened Wrappers
  import opened TtlStore

  const OtpTtl: nat := 5 * 60
  const CodeWidth: nat := 6
  const CodeSpace: nat := 1000000
  const OtpPrefix: string := "phone_otp:"

  datatype OtpError = StoreFailed | InvalidOrExpired | IncorrectOtp

  function OtpKey(phone: string): string
  {
    OtpPrefix + phone
  }

  /** Distinct phones never share a key. */
  lemma OtpKeyInjective(p: string, q: string)
    ensures OtpKey(p) == OtpKey(q) <==> p == q
  {
    if OtpKey(p) == OtpKey(q) {
      assert p == OtpKey(p)[|OtpPrefix|..];
      assert q == OtpKey(q)[|OtpPrefix|..];
    }
  }

  // ---------------------------------------------------------------------
  // fmt.Sprintf("%06d", n)
  // ---------------------------------------------------------------------

  predicate IsDigit(c: char)
  {
    '0' <= c <= '9'
  }

  function Pow10(w: nat): (r: nat)
    ensures r >= 1
  {
    if w == 0 then 1 else 10 * Pow10(w - 1)
  }

  /** The last `w` decimal digits of `n`, most significant first. */
  function Digits(n: nat, w: nat): (s: string)
    ensures |s| == w
    ensures forall i :: 0 <= i < |s| ==> IsDigit(s[i])
  {
    if w == 0 then "" else Digits(n / 10, w - 1) + [('0' as int + n % 10) as char]
  }

  /** The number a string of decimal digits spells. */
  function DecimalValue(s: string): nat
    requires forall i :: 0 <= i < |s| ==> IsDigit(s[i])
  {
    if s == "" then 0
    else
      assert IsDigit(s[|s| - 1]);
      DecimalValue(s[..|s| - 1]) * 10 + (s[|s| - 1] as int - '0' as int)
  }

  lemma {:induction false} DigitsValue(n: nat, w: nat)
    requires n < Pow10(w)
    ensures DecimalValue(Digits(n, w)) == n
  {
    if w > 0 {
      DigitsValue(n / 10, w - 1);
      var s := Digits(n, w);
      assert s[..|s| - 1] == Digits(n / 10, w - 1);
    }
  }

  /** The code for draw `n`: six digits, zero-padded on the left. */
  function FormatCode(n: nat): (code: string)
    requires n < CodeSpace
    ensures |code| == CodeWidth
    ensures forall i :: 0 <= i < |code| ==> IsDigit(code[i])
  {
    Digits(n, CodeWidth)
  }

  /** A code reads back as the number it was formatted from, so distinct
      draws give distinct codes. */
  lemma FormatCodeValue(n: nat)
    requires n < CodeSpace
    ensures DecimalValue(FormatCode(n)) == n
    ensures forall m: nat :: m < CodeSpace && FormatCode(m) == FormatCode(n) ==> m == n
  {
    assert Pow10(CodeWidth) == CodeSpace;
    DigitsValue(n, CodeWidth);
    forall m: nat | m < CodeSpace && FormatCode(m) == FormatCode(n) ensures m == n {
      DigitsValue(m, CodeWidth);
    }
  }

  // ---------------------------------------------------------------------
  // What validation decides, and the store it leaves
  // ---------------------------------------------------------------------

  /** ValidateOTP's error when the GET succeeds: no live entry, a different
      stored code, or none (a match). */
  function Verdict(m: Entries, phone: string, otp: string, now: int): (r: Option<OtpError>)
    ensures r == None <==> Lookup(m, OtpKey(phone), now) == Some(otp)
    ensures r == Some(InvalidOrExpired) <==> !Live(m, OtpKey(phone), now)
    ensures r == Some(IncorrectOtp) <==> Live(m, OtpKey(phone), now) && m[OtpKey(phone)].value != otp
  {
    match Lookup(m, OtpKey(phone), now)
    case None => Some(InvalidOrExpired)
    case Some(stored) => if stored != otp then Some(IncorrectOtp) else None
  }

  /** Only a match deletes the entry. */
  function AfterValidate(m: Entries, phone: string, otp: string, now: int): Entries
  {
    if Verdict(m, phone, otp, now) == None then Remove(m, OtpKey(phone)) else m
  }

  // ---------------------------------------------------------------------
  // GenerateOTP and ValidateOTP
  // ---------------------------------------------------------------------

  method GenerateOTP(store: Store, phone: string, draw: nat, now: int, storeFails: bool)
    returns (code: string, err: Option<OtpError>)
    requires draw < CodeSpace
    modifies store
    ensures err.None? <==> !storeFails
    ensures err.None? ==> code == FormatCode(draw)
                          && store.entries == Put(old(store.entries), OtpKey(phone), code, OtpTtl, now)
    ensures err.Some? ==> err == Some(StoreFailed) && code == "" && store.entries == old(store.entries)
  {
    code := FormatCode(draw);
    var key := OtpKey(phone);
    var setErr := store.Set(key, code, OtpTtl, now, storeFails);
    if setErr.Some? {
      return "", Some(StoreFailed);
    }
    err := None;
  }

  /** A failed GET, whatever the cause, is reported as an invalid or expired
      code. */
  method ValidateOTP(store: Store, phone: string, otp: string, now: int, storeFails: bool)
    returns (valid: bool, err: Option<OtpError>)
    modifies store
    ensures valid <==> err.None?
    ensures storeFails ==> err == Some(InvalidOrExpired) && store.entries == old(store.entries)
    ensures !storeFails ==> err == Verdict(old(store.entries), phone, otp, now)
                            && store.entries == AfterValidate(old(store.entries), phone, otp, now)
  {
    var key := OtpKey(phone);
    var stored := store.Get(key, now, storeFails);
    if stored.Err? {
      return false, Some(InvalidOrExpired);
    }
    if stored.value != otp {
      return false, Some(IncorrectOtp);
    }
    store.Del(key);
    return true, None;
  }

  // ---------------------------------------------------------------------
  // The life of a code
  // ---------------------------------------------------------------------

  /** Issued at `now` and submitted within five minutes, a code matches
      once; its deletion makes every later submission of it fail as
      invalid or expired. */
  lemma IssuedCodeMatchesOnce(m: Entries, phone: string, draw: nat, now: int, t: int, later: int)
    requires draw < CodeSpace
    requires t < now + OtpTtl
    ensures var code := FormatCode(draw);
            var issued := Put(m, OtpKey(phone), code, OtpTtl, now);
            Verdict(issued, phone, code, t) == None
            && Verdict(AfterValidate(issued, phone, code, t), phone, code, later) == Some(InvalidOrExpired)
  {
  }

  /** Five minutes after issue the code has expired. */
  lemma IssuedCodeExpires(m: Entries, phone: string, code: string, now: int, t: int)
    requires now + OtpTtl <= t
    ensures Verdict(Put(m, OtpKey(phone), code, OtpTtl, now), phone, code, t) == Some(InvalidOrExpired)
  {
  }

  /** A wrong guess fails as incorrect and leaves the stored code in place,
      still matching. */
  lemma WrongCodeKeepsEntry(m: Entries, phone: string, code: string, guess: string, now: int, t: int)
    requires guess != code
    requires t < now + OtpTtl
    ensures var issued := Put(m, OtpKey(phone), code, OtpTtl, now);
            Verdict(issued, phone, guess, t) == Some(IncorrectOtp)
            && AfterValidate(issued, phone, guess, t) == issued
            && Verdict(AfterValidate(issued, phone, guess, t), phone, code, t) == None
  {
  }

  /** Issuing again for a phone replaces its code: the earlier code no
      longer matches, the newer one does while it lives. */
  lemma LastIssuedWins(m: Entries, phone: string, first: string, second: string, n1: int, n2: int, t: int)
    requires first != second
    ensures var twice := Put(Put(m, OtpKey(phone), first, OtpTtl, n1), OtpKey(phone), second, OtpTtl, n2);
            Verdict(twice, phone, first, t) != None
            && (t < n2 + OtpTtl ==> Verdict(twice, phone, second, t) == None)
  {
  }

  /** Issuing or consuming a code for one phone leaves every other phone's
      code as it was. */
  lemma OtherPhonesUnaffected(m: Entries, phone: string, other: string, code: string, now: int, otp: string, t: int, t2: int)
    requires other != phone
    ensures Verdict(Put(m, OtpKey(phone), code, OtpTtl, now), other, otp, t2) == Verdict(m, other, otp, t2)
    ensures Verdict(AfterValidate(m, phone, code, t), other, otp, t2) == Verdict(m, other, otp, t2)
  {
    OtpKeyInjective(phone, other);
    OtherKeysUnaffected(m, OtpKey(phone), OtpKey(other), code, OtpTtl, now, t2);
  }
}
