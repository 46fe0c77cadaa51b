/** Password-reset codes (utils/password_reset.go): 32 random bytes,
    hex-encoded to a 64-character code, stored as `pwd_reset:<code>` mapping
    to the e-mail address for fifteen minutes and deleted when redeemed.
    The key is the code, not the address: issuing again for one address
    leaves the earlier codes live. The random bytes (crypto/rand) and the
    failures of the random source and of the store are inputs. */
module PasswordReset {
  import opened Wrappers
  import opened TtlStore
  import opened Hex
  import Otp

  const ResetCodeLength: nat := 32
  const ResetTtl: nat := 15 * 60
  const ResetPrefix: string := "pwd_reset:"

  datatype ResetError = RandomFailed | StoreFailed | InvalidOrExpired

  function ResetKey(code: string): string
  {
    ResetPrefix + code
  }

  lemma ResetKeyInjective(c: string, d: string)
    ensures ResetKey(c) == ResetKey(d) <==> c == d
  {
    if ResetKey(c) == ResetKey(d) {
      assert c == ResetKey(c)[|ResetPrefix|..];
      assert d == ResetKey(d)[|ResetPrefix|..];
    }
  }

  /** OTP keys and reset keys live in different namespaces of the one store. */
  lemma NamespacesDisjoint(phone: string, code: string)
    ensures Otp.OtpKey(phone) != ResetKey(code)
  {
    assert Otp.OtpKey(phone)[1] == 'h';
    assert ResetKey(code)[1] == 'w';
  }

  /** Issuing an OTP never disturbs a reset code. */
  lemma OtpIssueKeepsResetCodes(m: Entries, phone: string, otp: string, now: int, code: string, t: int)
    ensures Lookup(Put(m, Otp.OtpKey(phone), otp, Otp.OtpTtl, now), ResetKey(code), t) == Lookup(m, ResetKey(code), t)
  {
    NamespacesDisjoint(phone, code);
    OtherKeysUnaffected(m, Otp.OtpKey(phone), ResetKey(code), otp, Otp.OtpTtl, now, t);
  }

  /** The code for 32 random bytes: 64 lower-case hex digits that decode
      back to those bytes. */
  lemma ResetCodeFormat(random: seq<byte>)
    requires |random| == ResetCodeLength
    ensures |Encode(random)| == 64
    ensures forall i :: 0 <= i < |Encode(random)| ==> IsLowerHex(Encode(random)[i])
    ensures Decode(Encode(random)) == Some(random)
  {
    DecodeEncode(random);
  }

  // ---------------------------------------------------------------------
  // What redemption decides, and the store it leaves
  // ---------------------------------------------------------------------

  /** The address a code redeems to at `now`, if it is live. */
  function Redeem(m: Entries, code: string, now: int): (r: Result<string, ResetError>)
    ensures r.Ok? <==> Live(m, ResetKey(code), now)
    ensures r.Ok? ==> r.value == m[ResetKey(code)].value
    ensures r.Err? ==> r.error == InvalidOrExpired
  {
    match Lookup(m, ResetKey(code), now)
    case None => Err(InvalidOrExpired)
    case Some(email) => Ok(email)
  }

  /** Only a successful redemption deletes the key. */
  function AfterRedeem(m: Entries, code: string, now: int): Entries
  {
    if Redeem(m, code, now).Ok? then Remove(m, ResetKey(code)) else m
  }

  // ---------------------------------------------------------------------
  // GenerateResetCode and ValidateResetCode
  // ---------------------------------------------------------------------

  /** rand.Read(buf) when the source delivers `random`. */
  method ReadRandom(buf: array<byte>, random: seq<byte>)
    requires |random| == buf.Length
    modifies buf
    ensures buf[..] == random
  {
    forall i | 0 <= i < buf.Length {
      buf[i] := random[i];
    }
  }

  method GenerateResetCode(store: Store, email: string, random: seq<byte>, now: int,
                           randomFails: bool, storeFails: bool)
    returns (code: string, err: Option<ResetError>)
    requires |random| == ResetCodeLength
    modifies store
    ensures err.None? <==> !randomFails && !storeFails
    ensures randomFails ==> err == Some(RandomFailed)
    ensures !randomFails && storeFails ==> err == Some(StoreFailed)
    ensures err.Some? ==> code == "" && store.entries == old(store.entries)
    ensures err.None? ==> code == Encode(random)
                          && store.entries == Put(old(store.entries), ResetKey(code), email, ResetTtl, now)
  {
    var bytes := new byte[ResetCodeLength];
    if randomFails {
      return "", Some(RandomFailed);
    }
    ReadRandom(bytes, random);

    code := Encode(bytes[..]);

    var key := ResetKey(code);
    var setErr := store.Set(key, email, ResetTtl, now, storeFails);
    if setErr.Some? {
      return "", Some(StoreFailed);
    }
    err := None;
  }

  /** A failed GET, whatever the cause, is reported as an invalid or expired
      code; DEL's own result is not looked at. */
  method ValidateResetCode(store: Store, code: string, now: int, storeFails: bool)
    returns (email: string, err: Option<ResetError>)
    modifies store
    ensures storeFails ==> err == Some(InvalidOrExpired) && email == "" && store.entries == old(store.entries)
    ensures !storeFails ==> (err.None? <==> Redeem(old(store.entries), code, now).Ok?)
    ensures !storeFails && err.None? ==> email == Redeem(old(store.entries), code, now).value
    ensures !storeFails && err.Some? ==> err == Some(InvalidOrExpired) && email == ""
    ensures !storeFails ==> store.entries == AfterRedeem(old(store.entries), code, now)
  {
    var key := ResetKey(code);
    var stored := store.Get(key, now, storeFails);
    if stored.Err? {
      return "", Some(InvalidOrExpired);
    }
    store.Del(key);
    return stored.value, None;
  }

  // ---------------------------------------------------------------------
  // The life of a code
  // ---------------------------------------------------------------------

  /** Redeemed within fifteen minutes of issue, a code yields the address it
      was issued for, once; after that it is unknown. */
  lemma IssuedCodeRedeemsOnce(m: Entries, email: string, random: seq<byte>, now: int, t: int, later: int)
    requires |random| == ResetCodeLength
    requires t < now + ResetTtl
    ensures var code := Encode(random);
            var issued := Put(m, ResetKey(code), email, ResetTtl, now);
            Redeem(issued, code, t) == Ok(email)
            && Redeem(AfterRedeem(issued, code, t), code, later) == Err(InvalidOrExpired)
  {
  }

  /** Fifteen minutes after issue the code has expired. */
  lemma IssuedCodeExpires(m: Entries, email: string, code: string, now: int, t: int)
    requires now + ResetTtl <= t
    ensures Redeem(Put(m, ResetKey(code), email, ResetTtl, now), code, t) == Err(InvalidOrExpired)
  {
  }

  /** An unknown or expired code is refused and the store is untouched. */
  lemma UnknownCodeLeavesStore(m: Entries, code: string, now: int)
    requires !Live(m, ResetKey(code), now)
    ensures Redeem(m, code, now) == Err(InvalidOrExpired)
    ensures AfterRedeem(m, code, now) == m
  {
  }

  /** A second code issued for the same address leaves the first one live:
      until it expires, the first code still redeems to the address. */
  lemma EarlierCodesStayLive(m: Entries, email: string, first: seq<byte>, second: seq<byte>,
                             n1: int, n2: int, t: int)
    requires first != second
    requires t < n1 + ResetTtl
    ensures var c1, c2 := Encode(first), Encode(second);
            var twice := Put(Put(m, ResetKey(c1), email, ResetTtl, n1), ResetKey(c2), email, ResetTtl, n2);
            Redeem(twice, c1, t) == Ok(email)
  {
    var c1, c2 := Encode(first), Encode(second);
    EncodeInjective(first, second);
    ResetKeyInjective(c1, c2);
    var once := Put(m, ResetKey(c1), email, ResetTtl, n1);
    OtherKeysUnaffected(once, ResetKey(c2), ResetKey(c1), email, ResetTtl, n2, t);
  }

  /** Redeeming one code leaves every other code as it was. */
  lemma OtherCodesUnaffected(m: Entries, code: string, other: string, now: int, t: int)
    requires other != code
    ensures Redeem(AfterRedeem(m, code, now), other, t) == Redeem(m, other, t)
  {
    ResetKeyInjective(code, other);
    OtherKeysUnaffected(m, ResetKey(code), ResetKey(other), "", 1, now, t);
  }
}
