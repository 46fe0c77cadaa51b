/** Base16 (section 8 of RFC 4648) as Go's encoding/hex writes it:
    EncodeToString emits two lower-case digits per byte, high nibble first;
    DecodeString accepts either case and refuses an odd length or a
    non-hex character. */
module Hex {
  import opened Wrappers

  newtype byte = x: int | 0 <= x < 256

  const HexTable: string := "0123456789abcdef"

  predicate IsLowerHex(c: char)
  {
    c in HexTable
  }

  function HexDigit(v: int): (c: char)
    requires 0 <= v < 16
    ensures IsLowerHex(c)
  {
    HexTable[v]
  }

  /** fromHexChar: the value of one hex digit of either case. */
  function FromHexChar(c: char): (r: Option<int>)
    ensures r.Some? ==> 0 <= r.value < 16
  {
    if '0' <= c <= '9' then Some(c as int - '0' as int)
    else if 'a' <= c <= 'f' then Some(c as int - 'a' as int + 10)
    else if 'A' <= c <= 'F' then Some(c as int - 'A' as int + 10)
    else None
  }

  lemma FromHexDigit(v: int)
    requires 0 <= v < 16
    ensures FromHexChar(HexDigit(v)) == Some(v)
  {
  }

  /** hex.EncodeToString */
  function Encode(b: seq<byte>): (s: string)
    ensures |s| == 2 * |b|
    ensures forall i :: 0 <= i < |s| ==> IsLowerHex(s[i])
  {
    if b == [] then ""
    else [HexDigit(b[0] as int / 16), HexDigit(b[0] as int % 16)] + Encode(b[1..])
  }

  /** hex.DecodeString */
  function Decode(s: string): (r: Option<seq<byte>>)
    ensures r.Some? ==> 2 * |r.value| == |s|
    decreases |s|
  {
    if s == "" then Some([])
    else if |s| == 1 then None
    else
      var hi, lo := FromHexChar(s[0]), FromHexChar(s[1]);
      if hi.None? || lo.None? then None
      else
        match Decode(s[2..])
        case None => None
        case Some(rest) => Some([(hi.value * 16 + lo.value) as byte] + rest)
  }

  lemma Nibbles(v: byte)
    ensures 0 <= v as int / 16 < 16 && 0 <= v as int % 16 < 16
    ensures (v as int / 16) * 16 + v as int % 16 == v as int
  {
  }

  /** Decoding two digits in front of a decodable tail. */
  lemma DecodeCons(hi: int, lo: int, rest: string, tail: seq<byte>)
    requires 0 <= hi < 16 && 0 <= lo < 16
    requires Decode(rest) == Some(tail)
    ensures Decode([HexDigit(hi), HexDigit(lo)] + rest) == Some([(hi * 16 + lo) as byte] + tail)
  {
    var s := [HexDigit(hi), HexDigit(lo)] + rest;
    FromHexDigit(hi);
    FromHexDigit(lo);
    assert s[2..] == rest;
  }

  /** Decoding recovers the encoded bytes. */
  lemma {:induction false} DecodeEncode(b: seq<byte>)
    ensures Decode(Encode(b)) == Some(b)
  {
    if b != [] {
      Nibbles(b[0]);
      var hi, lo := b[0] as int / 16, b[0] as int % 16;
      DecodeEncode(b[1..]);
      DecodeCons(hi, lo, Encode(b[1..]), b[1..]);
      assert (hi * 16 + lo) as byte == b[0];
      assert [b[0]] + b[1..] == b;
    }
  }

  /** Distinct byte strings have distinct encodings. */
  lemma EncodeInjective(a: seq<byte>, b: seq<byte>)
    ensures Encode(a) == Encode(b) <==> a == b
  {
    DecodeEncode(a);
    DecodeEncode(b);
  }
}
