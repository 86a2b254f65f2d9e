/** The hexadecimal helpers the codecs call (`ISOUtil.hexString` and
    `ISOUtil.hex2byte`). Their Kotlin source is not part of this model; they
    are defined here by what the codecs rely on: two upper-case characters
    per octet, no separators, and a decoder that refuses odd lengths and
    non-hex characters. */
module Hex {
  import opened Wrappers
  import opened Bytes

  predicate IsHexDigit(c: char)
  {
    ('0' <= c <= '9') || ('a' <= c <= 'f') || ('A' <= c <= 'F')
  }

  predicate IsHexString(s: string)
  {
    forall i :: 0 <= i < |s| ==> IsHexDigit(s[i])
  }

  function DigitValue(c: char): (v: nat)
    requires IsHexDigit(c)
    ensures v < 16
  {
    if '0' <= c <= '9' then c as int - '0' as int
    else if 'a' <= c <= 'f' then c as int - 'a' as int + 10
    else c as int - 'A' as int + 10
  }

  /** The upper-case digit for a nibble. */
  function DigitChar(v: nat): (c: char)
    requires v < 16
    ensures IsHexDigit(c) && DigitValue(c) == v
    ensures !('a' <= c <= 'f')
  {
    if v < 10 then ('0' as int + v) as char else ('A' as int + v - 10) as char
  }

  function UpperDigit(c: char): (u: char)
  {
    if 'a' <= c <= 'f' then (c as int - 'a' as int + 'A' as int) as char else c
  }

  /** Hex text with its lower-case letters raised. */
  function UpperCase(s: string): (u: string)
    ensures |u| == |s|
  {
    seq(|s|, i requires 0 <= i < |s| => UpperDigit(s[i]))
  }

  /** Raising hex text keeps every digit's value and leaves none of them
      lower case. */
  lemma UpperCaseDigits(s: string)
    requires IsHexString(s)
    ensures var u := UpperCase(s);
      IsHexString(u) &&
      forall i :: 0 <= i < |s| ==> DigitValue(u[i]) == DigitValue(s[i]) && !('a' <= u[i] <= 'f')
  {
  }

  lemma DigitCharOfValue(c: char)
    requires IsHexDigit(c)
    ensures DigitChar(DigitValue(c)) == UpperDigit(c)
  {
  }

  /** `ISOUtil.hexString`: two upper-case characters per octet. */
  function HexString(bs: seq<byte>): (s: string)
    ensures |s| == 2 * |bs|
  {
    if bs == [] then []
    else [DigitChar(bs[0] / 16), DigitChar(bs[0] % 16)] + HexString(bs[1..])
  }

  /** `ISOUtil.hex2byte`: `None` for an odd length or a non-hex character. */
  function Hex2Byte(s: string): (r: Option<seq<byte>>)
    ensures r.Some? <==> |s| % 2 == 0 && IsHexString(s)
    ensures r.Some? ==> |r.value| == |s| / 2
    decreases |s|
  {
    if |s| == 0 then Some([])
    else if |s| == 1 || !IsHexDigit(s[0]) || !IsHexDigit(s[1]) then None
    else
      match Hex2Byte(s[2..])
      case None => None
      case Some(rest) => Some([16 * DigitValue(s[0]) + DigitValue(s[1])] + rest)
  }

  lemma {:induction false} Hex2ByteOfHexString(bs: seq<byte>)
    ensures Hex2Byte(HexString(bs)) == Some(bs)
  {
    if bs != [] {
      var s := HexString(bs);
      Hex2ByteOfHexString(bs[1..]);
      assert s[2..] == HexString(bs[1..]);
      assert DigitValue(s[0]) == bs[0] / 16 && DigitValue(s[1]) == bs[0] % 16;
      assert 16 * (bs[0] / 16) + bs[0] % 16 == bs[0];
      assert [bs[0]] + bs[1..] == bs;
    }
  }

  lemma {:induction false} HexStringOfHex2Byte(s: string)
    requires Hex2Byte(s).Some?
    ensures HexString(Hex2Byte(s).value) == UpperCase(s)
    decreases |s|
  {
    if |s| > 0 {
      var rest := Hex2Byte(s[2..]).value;
      var b := 16 * DigitValue(s[0]) + DigitValue(s[1]);
      assert Hex2Byte(s).value == [b] + rest;
      HexStringOfHex2Byte(s[2..]);
      assert b / 16 == DigitValue(s[0]) && b % 16 == DigitValue(s[1]);
      DigitCharOfValue(s[0]);
      DigitCharOfValue(s[1]);
      assert ([b] + rest)[1..] == rest && ([b] + rest)[0] == b;
      assert HexString([b] + rest) == [DigitChar(b / 16), DigitChar(b % 16)] + HexString(rest);
      assert [DigitChar(b / 16), DigitChar(b % 16)] == [UpperDigit(s[0]), UpperDigit(s[1])];
      assert UpperCase(s) == [UpperDigit(s[0]), UpperDigit(s[1])] + UpperCase(s[2..]);
    }
  }
}
