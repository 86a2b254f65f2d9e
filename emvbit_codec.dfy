/** Decoding a hex field into its complete, ordered set of bit flags
    (`fromHex`), encoding flags back into hex (`toHex`) and labelling the
    set bits (`labelFor`). */
module EmvBitCodec {
  import opened Wrappers
  import opened Bytes
  import opened Hex
  import opened EmvBits

  /** `NotHex` stands for the `StringIndexOutOfBoundsException` of an odd
      length and the `NumberFormatException` of a bad pair;
      `NegativeLength` for `ByteArray` of a negative size; `IndexOutOfRange`
      for a set bit whose byte lies outside the field. */
  datatype BitError = NotHex | NegativeLength | IndexOutOfRange

  /** `Integer.parseInt(pair, 16)` on a two-character string: two hex
      digits, or a sign followed by one digit. */
  function ParseHexPair(c0: char, c1: char): (r: Option<int>)
    ensures r.Some? ==> -16 < r.value < 256
  {
    if IsHexDigit(c0) && IsHexDigit(c1) then Some(16 * DigitValue(c0) + DigitValue(c1))
    else if c0 == '-' && IsHexDigit(c1) then Some(0 - DigitValue(c1) as int)
    else if c0 == '+' && IsHexDigit(c1) then Some(DigitValue(c1))
    else None
  }

  /** The integers the pairs of `hex` parse to, or `None` for an odd length
      or a pair that does not parse. */
  function PairValues(hex: string): Option<seq<int>>
    decreases |hex|
  {
    if |hex| == 0 then Some([])
    else if |hex| == 1 then None
    else
      match ParseHexPair(hex[0], hex[1])
      case None => None
      case Some(v) =>
        match PairValues(hex[2..])
        case None => None
        case Some(rest) => Some([v] + rest)
  }

  function PrependValues(pre: seq<int>, r: Option<seq<int>>): Option<seq<int>>
  {
    match r
    case None => None
    case Some(vs) => Some(pre + vs)
  }

  lemma PairValuesStep(hex: string, i: nat)
    requires i + 2 <= |hex|
    ensures PairValues(hex[i..]) ==
      match ParseHexPair(hex[i], hex[i + 1])
      case None => None
      case Some(v) => PrependValues([v], PairValues(hex[i + 2..]))
  {
    assert hex[i..][2..] == hex[i + 2..];
  }

  lemma PrependValuesTwice(a: seq<int>, b: seq<int>, r: Option<seq<int>>)
    ensures PrependValues(a, PrependValues(b, r)) == PrependValues(a + b, r)
  {
    if r.Some? {
      assert a + (b + r.value) == (a + b) + r.value;
    }
  }

  /** The eight flags of byte value `v` numbered `byteNumber`, bit 8 first. */
  function ByteBits(v: int, byteNumber: int): (r: seq<EmvBit>)
    ensures |r| == 8
  {
    seq(8, k requires 0 <= k < 8 => EmvBit(byteNumber, 8 - k, Bit(v, 7 - k) == 1))
  }

  /** All flags of the bytes `vals`, the first numbered `first`. */
  function BitsOf(vals: seq<int>, first: int): (r: seq<EmvBit>)
    ensures |r| == 8 * |vals|
  {
    seq(8 * |vals|, k requires 0 <= k < 8 * |vals| =>
      EmvBit(first + k / 8, 8 - k % 8, Bit(vals[k / 8], 7 - k % 8) == 1))
  }

  /** What `fromHex(hex, firstByteNumber)` returns. */
  function FromHexSpec(hex: string, first: int): Result<seq<EmvBit>, BitError>
  {
    match PairValues(hex)
    case None => Err(NotHex)
    case Some(vals) => Ok(BitsOf(vals, first))
  }

  lemma BitsOfSnoc(vals: seq<int>, v: int, first: int)
    ensures BitsOf(vals + [v], first) == BitsOf(vals, first) + ByteBits(v, first + |vals|)
  {
    var a := BitsOf(vals + [v], first);
    var b := BitsOf(vals, first) + ByteBits(v, first + |vals|);
    forall k | 0 <= k < |a|
      ensures a[k] == b[k]
    {
      if k < 8 * |vals| {
        assert k / 8 < |vals|;
        assert (vals + [v])[k / 8] == vals[k / 8];
      } else {
        var t := k - 8 * |vals|;
        assert k / 8 == |vals| && k % 8 == t;
      }
    }
  }

  /** Every flag already in the set comes before the next one `fromHex`
      adds. */
  lemma AllBefore(vals: seq<int>, first: int, v: int, t: nat)
    requires t < 8
    ensures var e := ByteBits(v, first + |vals|)[t];
      var s := BitsOf(vals, first) + ByteBits(v, first + |vals|)[..t];
      forall i :: 0 <= i < |s| ==> Less(s[i], e)
  {
    var s := BitsOf(vals, first) + ByteBits(v, first + |vals|)[..t];
    forall i | 0 <= i < |s|
      ensures s[i].byteNumber < first + |vals| ||
              (s[i].byteNumber == first + |vals| && s[i].bitNumber > 8 - t)
    {
      if i < 8 * |vals| {
        assert i / 8 < |vals|;
      }
    }
  }

  /** Adding the next flag of a byte to the set built so far appends it. */
  lemma AddFlagStep(vals: seq<int>, first: int, v: int, t: nat)
    requires t < 8
    ensures var flags := ByteBits(v, first + |vals|);
      Insert(BitsOf(vals, first) + flags[..t], flags[t]) == BitsOf(vals, first) + flags[..t + 1]
  {
    var flags := ByteBits(v, first + |vals|);
    AllBefore(vals, first, v, t);
    InsertGreatest(BitsOf(vals, first) + flags[..t], flags[t]);
    assert flags[..t + 1] == flags[..t] + [flags[t]];
  }

  /** The inner loop of `fromHex`: bit 8 down to bit 1 of one byte, each
      added to the set. */
  method AddByteFlags(bits: seq<EmvBit>, ghost vals: seq<int>, first: int, byteNumber: int, v: int)
    returns (r: seq<EmvBit>)
    requires bits == BitsOf(vals, first) && byteNumber == first + |vals|
    ensures r == BitsOf(vals, first) + ByteBits(v, byteNumber)
  {
    ghost var flags := ByteBits(v, byteNumber);
    r := bits;
    var j := 7;
    while j >= 0
      invariant -1 <= j <= 7
      invariant r == bits + flags[..7 - j]
    {
      var bit := EmvBit(byteNumber, j + 1, Bit(v, j) == 1);
      ghost var t := 7 - j;
      assert bit == flags[t];
      AddFlagStep(vals, first, v, t);
      r := Insert(r, bit);
      assert r == bits + flags[..t + 1];
      j := j - 1;
    }
    assert flags[..8] == flags;
  }

  /** `fromHex(hex, firstByteNumber)`: for each pair, adds the byte's eight
      flags, bit 8 down to bit 1, to a `TreeSet`. */
  method FromHex(hex: string, firstByteNumber: int) returns (r: Result<seq<EmvBit>, BitError>)
    ensures r == FromHexSpec(hex, firstByteNumber)
  {
    var bits: seq<EmvBit> := [];
    ghost var vals: seq<int> := [];
    var i := 0;
    assert PrependValues([], PairValues(hex[0..])) == PairValues(hex) by {
      assert hex[0..] == hex;
      if PairValues(hex).Some? {
        assert [] + PairValues(hex).value == PairValues(hex).value;
      }
    }
    while i < |hex|
      invariant 0 <= i <= |hex| && i % 2 == 0 && |vals| == i / 2
      invariant PairValues(hex) == PrependValues(vals, PairValues(hex[i..]))
      invariant bits == BitsOf(vals, firstByteNumber)
      decreases |hex| - i
    {
      if i + 2 > |hex| {
        return Err(NotHex);
      }
      var b := ParseHexPair(hex[i], hex[i + 1]);
      PairValuesStep(hex, i);
      if b.None? {
        return Err(NotHex);
      }
      var byteNumber := i / 2 + firstByteNumber;
      bits := AddByteFlags(bits, vals, firstByteNumber, byteNumber, b.value);
      BitsOfSnoc(vals, b.value, firstByteNumber);
      PrependValuesTwice(vals, [b.value], PairValues(hex[i + 2..]));
      vals := vals + [b.value];
      i := i + 2;
    }
    assert hex[i..] == [];
    assert vals + [] == vals;
    return Ok(bits);
  }

  /** `fromHex(hex)`: byte numbering starts at 1. */
  method FromHexFirst(hex: string) returns (r: Result<seq<EmvBit>, BitError>)
    ensures r == FromHexSpec(hex, 1)
  {
    r := FromHex(hex, 1);
  }

  /** The two-hex-digit pairs parse, as `Integer.parseInt` reads them, to
      the octets `ISOUtil.hex2byte` gives. */
  lemma {:induction false} PairValuesOfHex(hex: string)
    requires IsHexString(hex) && |hex| % 2 == 0
    ensures PairValues(hex) == Some(Hex2Byte(hex).value)
    decreases |hex|
  {
    if |hex| > 0 {
      assert IsHexString(hex[2..]);
      PairValuesOfHex(hex[2..]);
    }
  }

  /** Index of flag `(first + b, m)` in the result of `fromHex`. */
  function Position(b: nat, m: int): int
  {
    8 * b + 8 - m
  }

  lemma BitsOfSorted(vals: seq<int>, first: int)
    ensures Sorted(BitsOf(vals, first))
  {
    var s := BitsOf(vals, first);
    forall i, j | 0 <= i < j < |s|
      ensures Less(s[i], s[j])
    {
      CanonicalOrder(s[i], s[j]);
      assert i / 8 <= j / 8;
      if i / 8 == j / 8 {
        assert i % 8 < j % 8;
      }
    }
  }

  /** Every flag of `BitsOf(vals, first)` names a byte of `vals` and a bit
      number in `1..8`, and is set exactly when that bit of that byte is. */
  lemma BitsOfRanges(vals: seq<int>, first: int)
    ensures var bits := BitsOf(vals, first);
      forall i :: 0 <= i < |bits| ==>
        first <= bits[i].byteNumber < first + |vals| && 1 <= bits[i].bitNumber <= 8 &&
        (bits[i].isSet <==> Bit(vals[bits[i].byteNumber - first], bits[i].bitNumber - 1) == 1)
  {
    var bits := BitsOf(vals, first);
    forall i | 0 <= i < |bits|
      ensures first <= bits[i].byteNumber < first + |vals| && 1 <= bits[i].bitNumber <= 8
      ensures bits[i].isSet <==> Bit(vals[bits[i].byteNumber - first], bits[i].bitNumber - 1) == 1
    {
      assert i / 8 < |vals|;
      assert bits[i].byteNumber - first == i / 8 && bits[i].bitNumber - 1 == 7 - i % 8;
    }
  }

  /** Each byte and bit number in range has its flag, at `Position`. */
  lemma BitsOfPositions(vals: seq<int>, first: int)
    ensures var bits := BitsOf(vals, first);
      forall b: nat, m :: b < |vals| && 1 <= m <= 8 ==>
        0 <= Position(b, m) < |bits| &&
        bits[Position(b, m)] == EmvBit(first + b, m, Bit(vals[b], m - 1) == 1)
  {
    var bits := BitsOf(vals, first);
    forall b: nat, m | b < |vals| && 1 <= m <= 8
      ensures 0 <= Position(b, m) < |bits|
      ensures bits[Position(b, m)] == EmvBit(first + b, m, Bit(vals[b], m - 1) == 1)
    {
      var k := Position(b, m);
      assert k / 8 == b && k % 8 == 8 - m;
    }
  }

  /** `fromHex` of `2N` hex digits gives exactly the `8N` flags, in order,
      one per byte number in `first..first+N-1` and bit number in `1..8`,
      each set exactly when that bit of that byte is. */
  lemma FromHexShape(hex: string, first: int)
    requires IsHexString(hex) && |hex| % 2 == 0
    ensures FromHexSpec(hex, first).Ok?
    ensures var bits := FromHexSpec(hex, first).value;
      var vals := Hex2Byte(hex).value;
      |bits| == 4 * |hex| && Sorted(bits) &&
      (forall i :: 0 <= i < |bits| ==>
        first <= bits[i].byteNumber < first + |vals| && 1 <= bits[i].bitNumber <= 8 &&
        (bits[i].isSet <==> Bit(vals[bits[i].byteNumber - first], bits[i].bitNumber - 1) == 1)) &&
      (forall b: nat, m :: b < |vals| && 1 <= m <= 8 ==>
        0 <= Position(b, m) < |bits| &&
        bits[Position(b, m)] == EmvBit(first + b, m, Bit(vals[b], m - 1) == 1))
  {
    PairValuesOfHex(hex);
    var vals := Hex2Byte(hex).value;
    BitsOfSorted(vals, first);
    BitsOfRanges(vals, first);
    BitsOfPositions(vals, first);
  }

  lemma FromHexExample()
    ensures FromHexSpec("80", 1) == Ok([EmvBit(1, 8, true), EmvBit(1, 7, false), EmvBit(1, 6, false),
      EmvBit(1, 5, false), EmvBit(1, 4, false), EmvBit(1, 3, false), EmvBit(1, 2, false), EmvBit(1, 1, false)])
  {
    var hex := "80";
    assert hex[2..] == "";
    assert ParseHexPair(hex[0], hex[1]) == Some(128);
    assert PairValues(hex[2..]) == Some([]);
    assert [128] + [] == [128];
    assert PairValues(hex) == Some([128]);
    var bits := BitsOf([128], 1);
    assert Bit(128, 7) == 1 && Bit(128, 6) == 0 && Bit(128, 5) == 0 && Bit(128, 4) == 0;
    assert Bit(128, 3) == 0 && Bit(128, 2) == 0 && Bit(128, 1) == 0 && Bit(128, 0) == 0;
    assert bits == [EmvBit(1, 8, true), EmvBit(1, 7, false), EmvBit(1, 6, false),
      EmvBit(1, 5, false), EmvBit(1, 4, false), EmvBit(1, 3, false), EmvBit(1, 2, false), EmvBit(1, 1, false)];
  }

  // ---------------------------------------------------------------------
  // toHex

  /** `(b.toInt() or (1 shl bitNumber - 1)).toByte()` on an octet taken
      unsigned. The JVM uses the shift count modulo 32 and `toByte()` keeps
      the low eight bits, so only shifts of 0 to 7 reach the octet. */
  function OrMask(b: byte, bitNumber: int): (r: byte)
    ensures var shift := (bitNumber - 1) % 32;
      if shift < 8 then
        Bit(r, shift) == 1 && forall j: nat :: j != shift ==> Bit(r, j) == Bit(b, j)
      else r == b
  {
    var shift := (bitNumber - 1) % 32;
    if shift < 8 then OrBit(b, shift) else b
  }

  /** One pass of the `toHex` loop: a set flag ORs its mask into its byte,
      or fails when the byte lies outside the field. */
  function SetBitInto(bytes: seq<byte>, bit: EmvBit): Option<seq<byte>>
  {
    if !bit.isSet then Some(bytes)
    else if !(1 <= bit.byteNumber <= |bytes|) then None
    else
      var i := bit.byteNumber - 1;
      Some(bytes[i := OrMask(bytes[i], bit.bitNumber)])
  }

  /** The buffer after every flag of `bits`, in iteration order, has been
      applied, or `None` at the first that fails. */
  function ApplyBits(bytes: seq<byte>, bits: seq<EmvBit>): (r: Option<seq<byte>>)
    ensures r.Some? ==> |r.value| == |bytes|
    decreases |bits|
  {
    if bits == [] then Some(bytes)
    else
      match SetBitInto(bytes, bits[0])
      case None => None
      case Some(next) => ApplyBits(next, bits[1..])
  }

  /** What `toHex(bits, fieldLengthInBytes)` returns, the set given in its
      iteration order. */
  function ToHexSpec(bits: seq<EmvBit>, fieldLength: int): Result<string, BitError>
  {
    if fieldLength < 0 then Err(NegativeLength)
    else
      match ApplyBits(Zeros(fieldLength), bits)
      case None => Err(IndexOutOfRange)
      case Some(bytes) => Ok(HexString(bytes))
  }

  lemma ApplyBitsStep(bytes: seq<byte>, bits: seq<EmvBit>, i: nat)
    requires i < |bits|
    ensures ApplyBits(bytes, bits[i..]) ==
      match SetBitInto(bytes, bits[i])
      case None => None
      case Some(next) => ApplyBits(next, bits[i + 1..])
  {
    assert bits[i..][1..] == bits[i + 1..];
  }

  /** `toHex(bits, fieldLengthInBytes)`: ORs each set flag into a zeroed
      `ByteArray`, then renders it in hex. */
  method ToHex(bits: seq<EmvBit>, fieldLengthInBytes: int) returns (r: Result<string, BitError>)
    ensures r == ToHexSpec(bits, fieldLengthInBytes)
  {
    if fieldLengthInBytes < 0 {
      return Err(NegativeLength);
    }
    var bytes := new byte[fieldLengthInBytes](_ => 0);
    assert bytes[..] == Zeros(fieldLengthInBytes);
    assert bits[0..] == bits;
    for i := 0 to |bits|
      invariant ApplyBits(Zeros(fieldLengthInBytes), bits) == ApplyBits(bytes[..], bits[i..])
    {
      var bit := bits[i];
      ApplyBitsStep(bytes[..], bits, i);
      if bit.isSet {
        var byteIndex := bit.byteNumber - 1;
        if !(0 <= byteIndex < bytes.Length) {
          return Err(IndexOutOfRange);
        }
        var b := bytes[byteIndex];
        b := OrMask(b, bit.bitNumber);
        bytes[byteIndex] := b;
      }
    }
    assert bits[|bits|..] == [];
    return Ok(HexString(bytes[..]));
  }

  lemma {:induction false} ApplyBitsConcat(bytes: seq<byte>, a: seq<EmvBit>, b: seq<EmvBit>)
    ensures ApplyBits(bytes, a + b) ==
      match ApplyBits(bytes, a)
      case None => None
      case Some(mid) => ApplyBits(mid, b)
    decreases |a|
  {
    if a != [] {
      assert (a + b)[0] == a[0] && (a + b)[1..] == a[1..] + b;
      match SetBitInto(bytes, a[0])
      case None =>
      case Some(next) => ApplyBitsConcat(next, a[1..], b);
    } else {
      assert a + b == b;
    }
  }

  /** A set flag whose byte lies outside the field. */
  predicate OutOfField(bit: EmvBit, fieldLength: int)
  {
    bit.isSet && !(1 <= bit.byteNumber <= fieldLength)
  }

  lemma {:induction false} ApplyBitsFails(bytes: seq<byte>, bits: seq<EmvBit>)
    ensures ApplyBits(bytes, bits).None? <==>
      exists i :: 0 <= i < |bits| && OutOfField(bits[i], |bytes|)
    decreases |bits|
  {
    if bits != [] {
      match SetBitInto(bytes, bits[0])
      case None =>
        assert OutOfField(bits[0], |bytes|);
      case Some(next) =>
        ApplyBitsFails(next, bits[1..]);
        if exists i :: 0 <= i < |bits| && OutOfField(bits[i], |bytes|) {
          var i :| 0 <= i < |bits| && OutOfField(bits[i], |bytes|);
          assert i > 0 && bits[1..][i - 1] == bits[i];
        }
        if exists i :: 0 <= i < |bits| - 1 && OutOfField(bits[1..][i], |next|) {
          var i :| 0 <= i < |bits| - 1 && OutOfField(bits[1..][i], |next|);
          assert bits[i + 1] == bits[1..][i];
        }
    }
  }

  /** `toHex` fails exactly when the length is negative, or when some set
      flag's byte lies outside `1..fieldLength`. */
  lemma ToHexFails(bits: seq<EmvBit>, fieldLength: int)
    ensures ToHexSpec(bits, fieldLength) == Err(NegativeLength) <==> fieldLength < 0
    ensures ToHexSpec(bits, fieldLength) == Err(IndexOutOfRange) <==>
      fieldLength >= 0 && exists i :: 0 <= i < |bits| && OutOfField(bits[i], fieldLength)
  {
    if fieldLength >= 0 {
      ApplyBitsFails(Zeros(fieldLength), bits);
    }
  }

  /** The set flags of `bits`, in order. */
  function SetOnly(bits: seq<EmvBit>): seq<EmvBit>
    decreases |bits|
  {
    if bits == [] then []
    else (if bits[0].isSet then [bits[0]] else []) + SetOnly(bits[1..])
  }

  /** `SetOnly` keeps exactly the set flags. */
  lemma {:induction false} SetOnlyMembers(bits: seq<EmvBit>)
    ensures forall x :: x in SetOnly(bits) <==> x in bits && x.isSet
    decreases |bits|
  {
    if bits != [] {
      SetOnlyMembers(bits[1..]);
      assert bits == [bits[0]] + bits[1..];
    }
  }

  lemma {:induction false} ApplySetOnly(bytes: seq<byte>, bits: seq<EmvBit>)
    ensures ApplyBits(bytes, bits) == ApplyBits(bytes, SetOnly(bits))
    decreases |bits|
  {
    if bits != [] {
      var rest := SetOnly(bits[1..]);
      if bits[0].isSet {
        assert SetOnly(bits) == [bits[0]] + rest;
        assert ([bits[0]] + rest)[1..] == rest;
        match SetBitInto(bytes, bits[0])
        case None =>
        case Some(next) => ApplySetOnly(next, bits[1..]);
      } else {
        assert SetOnly(bits) == rest;
        ApplySetOnly(bytes, bits[1..]);
      }
    }
  }

  /** Only set flags affect `toHex`: unset ones are skipped, even when their
      byte lies outside the field. */
  lemma ToHexOnlySetBits(bits: seq<EmvBit>, fieldLength: int)
    ensures ToHexSpec(bits, fieldLength) == ToHexSpec(SetOnly(bits), fieldLength)
  {
    if fieldLength >= 0 {
      ApplySetOnly(Zeros(fieldLength), bits);
    }
  }

  /** With no flag set the output is the zeroed buffer. */
  lemma ToHexNoneSet(bits: seq<EmvBit>, fieldLength: nat)
    requires forall i :: 0 <= i < |bits| ==> !bits[i].isSet
    ensures ToHexSpec(bits, fieldLength) == Ok(HexString(Zeros(fieldLength)))
  {
    ApplySetOnly(Zeros(fieldLength), bits);
    SetOnlyNone(bits);
  }

  /** Flag `(b, k)` with `k` in `1..8` sets bit `k - 1` of byte `b - 1`
      and nothing else. */
  lemma SingleBit(byteNumber: int, bitNumber: int, fieldLength: nat)
    requires 1 <= byteNumber <= fieldLength && 1 <= bitNumber <= 8
    ensures OrBit(0, bitNumber - 1) == Pow2(bitNumber - 1)
    ensures ToHexSpec([EmvBit(byteNumber, bitNumber, true)], fieldLength) ==
      Ok(HexString(Zeros(fieldLength)[byteNumber - 1 := OrBit(0, bitNumber - 1)]))
  {
    ZeroBits(bitNumber - 1);
    var bits := [EmvBit(byteNumber, bitNumber, true)];
    assert bits[1..] == [];
    assert (bitNumber - 1) % 32 == bitNumber - 1;
    var z := Zeros(fieldLength);
    var next := z[byteNumber - 1 := OrBit(0, bitNumber - 1)];
    assert SetBitInto(z, bits[0]) == Some(next);
    assert ApplyBits(next, bits[1..]) == Some(next);
    assert ApplyBits(z, bits) == Some(next);
  }

  /** A set flag whose bit number shifts by 8 to 31 (modulo 32) leaves the
      output as it was. */
  lemma IgnoredBitNumber(bit: EmvBit, bits: seq<EmvBit>, fieldLength: nat)
    requires bit.isSet && 1 <= bit.byteNumber <= fieldLength
    requires (bit.bitNumber - 1) % 32 >= 8
    ensures ToHexSpec([bit] + bits, fieldLength) == ToHexSpec(bits, fieldLength)
  {
    var z := Zeros(fieldLength);
    assert z[bit.byteNumber - 1 := 0] == z;
    assert ([bit] + bits)[1..] == bits;
  }

  lemma ToHexExampleOneBit()
    ensures ToHexSpec([EmvBit(3, 8, true)], 3) == Ok("000080")
  {
    SingleBit(3, 8, 3);
    assert OrBit(0, 7) == 128;
    assert Zeros(3)[2 := 128] == [0, 0, 128];
    HexExamples();
  }

  lemma ToHexExampleTwoBits()
    ensures ToHexSpec([EmvBit(2, 8, true), EmvBit(2, 6, true)], 3) == Ok("00A000")
  {
    var two := [EmvBit(2, 8, true), EmvBit(2, 6, true)];
    var z := Zeros(3);
    OrExamples();
    assert z[1 := 128] == [0, 128, 0];
    assert SetBitInto(z, two[0]) == Some([0, 128, 0]);
    var once: seq<byte> := [0, 128, 0];
    assert once[1 := 160] == [0, 160, 0];
    assert SetBitInto(once, two[1]) == Some([0, 160, 0]);
    assert two[1..] == [EmvBit(2, 6, true)] && two[1..][1..] == [];
    assert ApplyBits([0, 160, 0], []) == Some([0, 160, 0]);
    assert ApplyBits([0, 128, 0], two[1..]) == Some([0, 160, 0]);
    HexExamples();
  }

  lemma HexExamples()
    ensures HexString([0, 0, 128]) == "000080" && HexString([0, 160, 0]) == "00A000"
  {
    assert [0, 0, 128][1..] == [0, 128] && [0, 128][1..] == [128] && [128][1..] == [];
    assert [0, 160, 0][1..] == [160, 0] && [160, 0][1..] == [0] && [0][1..] == [];
    assert DigitChar(10) == 'A' && DigitChar(8) == '8' && DigitChar(0) == '0';
  }

  lemma OrExamples()
    ensures OrMask(0, 8) == 128 && OrMask(128, 6) == 160
  {
    ZeroBits(7);
    assert Bit(128, 5) == 0;
  }

  /** The flags of one byte, applied to a slot holding 0, leave the byte's
      value there: after the first `t` flags (bit 8 downwards) the slot
      holds exactly those bits. */
  lemma {:induction false} ApplyByteBits(bytes: seq<byte>, v: byte, p: nat, t: nat) returns (x: byte)
    requires p < |bytes| && bytes[p] == 0 && t <= 8
    ensures ApplyBits(bytes, ByteBits(v, p + 1)[..t]) == Some(bytes[p := x])
    ensures forall j: nat :: j < 8 ==> Bit(x, j) == if j >= 8 - t then Bit(v, j) else 0
    decreases t
  {
    var flags := ByteBits(v, p + 1);
    if t == 0 {
      x := 0;
      assert bytes[p := 0] == bytes;
      forall j: nat | j < 8 ensures Bit(x, j) == 0 {
        ZeroBits(j);
      }
    } else {
      var y := ApplyByteBits(bytes, v, p, t - 1);
      var e := flags[t - 1];
      assert e == EmvBit(p + 1, 9 - t, Bit(v, 8 - t) == 1);
      x := if e.isSet then OrMask(y, 9 - t) else y;
      FlagBits(v, y, t);
      assert flags[..t] == flags[..t - 1] + [e];
      ApplyBitsConcat(bytes, flags[..t - 1], [e]);
      assert [e][1..] == [];
      assert bytes[p := y][p := x] == bytes[p := x];
      assert SetBitInto(bytes[p := y], e) == Some(bytes[p := x]);
    }
  }

  /** The bit-level half of one step of `ApplyByteBits`. */
  lemma FlagBits(v: byte, y: byte, t: nat)
    requires 1 <= t <= 8
    requires forall j: nat :: j < 8 ==> Bit(y, j) == if j >= 9 - t then Bit(v, j) else 0
    ensures var x := if Bit(v, 8 - t) == 1 then OrMask(y, 9 - t) else y;
      forall j: nat :: j < 8 ==> Bit(x, j) == if j >= 8 - t then Bit(v, j) else 0
  {
    assert (9 - t - 1) % 32 == 8 - t;
  }

  /** The eight flags of one byte, set into a zero byte, reproduce that byte. */
  lemma ApplyOneByte(acc: seq<byte>, v: byte, p: nat)
    requires p < |acc| && acc[p] == 0
    ensures ApplyBits(acc, ByteBits(v, p + 1)) == Some(acc[p := v])
  {
    var x := ApplyByteBits(acc, v, p, 8);
    assert ByteBits(v, p + 1)[..8] == ByteBits(v, p + 1);
    assert Pow2(8) == 256;
    SameBits(x, v, 8);
  }

  lemma ApplyAllBytesStep(init: seq<byte>, v: byte, n: nat)
    requires |init| < n
    requires ApplyBits(Zeros(n), BitsOf(init, 1)) == Some(init + Zeros(n - |init|))
    ensures ApplyBits(Zeros(n), BitsOf(init + [v], 1)) == Some(init + [v] + Zeros(n - |init| - 1))
  {
    var acc := init + Zeros(n - |init|);
    BitsOfSnoc(init, v, 1);
    ApplyBitsConcat(Zeros(n), BitsOf(init, 1), ByteBits(v, 1 + |init|));
    ApplyOneByte(acc, v, |init|);
    assert acc[|init| := v] == init + [v] + Zeros(n - |init| - 1);
  }

  lemma {:induction false} ApplyAllBytes(vals: seq<byte>, n: nat)
    requires |vals| <= n
    ensures ApplyBits(Zeros(n), BitsOf(vals, 1)) == Some(vals + Zeros(n - |vals|))
    decreases |vals|
  {
    if vals == [] {
      assert BitsOf(vals, 1) == [];
      assert vals + Zeros(n) == Zeros(n);
    } else {
      var init, v := vals[..|vals| - 1], vals[|vals| - 1];
      assert init + [v] == vals;
      ApplyAllBytes(init, n);
      ApplyAllBytesStep(init, v, n);
    }
  }

  /** `toHex(fromHex(hex), hex.length / 2)` is `hex` in upper case. */
  lemma BitRoundTrip(hex: string)
    requires IsHexString(hex) && |hex| % 2 == 0
    ensures FromHexSpec(hex, 1).Ok?
    ensures ToHexSpec(FromHexSpec(hex, 1).value, |hex| / 2) == Ok(UpperCase(hex))
  {
    PairValuesOfHex(hex);
    var vals := Hex2Byte(hex).value;
    ApplyAllBytes(vals, |vals|);
    assert vals + Zeros(0) == vals;
    HexStringOfHex2Byte(hex);
  }

  // ---------------------------------------------------------------------
  // labelFor

  /** A set flag as `labelFor` renders it: `Byte <n> Bit <m>`. */
  function ShortLabel(bit: EmvBit): (s: string)
    ensures |s| > 0
  {
    "Byte " + IntToString(bit.byteNumber) + " Bit " + IntToString(bit.bitNumber)
  }

  /** A label part names its flag: `Byte `, a number field that reads back
      as the byte number, ` Bit `, and one that reads back as the bit
      number. */
  lemma ShortLabelFields(bit: EmvBit) returns (b: string, m: string)
    ensures IsIntText(b) && IntValue(b) == bit.byteNumber
    ensures IsIntText(m) && IntValue(m) == bit.bitNumber
    ensures ShortLabel(bit) == "Byte " + b + " Bit " + m
  {
    b, m := IntToString(bit.byteNumber), IntToString(bit.bitNumber);
    IntRoundTrip(bit.byteNumber);
    IntRoundTrip(bit.bitNumber);
  }

  function Labels(bits: seq<EmvBit>): seq<string>
  {
    seq(|bits|, i requires 0 <= i < |bits| => ShortLabel(bits[i]))
  }

  /** The parts, in order, with a comma between neighbours. */
  function Join(parts: seq<string>): string
    decreases |parts|
  {
    if |parts| == 0 then ""
    else if |parts| == 1 then parts[0]
    else Join(parts[..|parts| - 1]) + "," + parts[|parts| - 1]
  }

  /** Joining non-empty parts is empty exactly when there are none. */
  lemma {:induction false} JoinEmpty(parts: seq<string>)
    requires forall i :: 0 <= i < |parts| ==> |parts[i]| > 0
    ensures Join(parts) == "" <==> parts == []
    decreases |parts|
  {
    if |parts| > 1 {
      JoinEmpty(parts[..|parts| - 1]);
    }
  }

  /** What `labelFor(hex)` returns. */
  function LabelForSpec(hex: string): Result<string, BitError>
  {
    match FromHexSpec(hex, 1)
    case Err(e) => Err(e)
    case Ok(bits) => Ok(Join(Labels(SetOnly(bits))))
  }

  lemma {:induction false} SetOnlySnoc(bits: seq<EmvBit>, x: EmvBit)
    ensures SetOnly(bits + [x]) == SetOnly(bits) + (if x.isSet then [x] else [])
    decreases |bits|
  {
    var last := if x.isSet then [x] else [];
    if bits == [] {
      assert [] + [x] == [x] && [x][1..] == [];
      assert SetOnly([x]) == last + SetOnly([]);
    } else {
      var head := if bits[0].isSet then [bits[0]] else [];
      assert (bits + [x])[0] == bits[0];
      assert (bits + [x])[1..] == bits[1..] + [x];
      SetOnlySnoc(bits[1..], x);
      assert SetOnly(bits + [x]) == head + (SetOnly(bits[1..]) + last);
      assert head + (SetOnly(bits[1..]) + last) == (head + SetOnly(bits[1..])) + last;
    }
  }

  lemma JoinSnoc(parts: seq<string>, last: string)
    ensures Join(parts + [last]) == if parts == [] then last else Join(parts) + "," + last
  {
    assert (parts + [last])[..|parts|] == parts;
  }

  /** A pass of the `labelFor` loop over an unset flag adds nothing. */
  lemma LabelSkip(seen: seq<EmvBit>, bit: EmvBit)
    requires !bit.isSet
    ensures Join(Labels(SetOnly(seen + [bit]))) == Join(Labels(SetOnly(seen)))
  {
    SetOnlySnoc(seen, bit);
    assert SetOnly(seen) + [] == SetOnly(seen);
  }

  /** A pass over a set flag appends its label, after a comma unless the
      label is still empty. */
  lemma LabelAppend(seen: seq<EmvBit>, bit: EmvBit)
    requires bit.isSet
    ensures var before := Join(Labels(SetOnly(seen)));
      Join(Labels(SetOnly(seen + [bit]))) ==
        if |before| > 0 then before + "," + ShortLabel(bit) else ShortLabel(bit)
  {
    SetOnlySnoc(seen, bit);
    var parts := Labels(SetOnly(seen));
    JoinEmpty(parts);
    assert Labels(SetOnly(seen) + [bit]) == parts + [ShortLabel(bit)];
    JoinSnoc(parts, ShortLabel(bit));
  }

  /** `labelFor(hex)`: walks `fromHex(hex)` in order and appends each set
      flag's label, preceded by a comma once the label is non-empty. */
  method LabelFor(hex: string) returns (r: Result<string, BitError>)
    ensures r == LabelForSpec(hex)
  {
    var decoded := FromHexFirst(hex);
    if decoded.Err? {
      return Err(decoded.error);
    }
    var bits := decoded.value;
    var builder := "";
    for i := 0 to |bits|
      invariant builder == Join(Labels(SetOnly(bits[..i])))
    {
      var bit := bits[i];
      assert bits[..i + 1] == bits[..i] + [bit];
      if !bit.isSet {
        LabelSkip(bits[..i], bit);
      } else {
        LabelAppend(bits[..i], bit);
        if |builder| > 0 {
          builder := builder + ",";
        }
        builder := builder + ShortLabel(bit);
      }
    }
    assert bits[..|bits|] == bits;
    return Ok(builder);
  }

  lemma SetOnlyNone(bits: seq<EmvBit>)
    ensures SetOnly(bits) == [] <==> forall i :: 0 <= i < |bits| ==> !bits[i].isSet
  {
    if SetOnly(bits) == [] {
      forall i | 0 <= i < |bits|
        ensures !bits[i].isSet
      {
        assert bits[i] in bits;
      }
    } else {
      assert SetOnly(bits)[0] in SetOnly(bits);
    }
  }

  /** `labelFor` of a well-formed hex string is empty exactly when no bit
      is set. */
  lemma LabelEmptyIffNoneSet(hex: string)
    requires IsHexString(hex) && |hex| % 2 == 0
    ensures FromHexSpec(hex, 1).Ok? && LabelForSpec(hex).Ok?
    ensures var bits := FromHexSpec(hex, 1).value;
      LabelForSpec(hex).value == "" <==> forall i :: 0 <= i < |bits| ==> !bits[i].isSet
  {
    FromHexShape(hex, 1);
    var bits := FromHexSpec(hex, 1).value;
    JoinEmpty(Labels(SetOnly(bits)));
    SetOnlyNone(bits);
  }

  /** Dropping unset flags keeps the order. */
  lemma {:induction false} SetOnlySorted(bits: seq<EmvBit>)
    requires Sorted(bits)
    ensures Sorted(SetOnly(bits))
    decreases |bits|
  {
    if bits != [] {
      var rest := SetOnly(bits[1..]);
      SetOnlySorted(bits[1..]);
      SetOnlyMembers(bits[1..]);
      if bits[0].isSet {
        forall j | 0 <= j < |rest|
          ensures Less(bits[0], rest[j])
        {
          assert rest[j] in bits[1..];
          var k :| 0 <= k < |bits| - 1 && bits[1..][k] == rest[j];
          assert bits[k + 1] == rest[j];
        }
      }
    }
  }

  /** The flags `labelFor` names are exactly the set bits of the field, in
      the canonical order of `compareTo`. */
  lemma LabelParts(hex: string)
    requires IsHexString(hex) && |hex| % 2 == 0
    ensures FromHexSpec(hex, 1).Ok?
    ensures var bits := FromHexSpec(hex, 1).value;
      var named := SetOnly(bits);
      LabelForSpec(hex) == Ok(Join(Labels(named))) && Sorted(named) &&
      forall x :: x in named <==> x in bits && x.isSet
  {
    PairValuesOfHex(hex);
    var bits := FromHexSpec(hex, 1).value;
    BitsOfSorted(Hex2Byte(hex).value, 1);
    SetOnlySorted(bits);
    SetOnlyMembers(bits);
  }

  lemma SetOnlyOfOnlySet(bits: seq<EmvBit>, k: nat)
    requires k < |bits| && bits[k].isSet
    requires forall i :: 0 <= i < |bits| && i != k ==> !bits[i].isSet
    ensures SetOnly(bits) == [bits[k]]
  {
    var pre, x, post := bits[..k], bits[k], bits[k + 1..];
    assert SetOnly(pre) == [] by {
      assert forall i :: 0 <= i < |pre| ==> pre[i] == bits[i];
      SetOnlyNone(pre);
    }
    assert SetOnly(post) == [] by {
      assert forall i :: 0 <= i < |post| ==> post[i] == bits[k + 1 + i];
      SetOnlyNone(post);
    }
    assert bits == pre + [x] + post;
    SetOnlyLone(pre, x, post);
  }

  /** A set flag between two runs of clear flags is the only one kept. */
  lemma SetOnlyLone(pre: seq<EmvBit>, x: EmvBit, post: seq<EmvBit>)
    requires SetOnly(pre) == [] && SetOnly(post) == [] && x.isSet
    ensures SetOnly(pre + [x] + post) == [x]
  {
    SetOnlySnoc(pre, x);
    SetOnlyConcat(pre + [x], post);
  }

  /** A field with exactly one set flag is labelled with that flag alone. */
  lemma LabelOfOnlySet(bits: seq<EmvBit>, k: nat)
    requires k < |bits| && bits[k].isSet
    requires forall i :: 0 <= i < |bits| && i != k ==> !bits[i].isSet
    ensures Join(Labels(SetOnly(bits))) == ShortLabel(bits[k])
  {
    SetOnlyOfOnlySet(bits, k);
    assert Labels([bits[k]]) == [ShortLabel(bits[k])];
  }

  lemma {:induction false} SetOnlyConcat(a: seq<EmvBit>, b: seq<EmvBit>)
    ensures SetOnly(a + b) == SetOnly(a) + SetOnly(b)
    decreases |a|
  {
    if a == [] {
      assert a + b == b;
    } else {
      assert (a + b)[0] == a[0] && (a + b)[1..] == a[1..] + b;
      SetOnlyConcat(a[1..], b);
    }
  }

  lemma ShortLabelExample()
    ensures ShortLabel(EmvBit(1, 8, true)) == "Byte 1 Bit 8"
  {
    assert IntToString(1) == "1" && IntToString(8) == "8";
  }

  lemma LabelForExample()
    ensures LabelForSpec("80") == Ok("Byte 1 Bit 8")
  {
    FromHexExample();
    var bits := FromHexSpec("80", 1).value;
    assert forall i :: 1 <= i < |bits| ==> !bits[i].isSet;
    LabelOfOnlySet(bits, 0);
    ShortLabelExample();
  }
}
