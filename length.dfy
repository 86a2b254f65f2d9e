/** The BER length octets of section 8.1.3 of ITU-T X.690, as `getLength`
    writes them and `parseLength` reads them: the short form, a single octet
    0..127, and the long form, a lead octet `0x80 | k` followed by `k` octets
    holding the length big-endian. Lengths are unbounded naturals here. */
module Length {
  import opened Wrappers
  import opened Bytes
  import opened Cursor

  /** The fewest octets that hold `n`: the smallest `k >= 1` with
      `n < 256^k`. */
  function ByteCount(n: nat): (k: nat)
    ensures k >= 1
  {
    if n < 256 then 1 else 1 + ByteCount(n / 256)
  }

  lemma {:induction false} ByteCountBounds(n: nat)
    requires n >= 1
    ensures Pow256(ByteCount(n) - 1) <= n < Pow256(ByteCount(n))
  {
    if n >= 256 {
      ByteCountBounds(n / 256);
    }
  }

  /** `ByteCount` is the only count between those bounds. */
  lemma {:induction false} ByteCountMinimal(n: nat, k: nat)
    requires k >= 1 && Pow256(k - 1) <= n < Pow256(k)
    ensures k == ByteCount(n)
  {
    if k > 1 {
      assert Pow256(k - 1) == 256 * Pow256(k - 2);
      ByteCountMinimal(n / 256, k - 1);
    }
  }

  /** `n` written big-endian in exactly `k` octets (higher octets dropped). */
  function BigEndian(n: nat, k: nat): (r: seq<byte>)
    ensures |r| == k
  {
    if k == 0 then [] else BigEndian(n / 256, k - 1) + [n % 256]
  }

  /** The number that octets denote read big-endian. */
  function BigEndianValue(bs: seq<byte>): nat
  {
    if bs == [] then 0 else BigEndianValue(bs[..|bs| - 1]) * 256 + bs[|bs| - 1]
  }

  lemma {:induction false} BigEndianRoundTrip(n: nat, k: nat)
    requires n < Pow256(k)
    ensures BigEndianValue(BigEndian(n, k)) == n
  {
    if k > 0 {
      var s := BigEndian(n, k);
      assert s[..k - 1] == BigEndian(n / 256, k - 1);
      BigEndianRoundTrip(n / 256, k - 1);
    }
  }

  /** The octet `getLength` stores `i` places from the end of the length is
      `(n shr (8 * (i - 1))) and 255`. */
  lemma {:induction false} BigEndianAt(n: nat, k: nat, i: nat)
    requires 1 <= i <= k
    ensures BigEndian(n, k)[k - i] == ShiftRightBytes(n, i - 1) % 256
  {
    if i > 1 {
      BigEndianAt(n / 256, k - 1, i - 1);
    }
  }

  /** The lead octet of the long form: the low eight bits of
      `0x80 or needed`. */
  function LeadByte(needed: nat): byte
  {
    0x80 + needed % 128
  }

  /** The length octets for a value of `n` octets. */
  function EncodeLength(n: nat): (r: seq<byte>)
  {
    if n <= 0x7F then [n]
    else [LeadByte(ByteCount(n))] + BigEndian(n, ByteCount(n))
  }

  /** The long form can only name up to 127 length octets. */
  predicate Encodable(n: nat)
  {
    ByteCount(n) < 128
  }

  /** `parseLength`: the length and the number of octets it occupied, or
      `None` where the buffer ends first. A lead octet of exactly 0x80 (the
      indefinite form) reads as length 0. */
  function DecodeLength(s: seq<byte>): (r: Option<(nat, nat)>)
    ensures r.Some? ==> 1 <= r.value.1 <= |s|
  {
    if |s| == 0 then None
    else if s[0] < 0x80 then Some((s[0], 1))
    else
      var k := s[0] - 0x80;
      if |s| - 1 < k then None else Some((BigEndianValue(s[1..1 + k]), 1 + k))
  }

  /** The short form is used exactly for values up to 127 octets. */
  lemma ShortForm(n: nat)
    ensures |EncodeLength(n)| == 1 <==> n <= 0x7F
    ensures n <= 0x7F ==> EncodeLength(n) == [n]
  {
  }

  /** Above 127 the lead octet names the count of length octets, that count
      is minimal, and the octets hold `n` big-endian. */
  lemma LongForm(n: nat)
    requires n > 0x7F
    ensures var r := EncodeLength(n); var k := |r| - 1;
      k >= 1 && r[0] == LeadByte(k) &&
      Pow256(k - 1) <= n < Pow256(k) &&
      BigEndianValue(r[1..]) == n
  {
    var k := ByteCount(n);
    ByteCountBounds(n);
    BigEndianRoundTrip(n, k);
    assert EncodeLength(n)[1..] == BigEndian(n, k);
  }

  /** Decoding what `getLength` wrote gives back the length and consumes
      exactly the length octets, whatever follows them. */
  lemma DecodeEncodeLength(n: nat, rest: seq<byte>)
    requires Encodable(n)
    ensures DecodeLength(EncodeLength(n) + rest) == Some((n, |EncodeLength(n)|))
  {
    var s := EncodeLength(n) + rest;
    if n > 0x7F {
      var k := ByteCount(n);
      ByteCountBounds(n);
      BigEndianRoundTrip(n, k);
      assert s[0] == 0x80 + k;
      assert s[1..1 + k] == BigEndian(n, k);
    }
  }

  /** `getLength`: searches for the number of octets needed, then fills the
      octets from the last one backwards. The search is unbounded; the
      32-bit search of the Kotlin code is `NeededBytesAsWritten`. */
  method GetLength(n: nat) returns (length: seq<byte>)
    ensures length == EncodeLength(n)
  {
    if n <= 0x7F {
      return [n];
    }
    var expected := 256;
    var needed := 1;
    while n >= expected
      invariant needed >= 1 && expected == Pow256(needed)
      invariant Pow256(needed - 1) <= n
      decreases n - expected
    {
      needed := needed + 1;
      expected := expected * 256;
    }
    ByteCountMinimal(n, needed);
    var a := new byte[needed + 1];
    a[0] := LeadByte(needed);
    var i := 1;
    while i <= needed
      invariant 1 <= i <= needed + 1
      invariant a[0] == LeadByte(needed)
      invariant forall p :: a.Length - i < p < a.Length ==> a[p] == ShiftRightBytes(n, a.Length - 1 - p) % 256
    {
      a[a.Length - i] := ShiftRightBytes(n, i - 1) % 256;
      i := i + 1;
    }
    length := a[..];
    ghost var digits := BigEndian(n, needed);
    forall p | 1 <= p <= needed
      ensures length[p] == digits[p - 1]
    {
      BigEndianAt(n, needed, needed + 1 - p);
    }
    assert length[1..] == digits;
    assert length == [LeadByte(needed)] + digits;
  }

  lemma BigEndianSnoc(bs: seq<byte>, b: byte)
    ensures BigEndianValue(bs + [b]) == BigEndianValue(bs) * 256 + b
  {
    assert (bs + [b])[..|bs|] == bs;
  }

  /** `parseLength`: reads the lead octet and, for the long form, adds each
      further octet and multiplies by 256 unless it was the last. */
  method ParseLength(buf: ByteCursor) returns (r: Option<nat>)
    requires buf.Valid()
    modifies buf
    ensures buf.Valid()
    ensures match DecodeLength(old(buf.Rest()))
      case None => r.None? && buf.position == |buf.data|
      case Some(d) => r == Some(d.0) && buf.position == old(buf.position) + d.1
  {
    ghost var start := buf.position;
    ghost var s := buf.Rest();
    var lengthByte := buf.Get();
    if lengthByte.None? {
      return None;
    }
    var dataLength: nat := 0;
    if lengthByte.value >= 0x80 {
      var numberOfBytesToEncodeLength := lengthByte.value - 0x80;
      ghost var k := numberOfBytesToEncodeLength;
      ghost var read: seq<byte> := [];
      while numberOfBytesToEncodeLength > 0
        invariant buf.Valid()
        invariant 0 <= numberOfBytesToEncodeLength <= k
        invariant buf.position == start + 1 + k - numberOfBytesToEncodeLength
        invariant read == buf.data[start + 1..buf.position]
        invariant numberOfBytesToEncodeLength > 0 ==> dataLength == BigEndianValue(read) * 256
        invariant numberOfBytesToEncodeLength == 0 ==> dataLength == BigEndianValue(read)
      {
        var b := buf.Get();
        if b.None? {
          return None;
        }
        BigEndianSnoc(read, b.value);
        read := read + [b.value];
        dataLength := dataLength + b.value;
        if numberOfBytesToEncodeLength > 1 {
          dataLength := dataLength * 256;
        }
        numberOfBytesToEncodeLength := numberOfBytesToEncodeLength - 1;
      }
      assert buf.position == start + 1 + k && s == buf.data[start..];
      assert s[1..1 + k] == read;
    } else {
      dataLength := lengthByte.value;
    }
    return Some(dataLength);
  }

  /** Kotlin's 32-bit `Int` reading of an integer. */
  function Int32(x: int): (r: int)
    ensures -0x8000_0000 <= r < 0x8000_0000
  {
    (x + 0x8000_0000) % 0x1_0000_0000 - 0x8000_0000
  }

  /** The octet-count search of `getLength` as written, with `expected` a
      32-bit `Int` and the `expected == 0` guard: it reports overflow for
      every length from 2^24 on, although such lengths fit in four octets
      (see `FourOctetLength`). */
  method NeededBytesAsWritten(wanted: int) returns (needed: int, overflow: bool)
    requires 0x7F < wanted < 0x8000_0000
    ensures overflow <==> wanted >= 0x100_0000
    ensures !overflow ==> needed == ByteCount(wanted)
  {
    var expected := 256;
    needed := 1;
    while wanted >= expected
      invariant 1 <= needed <= 3
      invariant expected == Pow256(needed)
      invariant Pow256(needed - 1) <= wanted
      decreases 3 - needed
    {
      assert Pow256(2) == 0x1_0000 && Pow256(3) == 0x100_0000 && Pow256(4) == 0x1_0000_0000;
      needed := needed + 1;
      expected := Int32(expected * 256);
      if expected == 0 {
        return needed, true;
      }
    }
    assert Pow256(2) == 0x1_0000 && Pow256(3) == 0x100_0000;
    ByteCountMinimal(wanted, needed);
    return needed, false;
  }

  /** A value of 2^24 octets is a valid JVM array size whose length the
      corrected encoder writes in four octets and reads back. */
  lemma FourOctetLength()
    ensures 0x100_0000 < 0x8000_0000
    ensures EncodeLength(0x100_0000) == [0x84, 1, 0, 0, 0]
    ensures DecodeLength(EncodeLength(0x100_0000)) == Some((0x100_0000, 5))
  {
    assert ByteCount(0x100_0000) == 4;
    DecodeEncodeLength(0x100_0000, []);
    assert EncodeLength(0x100_0000) + [] == EncodeLength(0x100_0000);
  }
}
