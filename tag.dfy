/** BER-TLV tags. `Tag.kt` is not part of this model: a tag is an opaque,
    non-empty octet string, compared octet by octet, and it is read from the
    buffer by the identifier-octet rules of section 8.1.2 of ITU-T X.690
    (ISO/IEC 8825-1). */
module Tags {
  import opened Wrappers
  import opened Bytes
  import opened Cursor

  type TagBytes = s: seq<byte> | |s| > 0 witness [0]

  datatype Tag = Tag(bytes: TagBytes)

  /** Bit 6 (0x20) of the first identifier octet marks a constructed tag. */
  predicate IsConstructed(tag: Tag)
  {
    (tag.bytes[0] / 0x20) % 2 == 1
  }

  /** `isConstructed()` tests bit 5 (counting the least significant as 0)
      of the first identifier octet. */
  lemma ConstructedBit(tag: Tag)
    ensures IsConstructed(tag) <==> Bit(tag.bytes[0], 5) == 1
  {
    var b := tag.bytes[0];
    assert Bit(b, 5) == Bit(b / 2 / 2 / 2 / 2 / 2, 0);
    assert b / 2 / 2 / 2 / 2 / 2 == b / 0x20;
  }

  /** How many octets the tag at the head of `s` occupies, or `None` when
      the buffer ends before the tag does. The first octet stands alone
      unless its low five bits are all set (`and 0x1F == 0x1F`); then
      subsequent octets follow for as long as their high bit is set. */
  function TagSpan(s: seq<byte>): (r: Option<nat>)
    ensures r.Some? ==> 1 <= r.value <= |s|
  {
    if |s| == 0 then None
    else if s[0] % 32 != 31 then Some(1)
    else ContinuationSpan(s, 1)
  }

  function ContinuationSpan(s: seq<byte>, i: nat): (r: Option<nat>)
    requires i >= 1
    ensures r.Some? ==> i < r.value <= |s|
    decreases |s| - i
  {
    if i >= |s| then None
    else if s[i] >= 128 then ContinuationSpan(s, i + 1)
    else Some(i + 1)
  }

  /** The encodings `TagSpan` reads back whole: a single octet whose low
      five bits are not all set, or a first octet with all five set,
      followed by octets with the high bit set and a last one without. */
  predicate WellFormedTag(tag: Tag)
  {
    var b := tag.bytes;
    if b[0] % 32 != 31 then |b| == 1
    else |b| >= 2 && b[|b| - 1] < 128 && forall i :: 1 <= i < |b| - 1 ==> b[i] >= 128
  }

  lemma {:induction false} ContinuationOfWellFormed(b: seq<byte>, rest: seq<byte>, i: nat)
    requires 1 <= i < |b| && b[|b| - 1] < 128
    requires forall j :: 1 <= j < |b| - 1 ==> b[j] >= 128
    ensures ContinuationSpan(b + rest, i) == Some(|b|)
    decreases |b| - i
  {
    if i < |b| - 1 {
      ContinuationOfWellFormed(b, rest, i + 1);
    }
  }

  /** A well-formed tag is read back exactly, whatever follows it. */
  lemma TagSpanOfWellFormed(tag: Tag, rest: seq<byte>)
    requires WellFormedTag(tag)
    ensures TagSpan(tag.bytes + rest) == Some(|tag.bytes|)
  {
    var b := tag.bytes;
    assert (b + rest)[0] == b[0];
    if b[0] % 32 == 31 {
      ContinuationOfWellFormed(b, rest, 1);
    }
  }

  /** Every tag the reader returns is well formed. */
  lemma {:induction false} TagSpanWellFormed(s: seq<byte>)
    requires TagSpan(s).Some?
    ensures WellFormedTag(Tag(s[..TagSpan(s).value]))
  {
    if s[0] % 32 == 31 {
      ContinuationSpanShape(s, 1);
    }
  }

  lemma {:induction false} ContinuationSpanShape(s: seq<byte>, i: nat)
    requires i >= 1 && ContinuationSpan(s, i).Some?
    requires forall j :: 1 <= j < i ==> s[j] >= 128
    ensures var n := ContinuationSpan(s, i).value;
      s[n - 1] < 128 && forall j :: 1 <= j < n - 1 ==> s[j] >= 128
    decreases |s| - i
  {
    if s[i] >= 128 {
      ContinuationSpanShape(s, i + 1);
    }
  }

  /** `Tag.parse(buffer)`: reads one tag, or `None` where the buffer runs
      out first (the `BufferUnderflowException` of `get()`). */
  method ReadTag(buf: ByteCursor) returns (r: Option<Tag>)
    requires buf.Valid()
    modifies buf
    ensures buf.Valid()
    ensures match TagSpan(old(buf.Rest()))
      case None => r.None? && buf.position == |buf.data|
      case Some(n) => r == Some(Tag(old(buf.Rest())[..n])) && buf.position == old(buf.position) + n
  {
    ghost var s := buf.Rest();
    var first := buf.Get();
    if first.None? {
      return None;
    }
    var bytes := [first.value];
    assert bytes == s[..1];
    if first.value % 32 == 31 {
      var more := true;
      while more
        invariant buf.Valid() && 1 <= |bytes| <= |s|
        invariant buf.position == old(buf.position) + |bytes|
        invariant bytes == s[..|bytes|]
        invariant more ==> TagSpan(s) == ContinuationSpan(s, |bytes|)
        invariant !more ==> TagSpan(s) == Some(|bytes|)
        decreases buf.Remaining(), more
      {
        var b := buf.Get();
        if b.None? {
          return None;
        }
        bytes := bytes + [b.value];
        more := b.value >= 128;
      }
    }
    r := Some(Tag(bytes));
  }
}
