/** What the BER-TLV codec promises: the parser reads back what `toBinary`
    writes, skips padding, clamps short values, and recurses or falls back
    into primitive nodes. */
module BerTlvProperties {
  import opened Wrappers
  import opened Bytes
  import opened Tags
  import opened Length
  import opened BerTlvs

  /** Nodes that serialise and parse back to themselves: well-formed,
      non-padding tags; lengths the long form can name; constructed nodes
      only where the parser recurses (constructed tag, recursion on); and a
      primitive node under a constructed tag only where its value does not
      parse as a list, since otherwise the parser would build children. */
  predicate WellFormed(t: BerTlv, recurse: bool)
    decreases t
  {
    WellFormedTag(t.tag) && !IsPadding(t.tag) && Encodable(|Value(t)|) &&
    match t
    case Primitive(tag, v) => recurse && IsConstructed(tag) ==> ParseTlvs(v, true).Err?
    case Constructed(tag, cs) =>
      recurse && IsConstructed(tag) && forall i :: 0 <= i < |cs| ==> WellFormed(cs[i], recurse)
  }

  /** One TLV read off the front of a buffer whose declared length is at
      least the octets that follow: the value is clamped to those octets,
      and the node is constructed exactly when the tag is constructed,
      recursion is on and the value parses as a list; otherwise it is
      primitive with the raw value, and no error is raised. */
  lemma SingleTlv(tag: Tag, declared: nat, value: seq<byte>, recurse: bool)
    requires WellFormedTag(tag) && !IsPadding(tag) && Encodable(declared)
    requires |value| <= declared
    ensures ParseTlvs(tag.bytes + EncodeLength(declared) + value, recurse) ==
      Ok([if recurse && IsConstructed(tag) && ParseTlvs(value, true).Ok?
          then Constructed(tag, ParseTlvs(value, true).value)
          else Primitive(tag, value)])
  {
    var tail := EncodeLength(declared) + value;
    var s := tag.bytes + tail;
    assert s == tag.bytes + EncodeLength(declared) + value;
    var n := |tag.bytes|;
    TagSpanOfWellFormed(tag, tail);
    assert s[..n] == tag.bytes && s[n..] == tail;
    DecodeEncodeLength(declared, value);
    var m := |EncodeLength(declared)|;
    assert s[n + m..] == value;
    ParseStep(s, n, (declared, m), recurse);
    assert value[..Min(declared, |value|)] == value && value[|value|..] == [];
    var node := MakeNode(tag, value, recurse);
    assert ParseTlvs(s, recurse) == Prepend([node], ParseTlvs([], recurse));
    assert [node] + [] == [node];
  }

  /** Where the tag, the length octets and the value lie in a serialised
      TLV followed by more octets. */
  lemma HeadLayout(tag: Tag, value: seq<byte>, rest: seq<byte>)
    requires WellFormedTag(tag) && Encodable(|value|)
    ensures var s := tag.bytes + EncodeLength(|value|) + value + rest;
      var n := |tag.bytes|;
      var m := |EncodeLength(|value|)|;
      TagSpan(s) == Some(n) && s[..n] == tag.bytes &&
      DecodeLength(s[n..]) == Some((|value|, m)) && s[n + m..] == value + rest
  {
    var tail := EncodeLength(|value|) + (value + rest);
    var s := tag.bytes + tail;
    assert s == tag.bytes + EncodeLength(|value|) + value + rest;
    TagSpanOfWellFormed(tag, tail);
    assert s[..|tag.bytes|] == tag.bytes && s[|tag.bytes|..] == tail;
    DecodeEncodeLength(|value|, value + rest);
    assert tail[|EncodeLength(|value|)|..] == value + rest;
  }

  /** One TLV with its exact length, followed by more octets. */
  lemma ParseHead(tag: Tag, value: seq<byte>, rest: seq<byte>, recurse: bool)
    requires WellFormedTag(tag) && !IsPadding(tag) && Encodable(|value|)
    ensures ParseTlvs(tag.bytes + EncodeLength(|value|) + value + rest, recurse)
            == Prepend([MakeNode(tag, value, recurse)], ParseTlvs(rest, recurse))
  {
    HeadLayout(tag, value, rest);
    ParseStepAt(tag.bytes + EncodeLength(|value|) + value + rest, tag, |EncodeLength(|value|)|,
      value, rest, recurse);
  }

  /** Parsing the serialisation of a well-formed node yields that node,
      followed by whatever the rest of the buffer parses to. */
  lemma {:induction false} ParseEncoding(t: BerTlv, rest: seq<byte>, recurse: bool)
    requires WellFormed(t, recurse)
    ensures ParseTlvs(Encoding(t) + rest, recurse) == Prepend([t], ParseTlvs(rest, recurse))
    decreases t, 0
  {
    var v := Value(t);
    assert Encoding(t) + rest == t.tag.bytes + EncodeLength(|v|) + v + rest;
    ParseHead(t.tag, v, rest, recurse);
    match t
    case Primitive(_, _) =>
    case Constructed(_, cs) =>
      ParseEncodingList(cs, 0, recurse);
      assert cs[0..] == cs;
  }

  /** A list of well-formed nodes parses back from its serialisation,
      from any index on. */
  lemma {:induction false} ParseEncodingList(ts: seq<BerTlv>, k: nat, recurse: bool)
    requires k <= |ts|
    requires forall i :: 0 <= i < |ts| ==> WellFormed(ts[i], recurse)
    ensures ParseTlvs(EncodingList(ts[k..]), recurse) == Ok(ts[k..])
    decreases ts, |ts| - k
  {
    if k < |ts| {
      var tail := EncodingList(ts[k + 1..]);
      assert ts[k..][0] == ts[k] && ts[k..][1..] == ts[k + 1..];
      assert EncodingList(ts[k..]) == Encoding(ts[k]) + tail;
      ParseEncoding(ts[k], tail, recurse);
      ParseEncodingList(ts, k + 1, recurse);
      assert [ts[k]] + ts[k + 1..] == ts[k..];
    } else {
      assert ts[k..] == [];
    }
  }

  /** `getValue()` of a well-formed constructed node parses back to its
      `getChildren()`. */
  lemma ConstructedValue(t: BerTlv)
    requires WellFormed(t, true) && t.Constructed?
    ensures ParseTlvs(Value(t), true) == Ok(Children(t))
  {
    ParseEncodingList(t.children, 0, true);
    assert t.children[0..] == t.children;
  }

  /** `parse(t.toBinary()) == t` for a well-formed tree. */
  lemma ParseRoundTrip(t: BerTlv)
    requires WellFormed(t, true)
    ensures ParseTlvs(Encoding(t), true) == Ok([t])
    ensures FirstTlv(ParseTlvs(Encoding(t), true)) == Ok(t)
  {
    ParseEncoding(t, [], true);
    assert Encoding(t) + [] == Encoding(t);
    assert [t] + [] == [t];
  }

  /** `parseAsPrimitiveTag(t.toBinary()) == t` for every primitive node with
      a well-formed tag, whether or not that tag is constructed. */
  lemma PrimitiveRoundTrip(tag: Tag, value: seq<byte>)
    requires WellFormedTag(tag) && !IsPadding(tag) && Encodable(|value|)
    ensures FirstTlv(ParseTlvs(Encoding(Primitive(tag, value)), false)) == Ok(Primitive(tag, value))
  {
    SingleTlv(tag, |value|, value, false);
  }

  /** Octets that are all 0x00 are all padding: no node is emitted. */
  lemma {:induction false} PaddingOnly(s: seq<byte>, recurse: bool)
    requires forall i :: 0 <= i < |s| ==> s[i] == 0
    ensures ParseTlvs(s, recurse) == Ok([])
    decreases |s|
  {
    if |s| > 0 {
      assert TagSpan(s) == Some(1) && s[..1] == [0];
      PaddingOnly(s[1..], recurse);
    }
  }

  /** `parse` of octets that are all padding finds no first node: the
      `get(0)` on the empty list fails. */
  lemma ParseOfPaddingOnly(s: seq<byte>, recurse: bool)
    requires forall i :: 0 <= i < |s| ==> s[i] == 0
    ensures FirstTlv(ParseTlvs(s, recurse)) == Err(NoTlvs)
  {
    PaddingOnly(s, recurse);
  }

  /** Padding between objects is skipped wherever it occurs. */
  lemma PaddingSkipped(s: seq<byte>, recurse: bool)
    ensures ParseTlvs([0] + s, recurse) == ParseTlvs(s, recurse)
  {
    assert TagSpan([0] + s) == Some(1);
    assert ([0] + s)[..1] == [0] && ([0] + s)[1..] == s;
  }

  /** With recursion off, every node is primitive. */
  lemma {:induction false} NoRecursionAllPrimitive(s: seq<byte>)
    requires ParseTlvs(s, false).Ok?
    ensures forall i :: 0 <= i < |ParseTlvs(s, false).value| ==> ParseTlvs(s, false).value[i].Primitive?
    decreases |s|
  {
    if |s| > 0 {
      var n := TagSpan(s).value;
      if IsPadding(Tag(s[..n])) {
        PaddingStep(s, n, false);
        NoRecursionAllPrimitive(s[n..]);
      } else {
        var d := DecodeLength(s[n..]).value;
        ParseStep(s, n, d, false);
        var rest := s[n + d.1..];
        var value := rest[..Min(d.0, |rest|)];
        var more := ParseTlvs(rest[|value|..], false);
        assert more.Ok?;
        NoRecursionAllPrimitive(rest[|value|..]);
        var node := MakeNode(Tag(s[..n]), value, false);
        assert node.Primitive?;
        assert ParseTlvs(s, false).value == [node] + more.value;
      }
    }
  }

  /** A tag with nothing after it: the missing length is a wrapped failure
      naming that tag. */
  lemma MissingLength(tag: Tag)
    requires WellFormedTag(tag) && !IsPadding(tag)
    ensures ParseTlvs(tag.bytes, true) == Err(FailedParsing(tag))
  {
    TagSpanOfWellFormed(tag, []);
    assert tag.bytes + [] == tag.bytes;
    assert tag.bytes[..|tag.bytes|] == tag.bytes;
  }

  /** A tag whose continuation octets run off the end escapes unwrapped. */
  lemma TruncatedTagFails(s: seq<byte>, recurse: bool)
    requires |s| > 0 && s[0] % 32 == 31
    requires forall i :: 1 <= i < |s| ==> s[i] >= 128
    ensures ParseTlvs(s, recurse) == Err(TruncatedTag)
  {
    TruncatedContinuation(s, 1);
  }

  lemma {:induction false} TruncatedContinuation(s: seq<byte>, i: nat)
    requires 1 <= i && forall j :: i <= j < |s| ==> s[j] >= 128
    ensures ContinuationSpan(s, i) == None
    decreases |s| - i
  {
    if i < |s| {
      TruncatedContinuation(s, i + 1);
    }
  }
}
