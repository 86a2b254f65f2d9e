/** BER-TLV objects: the tree, its serialisation (`toBinary`), the factories,
    first-match lookup and the lenient recursive parser. */
module BerTlvs {
  import opened Wrappers
  import opened Bytes
  import opened Hex
  import opened Cursor
  import opened Tags
  import opened Length

  /** A node is primitive (raw value octets) or constructed (an ordered list
      of children), as `PrimitiveBerTlv` and `ConstructedBerTlv`. */
  datatype BerTlv =
    | Primitive(tag: Tag, value: seq<byte>)
    | Constructed(tag: Tag, children: seq<BerTlv>)

  /** The failures the parser and the factories raise. `TruncatedTag` is the
      buffer underflow of `Tag.parse`, which escapes unwrapped;
      `FailedParsing` is the wrapped failure naming the tag whose length
      could not be read; `NoTlvs` is `tlvs.get(0)` on an empty list. */
  datatype ParseError =
    | TruncatedTag
    | FailedParsing(tag: Tag)
    | NoTlvs
    | ValueOutOfRange
    | BadHex

  /** `getValue()`: the raw octets, or the children's serialisations
      concatenated in stored order. */
  function Value(t: BerTlv): seq<byte>
    decreases t, 0
  {
    match t
    case Primitive(_, v) => v
    case Constructed(_, cs) => EncodingList(cs)
  }

  /** `getChildren()`. */
  function Children(t: BerTlv): seq<BerTlv>
  {
    match t
    case Primitive(_, _) => []
    case Constructed(_, cs) => cs
  }

  /** The serialised form of a node: tag, length octets, value. */
  function Encoding(t: BerTlv): seq<byte>
    decreases t, 1
  {
    t.tag.bytes + EncodeLength(|Value(t)|) + Value(t)
  }

  function EncodingList(ts: seq<BerTlv>): seq<byte>
    decreases ts, 2
  {
    if ts == [] then [] else Encoding(ts[0]) + EncodingList(ts[1..])
  }

  /** Copies `src` into `b` from `offset` on: one `ByteBuffer.put`. */
  method Put(b: array<byte>, offset: nat, src: seq<byte>)
    requires offset + |src| <= b.Length
    modifies b
    ensures b[..] == old(b[..offset]) + src + old(b[offset + |src|..])
  {
    for i := 0 to |src|
      invariant b[..offset] == old(b[..offset])
      invariant b[offset..offset + i] == src[..i]
      invariant b[offset + |src|..] == old(b[offset + |src|..])
      invariant forall k :: offset + i <= k < b.Length ==> b[k] == old(b[k])
    {
      b[offset + i] := src[i];
      assert b[offset..offset + i + 1] == b[offset..offset + i] + [src[i]];
      assert src[..i + 1] == src[..i] + [src[i]];
    }
    assert b[offset..offset + |src|] == src;
    assert b[..] == b[..offset] + b[offset..offset + |src|] + b[offset + |src|..];
  }

  /** `toBinary()`: allocates tag + length + value octets and puts the three
      parts in order. */
  method ToBinary(t: BerTlv) returns (out: seq<byte>)
    ensures out == t.tag.bytes + EncodeLength(|Value(t)|) + Value(t)
    ensures |out| == |t.tag.bytes| + |EncodeLength(|Value(t)|)| + |Value(t)|
  {
    var value := Value(t);
    var encodedTag := t.tag.bytes;
    var encodedLength := GetLength(|value|);
    var b := new byte[|encodedTag| + |encodedLength| + |value|];
    Put(b, 0, encodedTag);
    Put(b, |encodedTag|, encodedLength);
    Put(b, |encodedTag| + |encodedLength|, value);
    out := b[..];
  }

  /** `newInstance(tag, value: ByteArray)`. */
  function NewPrimitive(tag: Tag, value: seq<byte>): (t: BerTlv)
    ensures t.tag == tag && Value(t) == value && Children(t) == []
  {
    Primitive(tag, value)
  }

  /** `newInstance(tag, hexString)`: fails where `hex2byte` does. */
  function NewFromHex(tag: Tag, hex: string): (r: Result<BerTlv, ParseError>)
    ensures r.Ok? <==> |hex| % 2 == 0 && IsHexString(hex)
    ensures r.Ok? ==> r.value.tag == tag && Children(r.value) == [] &&
                      |Value(r.value)| == |hex| / 2 &&
                      HexString(Value(r.value)) == UpperCase(hex)
  {
    match Hex2Byte(hex)
    case None => Err(BadHex)
    case Some(bytes) =>
      HexStringOfHex2Byte(hex);
      Ok(Primitive(tag, bytes))
  }

  /** `newInstance(tag, value: Int)`: refuses values above 255; below that
      `toByte()` keeps the low eight bits, so a negative `Int` is stored in
      two's complement. */
  function NewFromInt(tag: Tag, value: int): (r: Result<BerTlv, ParseError>)
    requires -0x8000_0000 <= value < 0x8000_0000
    ensures r.Err? <==> value > 255
    ensures r.Err? ==> r.error == ValueOutOfRange
    ensures r.Ok? ==> r.value.Primitive? && r.value.tag == tag && |Value(r.value)| == 1 &&
                      (value - Value(r.value)[0]) % 256 == 0
    ensures 0 <= value <= 255 ==> r == Ok(Primitive(tag, [value]))
  {
    if value > 255 then Err(ValueOutOfRange) else Ok(Primitive(tag, [value % 256]))
  }

  /** `newInstance(tag, value: List<BerTlv>)`. */
  function NewConstructed(tag: Tag, children: seq<BerTlv>): (t: BerTlv)
    ensures t.tag == tag && Children(t) == children && Value(t) == EncodingList(children)
  {
    Constructed(tag, children)
  }

  /** `newInstance(tag, tlv1, tlv2)`. */
  function NewPair(tag: Tag, tlv1: BerTlv, tlv2: BerTlv): (t: BerTlv)
    ensures t.tag == tag && Children(t) == [tlv1, tlv2]
    ensures Value(t) == Encoding(tlv1) + Encoding(tlv2)
  {
    assert [tlv1, tlv2][1..] == [tlv2] && [tlv2][1..] == [];
    assert EncodingList([tlv2]) == Encoding(tlv2);
    Constructed(tag, [tlv1, tlv2])
  }

  /** `isPaddingByte`: the one-octet tag 0x00 (EMV Specification Update
      Bulletin No. 69, padding of constructed data objects). */
  predicate IsPadding(tag: Tag)
  {
    tag.bytes == [0]
  }

  /** A padding tag is the lone octet 0x00, which the tag reader takes as a
      complete primitive tag of its own. */
  lemma PaddingTag(tag: Tag)
    ensures IsPadding(tag) <==> |tag.bytes| == 1 && tag.bytes[0] == 0
    ensures IsPadding(tag) ==> WellFormedTag(tag) && !IsConstructed(tag)
  {
  }

  function Prepend(pre: seq<BerTlv>, r: Result<seq<BerTlv>, ParseError>): Result<seq<BerTlv>, ParseError>
  {
    match r
    case Ok(ts) => Ok(pre + ts)
    case Err(e) => Err(e)
  }

  lemma PrependNothing(r: Result<seq<BerTlv>, ParseError>)
    ensures Prepend([], r) == r
  {
    if r.Ok? {
      assert [] + r.value == r.value;
    }
  }

  lemma PrependTwice(a: seq<BerTlv>, b: seq<BerTlv>, r: Result<seq<BerTlv>, ParseError>)
    ensures Prepend(a, Prepend(b, r)) == Prepend(a + b, r)
  {
    if r.Ok? {
      assert a + (b + r.value) == (a + b) + r.value;
    }
  }

  /** What `parseList` returns for the octets `s`: tags are read one after
      another; a padding tag emits nothing; a declared length running past
      the end is clamped to what remains; a failure to read the length is
      wrapped with the tag. */
  function ParseTlvs(s: seq<byte>, recurse: bool): Result<seq<BerTlv>, ParseError>
    decreases |s|, 0
  {
    if |s| == 0 then Ok([])
    else
      match TagSpan(s)
      case None => Err(TruncatedTag)
      case Some(n) =>
        var tag := Tag(s[..n]);
        if IsPadding(tag) then ParseTlvs(s[n..], recurse)
        else
          match DecodeLength(s[n..])
          case None => Err(FailedParsing(tag))
          case Some(d) =>
            var rest := s[n + d.1..];
            var value := rest[..Min(d.0, |rest|)];
            Prepend([MakeNode(tag, value, recurse)], ParseTlvs(rest[|value|..], recurse))
  }

  /** The node built for one tag and its value: a constructed tag, when
      recursion is on, is parsed again as a list; if that fails the node
      falls back to a primitive one holding the raw octets. */
  function MakeNode(tag: Tag, value: seq<byte>, recurse: bool): BerTlv
    decreases |value|, 1
  {
    if IsConstructed(tag) && recurse then
      match ParseTlvs(value, true)
      case Ok(children) => Constructed(tag, children)
      case Err(_) => Primitive(tag, value)
    else Primitive(tag, value)
  }

  /** One round of the parser's loop for a non-padding tag. */
  lemma ParseStep(s: seq<byte>, n: nat, d: (nat, nat), recurse: bool)
    requires |s| > 0 && TagSpan(s) == Some(n) && !IsPadding(Tag(s[..n]))
    requires DecodeLength(s[n..]) == Some(d)
    ensures n + d.1 <= |s|
    ensures var rest := s[n + d.1..]; var value := rest[..Min(d.0, |rest|)];
      ParseTlvs(s, recurse)
      == Prepend([MakeNode(Tag(s[..n]), value, recurse)], ParseTlvs(rest[|value|..], recurse))
  {
  }

  /** The same round, with its parts named: the tag octets, `lenLen`
      length octets declaring exactly `|value|`, the value and what follows. */
  lemma ParseStepAt(s: seq<byte>, tag: Tag, lenLen: nat, value: seq<byte>, rest: seq<byte>, recurse: bool)
    requires TagSpan(s) == Some(|tag.bytes|) && s[..|tag.bytes|] == tag.bytes && !IsPadding(tag)
    requires DecodeLength(s[|tag.bytes|..]) == Some((|value|, lenLen))
    requires s[|tag.bytes| + lenLen..] == value + rest
    ensures ParseTlvs(s, recurse) == Prepend([MakeNode(tag, value, recurse)], ParseTlvs(rest, recurse))
  {
    var n := |tag.bytes|;
    var after := s[n + lenLen..];
    assert Min(|value|, |after|) == |value|;
    assert after[..|value|] == value && after[|value|..] == rest;
    assert Tag(s[..n]) == tag;
    ParseStep(s, n, (|value|, lenLen), recurse);
  }

  /** A tag that runs off the end stops the parser, unwrapped. */
  lemma TruncatedStep(s: seq<byte>, recurse: bool)
    requires |s| > 0 && TagSpan(s) == None
    ensures ParseTlvs(s, recurse) == Err(TruncatedTag)
  {
  }

  /** A length that cannot be read is a failure naming the tag. */
  lemma MissingLengthStep(s: seq<byte>, n: nat, recurse: bool)
    requires |s| > 0 && TagSpan(s) == Some(n) && !IsPadding(Tag(s[..n]))
    requires DecodeLength(s[n..]) == None
    ensures ParseTlvs(s, recurse) == Err(FailedParsing(Tag(s[..n])))
  {
  }

  /** A round of the parser's loop for a padding tag. */
  lemma PaddingStep(s: seq<byte>, n: nat, recurse: bool)
    requires |s| > 0 && TagSpan(s) == Some(n) && IsPadding(Tag(s[..n]))
    ensures ParseTlvs(s, recurse) == ParseTlvs(s[n..], recurse)
  {
  }

  /** `readUpToLength`: takes `length` octets, or all that remain if fewer. */
  method ReadUpToLength(buf: ByteCursor, length: nat) returns (value: seq<byte>)
    requires buf.Valid()
    modifies buf
    ensures buf.Valid()
    ensures value == old(buf.Rest())[..Min(length, old(buf.Remaining()))]
    ensures buf.position == old(buf.position) + |value|
    ensures buf.Rest() == old(buf.Rest())[|value|..]
  {
    var size := if length > buf.Remaining() then buf.Remaining() else length;
    value := buf.GetBytes(size);
    assert buf.data[buf.position..] == old(buf.Rest())[size..];
  }

  /** The private `parseList(ByteBuffer, …)`: loops while octets remain,
      appending one node per non-padding tag. */
  method ParseFromBuffer(buf: ByteCursor, parseConstructedTags: bool)
    returns (r: Result<seq<BerTlv>, ParseError>)
    requires buf.Valid()
    modifies buf
    ensures r == ParseTlvs(old(buf.Rest()), parseConstructedTags)
    ensures buf.Valid() && old(buf.position) <= buf.position
    ensures r.Ok? ==> buf.position == |buf.data|
    decreases buf.Remaining(), 2
  {
    ghost var whole := buf.Rest();
    var tlvs: seq<BerTlv> := [];
    PrependNothing(ParseTlvs(whole, parseConstructedTags));
    while buf.Remaining() > 0
      invariant buf.Valid() && old(buf.position) <= buf.position
      invariant ParseTlvs(whole, parseConstructedTags)
                == Prepend(tlvs, ParseTlvs(buf.Rest(), parseConstructedTags))
      decreases buf.Remaining()
    {
      var found := ParseNext(buf, parseConstructedTags);
      if found.Err? {
        return Err(found.error);
      }
      PrependTwice(tlvs, found.value, ParseTlvs(buf.Rest(), parseConstructedTags));
      tlvs := tlvs + found.value;
    }
    assert buf.Rest() == [];
    assert tlvs + [] == tlvs;
    return Ok(tlvs);
  }

  /** One round of the loop in `parseList`: reads a tag and, unless it is
      padding, its length and value. The nodes found are none for padding
      and one otherwise; an error is the one the whole list fails with. */
  method ParseNext(buf: ByteCursor, parseConstructedTags: bool)
    returns (r: Result<seq<BerTlv>, ParseError>)
    requires buf.Valid() && buf.Remaining() > 0
    modifies buf
    ensures buf.Valid() && old(buf.position) <= buf.position
    ensures r.Err? ==> ParseTlvs(old(buf.Rest()), parseConstructedTags) == Err(r.error)
    ensures r.Ok? ==> old(buf.position) < buf.position && |r.value| <= 1
    ensures r.Ok? ==>
      ParseTlvs(old(buf.Rest()), parseConstructedTags)
      == Prepend(r.value, ParseTlvs(buf.Rest(), parseConstructedTags))
    decreases buf.Remaining(), 1
  {
    ghost var before := buf.Rest();
    var tag := ReadTag(buf);
    if tag.None? {
      TruncatedStep(before, parseConstructedTags);
      return Err(TruncatedTag);
    }
    ghost var n := |tag.value.bytes|;
    assert tag.value == Tag(before[..n]) && buf.Rest() == before[n..];
    if IsPadding(tag.value) {
      PaddingStep(before, n, parseConstructedTags);
      PrependNothing(ParseTlvs(buf.Rest(), parseConstructedTags));
      return Ok([]);
    }
    var length := ParseLength(buf);
    if length.None? {
      MissingLengthStep(before, n, parseConstructedTags);
      return Err(FailedParsing(tag.value));
    }
    ghost var d := DecodeLength(before[n..]).value;
    ParseStep(before, n, d, parseConstructedTags);
    ghost var rest := before[n + d.1..];
    assert buf.Rest() == rest;
    var value := ReadUpToLength(buf, length.value);
    assert value == rest[..Min(d.0, |rest|)] && buf.Rest() == rest[|value|..];
    var node := BuildNode(tag.value, value, parseConstructedTags);
    return Ok([node]);
  }

  /** The node the loop appends: a constructed tag is parsed again from a
      fresh buffer over its value, falling back to a primitive node if that
      fails. */
  method BuildNode(tag: Tag, value: seq<byte>, parseConstructedTags: bool) returns (node: BerTlv)
    ensures node == MakeNode(tag, value, parseConstructedTags)
    decreases |value|, 3
  {
    if IsConstructed(tag) && parseConstructedTags {
      var nested := new ByteCursor.Wrap(value);
      var children := ParseFromBuffer(nested, true);
      if children.Ok? {
        node := NewConstructed(tag, children.value);
      } else {
        node := NewPrimitive(tag, value);
      }
    } else {
      node := NewPrimitive(tag, value);
    }
  }

  /** The public `parseList(data, parseConstructedTags)`. */
  method ParseList(data: seq<byte>, parseConstructedTags: bool)
    returns (r: Result<seq<BerTlv>, ParseError>)
    ensures r == ParseTlvs(data, parseConstructedTags)
  {
    var buf := new ByteCursor.Wrap(data);
    r := ParseFromBuffer(buf, parseConstructedTags);
  }

  /** `tlvs.get(0)`, which fails on an empty list. */
  function FirstTlv(l: Result<seq<BerTlv>, ParseError>): (r: Result<BerTlv, ParseError>)
    ensures r.Ok? <==> l.Ok? && |l.value| > 0
    ensures r.Ok? ==> r.value == l.value[0]
    ensures l.Err? ==> r == Err(l.error)
    ensures l == Ok([]) ==> r == Err(NoTlvs)
  {
    match l
    case Err(e) => Err(e)
    case Ok(ts) => if ts == [] then Err(NoTlvs) else Ok(ts[0])
  }

  /** `parse(data)`: the first top-level node, recursing into constructed
      tags. */
  method Parse(data: seq<byte>) returns (r: Result<BerTlv, ParseError>)
    ensures r == FirstTlv(ParseTlvs(data, true))
  {
    var tlvs := ParseList(data, true);
    if tlvs.Err? {
      return Err(tlvs.error);
    }
    if |tlvs.value| == 0 {
      return Err(NoTlvs);
    }
    return Ok(tlvs.value[0]);
  }

  /** `parseAsPrimitiveTag(data)`: the first top-level node, never
      recursing. */
  method ParseAsPrimitiveTag(data: seq<byte>) returns (r: Result<BerTlv, ParseError>)
    ensures r == FirstTlv(ParseTlvs(data, false))
  {
    var tlvs := ParseList(data, false);
    if tlvs.Err? {
      return Err(tlvs.error);
    }
    if |tlvs.value| == 0 {
      return Err(NoTlvs);
    }
    return Ok(tlvs.value[0]);
  }

  /** `findTlv(tlvs, tag)`: the first node in list order whose tag equals
      `tag`, or `None`. */
  method FindTlv(tlvs: seq<BerTlv>, tag: Tag) returns (r: Option<BerTlv>)
    ensures r.None? <==> forall i :: 0 <= i < |tlvs| ==> tlvs[i].tag != tag
    ensures r.Some? ==> exists i :: 0 <= i < |tlvs| && tlvs[i] == r.value && tlvs[i].tag == tag &&
                                    forall j :: 0 <= j < i ==> tlvs[j].tag != tag
  {
    for i := 0 to |tlvs|
      invariant forall j :: 0 <= j < i ==> tlvs[j].tag != tag
    {
      if tlvs[i].tag == tag {
        return Some(tlvs[i]);
      }
    }
    return None;
  }
}
