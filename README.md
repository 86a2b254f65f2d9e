# emv-bertlv in Dafny

A verified model of the two codecs at the heart of emv-bertlv, a Kotlin
library for EMV / ISO 7816 card data.

* **BER-TLV** (`BerTlv.kt`): BER tag-length-value objects as in ITU-T X.690
  (ISO/IEC 8825-1), with identifier octets from section 8.1.2 and length
  octets from section 8.1.3. It covers:
  * the length encoder `getLength` and the decoder `parseLength`;
  * the serialiser `toBinary`;
  * the `newInstance` factories;
  * the lenient, recursive list parser `parseList` with its entry points
    `parse` and `parseAsPrimitiveTag`;
  * the first-match lookup `findTlv`.
* **EMV bit fields** (`EmvBit.kt`): the `EmvBit` record and its order, plus:
  * `fromHex`: hex to the full, sorted set of 8×N flags;
  * `toHex`: set flags ORed into a zeroed byte array;
  * `labelFor` and `toLabel`: labels.

The model follows the form of the Kotlin code:

* Loops become Dafny methods with loop invariants. Each method is proved
  equal to a specification function, and the properties are proved as
  lemmas about that function.
* The loops that became methods: the `ByteBuffer` cursor walk of `parseList`,
  the accumulation loop of `parseLength`, the search-and-fill loops of
  `getLength`, the `ByteBuffer` puts of `toBinary`, the early-return loop of
  `findTlv`, the nested `TreeSet` loops of `fromHex`, the in-place `ByteArray`
  update of `toHex` and the `StringBuilder` loop of `labelFor`.
* The factories and the `EmvBit` members are functions.

| file | module | contents |
|---|---|---|
| `wrappers.dfy` | `Wrappers` | `Option`, `Result` (nullable values and exceptions) |
| `bytes.dfy` | `Bytes` | octets as `0..255`, `shr`/`and 1` bit tests, `or (1 shl k)` |
| `hex.dfy` | `Hex` | `ISOUtil.hexString` / `hex2byte` defined by their contract |
| `cursor.dfy` | `Cursor` | class `ByteCursor`: the read side of `java.nio.ByteBuffer` |
| `tag.dfy` | `Tags` | tags as opaque octet strings; `Tag.parse` as `ReadTag` |
| `length.dfy` | `Length` | `getLength`, `parseLength`, and the 32-bit search as written |
| `bertlv.dfy` | `BerTlvs` | the tree, `toBinary`, factories, `parseList`, `findTlv` |
| `bertlv_properties.dfy` | `BerTlvProperties` | round trips, padding, recursion and fallback rules |
| `emvbit.dfy` | `EmvBits` | `EmvBit`, `compareTo`, `toLabel`, the `TreeSet` as a sorted sequence |
| `emvbit_codec.dfy` | `EmvBitCodec` | `fromHex`, `toHex`, `labelFor` and their properties |

Modelling choices:

* An octet is an integer in `0..255`. The Kotlin code mixes signed `Byte` and
  `Int`. Its high-bit test `(lengthByte and 0x80) == 0x80` becomes `>= 0x80`,
  and `and 0x7F` becomes `- 0x80`.
* Exceptions become `Result` values:
  * `BerTlvs.ParseError`:
    * `TruncatedTag`: the underflow of `Tag.parse`;
    * `FailedParsing(tag)`: the wrapped `RuntimeException` naming the tag;
    * `NoTlvs`: `get(0)` on an empty list;
    * `ValueOutOfRange`;
    * `BadHex`.
  * `EmvBitCodec.BitError`:
    * `NotHex`: an odd length or a bad pair;
    * `NegativeLength`: `ByteArray(n)` with `n < 0`;
    * `IndexOutOfRange`: a set flag whose byte index lies outside the array.
* A `TreeSet<EmvBit>` is a strictly increasing sequence with no duplicates,
  and `add` is `EmvBits.Insert`. The Kotlin field `set` is named `isSet`.

Behaviour kept as the code has it:

* A tag that runs off the end of the buffer raises `Tag.parse`'s underflow
  unwrapped, because that call is outside the `try`. A length or value
  failure is wrapped with the tag.
* Inside a nested parse, any failure, a truncated tag included, leads to the
  primitive fallback.
* There is no recursion-depth guard.
* The octet-count search of `getLength` multiplies the bound by 256 per
  step.
* `toHex` does not reject bit numbers outside `1..8`. The JVM takes the shift
  count modulo 32 and `toByte()` keeps the low eight bits. So shifts of 8 to
  31 leave the byte unchanged, and a bit number of 33 acts like 1.
* Byte numbers outside the field make the array access throw. That is
  modelled as `IndexOutOfRange`.

## Model

| member | source | states |
|---|---|---|
| Length.ShortForm | src/main/java/io/github/binaryfoo/tlv/BerTlv.kt:48-49 | the encoded length is one octet exactly when n ≤ 127, and that octet is n |
| Length.LongForm | src/main/java/io/github/binaryfoo/tlv/BerTlv.kt:51-66 | above 127: lead octet `0x80 or k`; k is minimal, 256^(k-1) ≤ n < 256^k; the k octets read big-endian give n |
| Length.ByteCountBounds | src/main/java/io/github/binaryfoo/tlv/BerTlv.kt:51-61 | the octet count found by the search brackets n between 256^(k-1) and 256^k |
| Length.ByteCountMinimal | src/main/java/io/github/binaryfoo/tlv/BerTlv.kt:51-61 | any count with those bounds is that count, so the search result is unique and minimal |
| Length.BigEndianRoundTrip | src/main/java/io/github/binaryfoo/tlv/BerTlv.kt:64-66 | k big-endian octets of n < 256^k read back as n |
| Length.BigEndianAt | src/main/java/io/github/binaryfoo/tlv/BerTlv.kt:64-66 | the octet stored i places from the end is `(n shr 8(i-1)) and 255` |
| Length.GetLength | src/main/java/io/github/binaryfoo/tlv/BerTlv.kt:43-70 | the search loop and the backwards fill produce exactly the short or minimal long form |
| Length.BigEndianSnoc | src/main/java/io/github/binaryfoo/tlv/BerTlv.kt:156-163 | one more length octet multiplies the value by 256 and adds the octet |
| Length.ParseLength | src/main/java/io/github/binaryfoo/tlv/BerTlv.kt:151-168 | add-then-multiply-unless-last equals the big-endian decode; the cursor advances by the octets consumed; a short buffer fails with the cursor at the end |
| Length.DecodeEncodeLength | src/main/java/io/github/binaryfoo/tlv/BerTlv.kt:151-168 | decoding `getLength(n) ++ rest` returns n and consumes exactly the length octets |
| Length.NeededBytesAsWritten | src/main/java/io/github/binaryfoo/tlv/BerTlv.kt:51-61 | with a 32-bit `expected`, the guard fires exactly for lengths ≥ 2^24; below that the count is the minimal one |
| Length.FourOctetLength | src/main/java/io/github/binaryfoo/tlv/BerTlv.kt:57-59 | a length of 2^24 is below the JVM array limit, encodes as `84 01 00 00 00` and decodes back |
| Tags.TagSpanOfWellFormed | src/main/java/io/github/binaryfoo/tlv/BerTlv.kt:115 | a well-formed tag is read back whole, whatever follows it |
| Tags.TagSpanWellFormed | src/main/java/io/github/binaryfoo/tlv/BerTlv.kt:115 | every tag the reader returns is well formed |
| Tags.ReadTag | src/main/java/io/github/binaryfoo/tlv/BerTlv.kt:115 | `Tag.parse` on the cursor returns the tag's octets and advances past them, or fails where the buffer ends first, with the cursor at the end |
| Tags.ConstructedBit | src/main/java/io/github/binaryfoo/tlv/BerTlv.kt:122 | `isConstructed()` is exactly bit 5 (0x20) of the first identifier octet |
| Cursor.ByteCursor.Wrap | src/main/java/io/github/binaryfoo/tlv/BerTlv.kt:98 | `ByteBuffer.wrap` starts at position 0 over the given octets |
| Cursor.ByteCursor.Get | src/main/java/io/github/binaryfoo/tlv/BerTlv.kt:152 | `get()` returns the next octet and advances by one, or underflows at the end |
| Cursor.ByteCursor.GetBytes | src/main/java/io/github/binaryfoo/tlv/BerTlv.kt:142 | `get(dst)` copies the next n octets and advances by n |
| BerTlvs.Put | src/main/java/io/github/binaryfoo/tlv/BerTlv.kt:16-18 | a `put` writes the source at the offset and leaves every other octet alone |
| BerTlvs.ToBinary | src/main/java/io/github/binaryfoo/tlv/BerTlv.kt:10-21 | the output is tag ++ length octets ++ value, and its size is the sum of the three |
| BerTlvs.NewPrimitive | src/main/java/io/github/binaryfoo/tlv/BerTlv.kt:74-76 | a primitive node with that tag and value and no children |
| BerTlvs.NewFromHex | src/main/java/io/github/binaryfoo/tlv/BerTlv.kt:78-80 | succeeds exactly for even-length hex; the value has half as many octets and renders back as the upper-cased text |
| BerTlvs.NewFromInt | src/main/java/io/github/binaryfoo/tlv/BerTlv.kt:82-87 | fails exactly above 255; otherwise a one-octet primitive congruent to the value mod 256, equal to it for 0..255 |
| BerTlvs.NewConstructed | src/main/java/io/github/binaryfoo/tlv/BerTlv.kt:89-91 | a constructed node whose children are the list and whose value is their encodings concatenated in order |
| BerTlvs.NewPair | src/main/java/io/github/binaryfoo/tlv/BerTlv.kt:93-95 | children are exactly the two nodes; the value is the first's encoding then the second's |
| BerTlvs.ParseStep | src/main/java/io/github/binaryfoo/tlv/BerTlv.kt:114-136 | one loop round for a non-padding tag: the node built from the clamped value, then the rest of the list |
| BerTlvs.ParseStepAt | src/main/java/io/github/binaryfoo/tlv/BerTlv.kt:114-136 | the same round when the declared length is the exact value length |
| BerTlvs.TruncatedStep | src/main/java/io/github/binaryfoo/tlv/BerTlv.kt:115 | a tag running off the end fails the parse unwrapped |
| BerTlvs.MissingLengthStep | src/main/java/io/github/binaryfoo/tlv/BerTlv.kt:119-134 | a length that cannot be read fails the parse with an error naming the tag |
| BerTlvs.PaddingStep | src/main/java/io/github/binaryfoo/tlv/BerTlv.kt:116-118 | a padding tag emits nothing and parsing continues after it |
| BerTlvs.ReadUpToLength | src/main/java/io/github/binaryfoo/tlv/BerTlv.kt:140-144 | returns the next min(length, remaining) octets and advances by exactly that many, never failing |
| BerTlvs.ParseFromBuffer | src/main/java/io/github/binaryfoo/tlv/BerTlv.kt:111-138 | the cursor loop returns exactly the specified list parse of the remaining octets, errors included; the cursor only moves forward, and a successful parse consumes the whole buffer |
| BerTlvs.ParseNext | src/main/java/io/github/binaryfoo/tlv/BerTlv.kt:115-134 | one loop round advances the cursor and yields no node for padding and one otherwise, which followed by the parse of the rest is the parse of the whole; an error is the whole parse's error |
| BerTlvs.PaddingTag | src/main/java/io/github/binaryfoo/tlv/BerTlv.kt:147-149 | `isPaddingByte` holds exactly for the one-octet tag 0x00, a well-formed primitive tag |
| BerTlvs.FirstTlv | src/main/java/io/github/binaryfoo/tlv/BerTlv.kt:99 | `tlvs.get(0)`: the first node exactly when the list parsed and is non-empty; a parse error passes through; an empty list fails with `NoTlvs` |
| BerTlvs.BuildNode | src/main/java/io/github/binaryfoo/tlv/BerTlv.kt:122-131 | the node the loop appends: constructed from a nested parse when allowed and successful, else primitive |
| BerTlvs.ParseList | src/main/java/io/github/binaryfoo/tlv/BerTlv.kt:107-109 | the public `parseList` is the list parse of the octets |
| BerTlvs.Parse | src/main/java/io/github/binaryfoo/tlv/BerTlv.kt:97-100 | the first top-level node with recursion on, or the parse error, or `NoTlvs` for an empty list |
| BerTlvs.ParseAsPrimitiveTag | src/main/java/io/github/binaryfoo/tlv/BerTlv.kt:102-105 | the first top-level node with recursion off, or the error |
| BerTlvs.FindTlv | src/main/java/io/github/binaryfoo/tlv/BerTlv.kt:170-177 | null exactly when no element has the tag; otherwise the earliest element with that tag |
| BerTlvProperties.SingleTlv | src/main/java/io/github/binaryfoo/tlv/BerTlv.kt:122-131 | one TLV (declared length ≥ what follows) gives one node: constructed iff the tag is constructed, recursion is on and the value parses; otherwise primitive with the clamped raw value, never an error |
| BerTlvProperties.ParseHead | src/main/java/io/github/binaryfoo/tlv/BerTlv.kt:111-138 | a serialised TLV followed by more octets parses to its node followed by the rest |
| BerTlvProperties.ParseEncoding | src/main/java/io/github/binaryfoo/tlv/BerTlv.kt:111-138 | the serialisation of a well-formed node, followed by anything, parses to that node followed by the rest |
| BerTlvProperties.ParseEncodingList | src/main/java/io/github/binaryfoo/tlv/BerTlv.kt:111-138 | a list of well-formed nodes parses back from its concatenated serialisations |
| BerTlvProperties.ParseRoundTrip | src/main/java/io/github/binaryfoo/tlv/BerTlv.kt:97-100 | `parse(t.toBinary()) == t` for every well-formed tree |
| BerTlvProperties.PrimitiveRoundTrip | src/main/java/io/github/binaryfoo/tlv/BerTlv.kt:102-105 | `parseAsPrimitiveTag(t.toBinary()) == t` for every primitive node with a well-formed tag |
| BerTlvProperties.PaddingOnly | src/main/java/io/github/binaryfoo/tlv/BerTlv.kt:147-149 | input of only 0x00 octets parses to the empty list |
| BerTlvProperties.ParseOfPaddingOnly | src/main/java/io/github/binaryfoo/tlv/BerTlv.kt:97-105 | `parse` and `parseAsPrimitiveTag` of all-padding input fail with `NoTlvs`: there is no first node |
| BerTlvProperties.ConstructedValue | src/main/java/io/github/binaryfoo/tlv/BerTlv.kt:39-41 | `getValue()` of a well-formed constructed node parses back to its `getChildren()` |
| BerTlvProperties.PaddingSkipped | src/main/java/io/github/binaryfoo/tlv/BerTlv.kt:116-118 | a leading 0x00 octet does not change the parse |
| BerTlvProperties.NoRecursionAllPrimitive | src/main/java/io/github/binaryfoo/tlv/BerTlv.kt:129-131 | with recursion off, every parsed node is primitive |
| BerTlvProperties.MissingLength | src/main/java/io/github/binaryfoo/tlv/BerTlv.kt:119-134 | a tag with no length after it fails with the error naming that tag |
| BerTlvProperties.TruncatedTagFails | src/main/java/io/github/binaryfoo/tlv/BerTlv.kt:115 | a multi-octet tag whose continuation runs off the end fails unwrapped |
| Bytes.OrBit | src/main/java/io/github/binaryfoo/bit/EmvBit.kt:66 | `b or (1 shl k)` sets bit k and keeps every other bit |
| Bytes.AddClearBit | src/main/java/io/github/binaryfoo/bit/EmvBit.kt:66 | adding 2^k to a number with bit k clear sets that bit and no other |
| Bytes.SameBits | src/main/java/io/github/binaryfoo/bit/EmvBit.kt:54 | two octets with the same bits are equal |
| Hex.Hex2Byte | src/main/java/io/github/binaryfoo/tlv/BerTlv.kt:79 | `hex2byte` succeeds exactly for even-length hex, giving half as many octets |
| Hex.Hex2ByteOfHexString | src/main/java/io/github/binaryfoo/tlv/BerTlv.kt:79 | decoding a rendered octet string gives it back |
| Hex.UpperCaseDigits | src/main/java/io/github/binaryfoo/bit/EmvBit.kt:70 | upper-casing hex text keeps every digit's value and leaves no lower-case digit |
| Hex.HexStringOfHex2Byte | src/main/java/io/github/binaryfoo/bit/EmvBit.kt:70 | rendering decoded hex gives the text in upper case |
| EmvBits.GetValue | src/main/java/io/github/binaryfoo/bit/EmvBit.kt:18-20 | "1" exactly when the flag is set, otherwise "0" |
| EmvBits.NatToString | src/main/java/io/github/binaryfoo/bit/EmvBit.kt:28 | the decimal digits of a number, with no leading zero |
| EmvBits.IntToString | src/main/java/io/github/binaryfoo/bit/EmvBit.kt:28 | a leading minus exactly for negative numbers |
| EmvBits.DecimalRoundTrip | src/main/java/io/github/binaryfoo/bit/EmvBit.kt:28 | the rendered digits denote the number |
| EmvBits.IntRoundTrip | src/main/java/io/github/binaryfoo/bit/EmvBit.kt:28 | the rendering of any `Int`, sign included, reads back as that `Int` |
| EmvBits.ToLabel | src/main/java/io/github/binaryfoo/bit/EmvBit.kt:26-29 | a label always starts with "Byte " |
| EmvBits.ToLabelFields | src/main/java/io/github/binaryfoo/bit/EmvBit.kt:26-29 | a label is "Byte ", a field reading back as the byte number, a comma exactly when asked, " Bit ", a field reading back as the bit number, " = ", and "1" exactly when set |
| EmvBits.IntTextNoComma | src/main/java/io/github/binaryfoo/bit/EmvBit.kt:28 | a rendered number holds no comma |
| EmvBits.LabelComma | src/main/java/io/github/binaryfoo/bit/EmvBit.kt:26-29 | a label holds a comma exactly when `includeComma` is true |
| EmvBits.ToString | src/main/java/io/github/binaryfoo/bit/EmvBit.kt:22-24 | `toString()` is a label that starts with "Byte " and holds the comma |
| EmvBits.ToLabelExamples | src/test/java/io/github/binaryfoo/decoders/bit/EnumeratedBitStringFieldTest.java:16 | Byte 3 Bit 8 set renders as "Byte 3 Bit 8 = 1", and with the comma as "Byte 3, Bit 7 = 0" for bit 7 unset |
| EmvBits.IntegerCompare | src/main/java/io/github/binaryfoo/bit/EmvBit.kt:32 | `Integer.compare`: -1, 0 or 1; negative iff less, zero iff equal |
| EmvBits.BooleanCompare | src/main/java/io/github/binaryfoo/bit/EmvBit.kt:40 | `Boolean.compare`: false before true, zero iff equal |
| EmvBits.CompareTo | src/main/java/io/github/binaryfoo/bit/EmvBit.kt:31-41 | -1, 0 or 1, and 0 only for equal records |
| EmvBits.CanonicalOrder | src/main/java/io/github/binaryfoo/bit/EmvBit.kt:31-41 | less means byte number ascending, then bit number descending, then unset before set |
| EmvBits.CompareAntisymmetric | src/main/java/io/github/binaryfoo/bit/EmvBit.kt:31-41 | swapping the arguments negates the result |
| EmvBits.CompareTransitive | src/main/java/io/github/binaryfoo/bit/EmvBit.kt:31-41 | the order is transitive |
| EmvBits.CompareTotal | src/main/java/io/github/binaryfoo/bit/EmvBit.kt:31-41 | any two distinct records are ordered one way or the other |
| EmvBits.Insert | src/main/java/io/github/binaryfoo/bit/EmvBit.kt:54 | `TreeSet.add`: the elements are the old ones plus the new one, and the sequence stays sorted |
| EmvBits.InsertGreatest | src/main/java/io/github/binaryfoo/bit/EmvBit.kt:53-55 | adding an element above all present appends it |
| EmvBitCodec.ParseHexPair | src/main/java/io/github/binaryfoo/bit/EmvBit.kt:51 | `Integer.parseInt(pair, 16)` yields a value in -15..255 |
| EmvBitCodec.AllBefore | src/main/java/io/github/binaryfoo/bit/EmvBit.kt:53-54 | every flag already added precedes the next flag `fromHex` adds |
| EmvBitCodec.AddFlagStep | src/main/java/io/github/binaryfoo/bit/EmvBit.kt:54 | so each `add` appends the flag in order |
| EmvBitCodec.AddByteFlags | src/main/java/io/github/binaryfoo/bit/EmvBit.kt:53-55 | the inner loop adds the byte's eight flags, bit 8 down to bit 1 |
| EmvBitCodec.FromHex | src/main/java/io/github/binaryfoo/bit/EmvBit.kt:48-58 | the nested loops return the specified flag set, or fail on an odd length or a bad pair |
| EmvBitCodec.FromHexFirst | src/main/java/io/github/binaryfoo/bit/EmvBit.kt:44-46 | `fromHex(hex)` numbers bytes from 1 |
| EmvBitCodec.PairValuesOfHex | src/main/java/io/github/binaryfoo/bit/EmvBit.kt:51 | on hex digits the pairs parse to the octets `hex2byte` gives |
| EmvBitCodec.BitsOfSorted | src/main/java/io/github/binaryfoo/bit/EmvBit.kt:49-57 | the flags come out in `compareTo` order |
| EmvBitCodec.BitsOfRanges | src/main/java/io/github/binaryfoo/bit/EmvBit.kt:50-55 | each flag names a byte of the input and a bit in 1..8, and is set iff that bit is 1 |
| EmvBitCodec.BitsOfPositions | src/main/java/io/github/binaryfoo/bit/EmvBit.kt:50-55 | every (byte, bit) pair in range has its flag |
| EmvBitCodec.FromHexShape | src/main/java/io/github/binaryfoo/bit/EmvBit.kt:48-58 | 2N hex digits give exactly 8N sorted flags, one per byte number in first..first+N-1 and bit number in 1..8, each set iff that bit of that byte is |
| EmvBitCodec.FromHexExample | src/main/java/io/github/binaryfoo/bit/EmvBit.kt:48-58 | "80" gives Byte 1 Bit 8 set, then bits 7..1 unset |
| EmvBitCodec.OrMask | src/main/java/io/github/binaryfoo/bit/EmvBit.kt:66 | with the shift count taken mod 32: a shift below 8 sets that bit and keeps the rest; otherwise the byte is unchanged |
| EmvBitCodec.ToHex | src/main/java/io/github/binaryfoo/bit/EmvBit.kt:60-71 | the in-place loop over a zeroed array returns the specified hex, or the specified failure |
| EmvBitCodec.ApplyBitsConcat | src/main/java/io/github/binaryfoo/bit/EmvBit.kt:62-69 | applying two runs of flags is applying one after the other |
| EmvBitCodec.ApplyBitsFails | src/main/java/io/github/binaryfoo/bit/EmvBit.kt:63-65 | applying fails exactly when some set flag's byte lies outside the field |
| EmvBitCodec.ToHexFails | src/main/java/io/github/binaryfoo/bit/EmvBit.kt:60-71 | fails with a negative length exactly when the length is negative, and out of range exactly when a set flag's byte is outside 1..length |
| EmvBitCodec.SetOnlyMembers | src/main/java/io/github/binaryfoo/bit/EmvBit.kt:63 | the filtered flags are exactly the set ones |
| EmvBitCodec.ApplySetOnly | src/main/java/io/github/binaryfoo/bit/EmvBit.kt:63 | unset flags have no effect on the buffer |
| EmvBitCodec.ToHexOnlySetBits | src/main/java/io/github/binaryfoo/bit/EmvBit.kt:62-69 | `toHex` depends only on the set flags, even unset ones outside the field are ignored |
| EmvBitCodec.ToHexNoneSet | src/main/java/io/github/binaryfoo/bit/EmvBit.kt:61 | with no flag set the output is all zeros |
| EmvBitCodec.SingleBit | src/main/java/io/github/binaryfoo/bit/EmvBit.kt:63-67 | flag (b, k) with k in 1..8 sets bit k-1 of byte b-1 and nothing else |
| EmvBitCodec.IgnoredBitNumber | src/main/java/io/github/binaryfoo/bit/EmvBit.kt:66 | a set flag whose shift is 8..31 (mod 32) leaves the output unchanged |
| EmvBitCodec.ToHexExampleOneBit | src/test/java/io/github/binaryfoo/decoders/bit/EnumeratedBitStringFieldTest.java:17 | Byte 3 Bit 8 in three bytes gives "000080" |
| EmvBitCodec.ToHexExampleTwoBits | src/test/java/io/github/binaryfoo/decoders/bit/EnumeratedBitStringFieldTest.java:23 | Byte 2 Bits 8 and 6 in three bytes give "00A000" |
| EmvBitCodec.OrExamples | src/main/java/io/github/binaryfoo/bit/EmvBit.kt:66 | OR-ing bit 8 into 0 gives 0x80, and bit 6 into 0x80 gives 0xA0 |
| EmvBitCodec.ApplyByteBits | src/main/java/io/github/binaryfoo/bit/EmvBit.kt:62-68 | after the first t flags of a byte, its slot holds exactly those bits |
| EmvBitCodec.FlagBits | src/main/java/io/github/binaryfoo/bit/EmvBit.kt:66 | one OR step adds the next bit of the byte |
| EmvBitCodec.ApplyOneByte | src/main/java/io/github/binaryfoo/bit/EmvBit.kt:62-68 | the eight flags of a byte, set into a zero slot, reproduce the byte |
| EmvBitCodec.ApplyAllBytesStep | src/main/java/io/github/binaryfoo/bit/EmvBit.kt:62-68 | one more byte's flags fill the next zero slot with it |
| EmvBitCodec.ApplyAllBytes | src/main/java/io/github/binaryfoo/bit/EmvBit.kt:60-69 | the flags of a byte string, applied to a wider zero field, reproduce the string followed by zeros |
| EmvBitCodec.BitRoundTrip | src/main/java/io/github/binaryfoo/bit/EmvBit.kt:48-71 | `toHex(fromHex(h), h.length / 2)` is h in upper case |
| EmvBitCodec.ShortLabelFields | src/main/java/io/github/binaryfoo/bit/EmvBit.kt:84 | a label part is "Byte ", a field reading back as the byte number, " Bit ", and a field reading back as the bit number |
| EmvBitCodec.JoinEmpty | src/main/java/io/github/binaryfoo/bit/EmvBit.kt:81-83 | joining non-empty parts is empty exactly when there are none |
| EmvBitCodec.SetOnlySnoc | src/main/java/io/github/binaryfoo/bit/EmvBit.kt:79-80 | one more flag extends the set flags by it exactly when it is set |
| EmvBitCodec.JoinSnoc | src/main/java/io/github/binaryfoo/bit/EmvBit.kt:81-84 | one more part is appended after a comma unless it is the first |
| EmvBitCodec.LabelSkip | src/main/java/io/github/binaryfoo/bit/EmvBit.kt:80 | an unset flag adds nothing to the label |
| EmvBitCodec.LabelAppend | src/main/java/io/github/binaryfoo/bit/EmvBit.kt:80-84 | a set flag appends its part, after a comma once the label is non-empty |
| EmvBitCodec.LabelFor | src/main/java/io/github/binaryfoo/bit/EmvBit.kt:77-88 | the `StringBuilder` loop returns the specified label, or the `fromHex` failure |
| EmvBitCodec.SetOnlyNone | src/main/java/io/github/binaryfoo/bit/EmvBit.kt:80 | no flag is kept exactly when none is set |
| EmvBitCodec.LabelEmptyIffNoneSet | src/main/java/io/github/binaryfoo/bit/EmvBit.kt:77-88 | on hex input the label is empty exactly when no bit is set |
| EmvBitCodec.SetOnlySorted | src/main/java/io/github/binaryfoo/bit/EmvBit.kt:79-80 | dropping unset flags keeps the order |
| EmvBitCodec.LabelParts | src/main/java/io/github/binaryfoo/bit/EmvBit.kt:77-88 | the label names exactly the set flags, in canonical order, comma-separated |
| EmvBitCodec.SetOnlyOfOnlySet | src/main/java/io/github/binaryfoo/bit/EmvBit.kt:79-80 | with a single set flag, only that flag is kept |
| EmvBitCodec.SetOnlyLone | src/main/java/io/github/binaryfoo/bit/EmvBit.kt:79-80 | a set flag between runs of unset flags is the only one kept |
| EmvBitCodec.LabelOfOnlySet | src/main/java/io/github/binaryfoo/bit/EmvBit.kt:77-88 | a field with a single set flag is labelled with that flag alone |
| EmvBitCodec.SetOnlyConcat | src/main/java/io/github/binaryfoo/bit/EmvBit.kt:79-80 | filtering distributes over concatenation |
| EmvBitCodec.ShortLabelExample | src/main/java/io/github/binaryfoo/bit/EmvBit.kt:84 | Byte 1 Bit 8 renders as "Byte 1 Bit 8" |
| EmvBitCodec.LabelForExample | src/main/java/io/github/binaryfoo/bit/EmvBit.kt:77-88 | `labelFor("80")` is "Byte 1 Bit 8" |

## Left out

- `Tag.kt`, `PrimitiveBerTlv`, `ConstructedBerTlv` and `ISOUtil` are not part of this model:
  - a tag is an opaque non-empty octet string, read by the identifier-octet rules of section 8.1.2 of ITU-T X.690;
  - it is constructed when bit 0x20 of its first octet is set;
  - a constructed node's value is its children's encodings in order;
  - the hex helpers are two upper-case characters per octet.
- `toHexString`, `getValueAsHexString` and `getLengthInBytesOfEncodedLength`: thin wrappers over the hex helper and `getLength`.
- The instance `findTlv` and `findTlvs`: their bodies are in the node classes, which are not part of this model.
- `equals`, `hashCode` and `toString` of tags and nodes.
- `getLength(null)`: it returns a single 0x00. `getValue()` never yields null, so the branch is unreachable from `toBinary`.
- Length.ParseLength: lengths are unbounded naturals, so the model does not capture the 32-bit `Int` arithmetic of `dataLength`.
  - Four length octets with the first ≥ 0x80, or five or more, wrap `dataLength`; five or more compute it modulo 2^32.
  - A negative result makes `ByteArray` in `readUpToLength` throw `NegativeArraySizeException`, which is wrapped as a failure naming the tag.
  - The model instead decodes the full value and clamps it to the remaining octets: `01 84 80 00 00 00` parses to a primitive node with tag 01 and an empty value, where the code fails.
- Length.GetLength, BerTlvs.ToBinary: the 32-bit guard is not modelled (see Findings). `GetLength` produces the minimal long form for every length the JVM can allocate, which is the evidently intended result; `NeededBytesAsWritten` states where the guard as written fires.
- The signed-octet sign extension of `data.get().toInt()` is left out: octets are 0..255 and the high-bit test is stated directly.
- The indefinite-form lead octet 0x80 is kept as written: it decodes as length 0, one octet consumed. The indefinite form of section 8.1.3.6 of ITU-T X.690 is not implemented.
- Recursion depth: the parser recurses once per nesting level, as the code does. Stack exhaustion is not modelled.
- The wrapped error carries only the tag, not the JVM exception text or class name.
- EmvBitCodec.ToHex: `toHex` takes a `Set<EmvBit>`, which is modelled as a sequence in iteration order.
  - Which inputs fail is proved independent of order (`ToHexFails`).
  - The independence of the success value from the order is not proved.
- EmvBitCodec.ParseHexPair: `Integer.parseInt` also accepts non-ASCII Unicode digits. The model accepts ASCII hex digits plus a leading `+` or `-` only.
- The `TreeSet` internals are modelled as a sorted sequence with `Insert` as `add`.
- The `fromHex` loop always adds in increasing order, so only the appending case of `Insert` (`InsertGreatest`) is needed.
- `PutDataAPDUDecoder.kt` and `EnumeratedBitStringField` are not part of this model. The three test values of `EnumeratedBitStringFieldTest` are used as examples.

## Findings

| source | as written | input that shows it | evidently intended | confidence | as-written member | corrected member |
|---|---|---|---|---|---|---|
| src/main/java/io/github/binaryfoo/tlv/BerTlv.kt:54-60 | `expected` is a 32-bit `Int`. For a value of 2^24 octets or more, it is shifted from 2^24 to 2^32, which wraps to 0, so the "just to be sure" guard throws `IllegalArgumentException` | a value of 16777216 (2^24) octets, a valid JVM array size | every array length below 2^31 fits the long form in at most four octets, e.g. `84 01 00 00 00` for 2^24; the guard should never fire for an `Int` length | medium; not executed | Length.NeededBytesAsWritten | Length.GetLength |
