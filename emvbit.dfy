/** One EMV bit flag: bytes are numbered left to right from 1, bits right to
    left from 1 within a byte. The record, its total order, its labels, and
    the sorted set (`TreeSet`) that holds a decoded field. */
module EmvBits {

  datatype EmvBit = EmvBit(byteNumber: int, bitNumber: int, isSet: bool)

  /** `getValue()`. */
  function GetValue(bit: EmvBit): (s: string)
    ensures s == "1" || s == "0"
    ensures s == "1" <==> bit.isSet
  {
    if bit.isSet then "1" else "0"
  }

  function DigitOf(d: nat): (c: char)
    requires d < 10
    ensures '0' <= c <= '9'
  {
    ('0' as int + d) as char
  }

  /** Kotlin's decimal rendering of a non-negative `Int`. */
  function NatToString(n: nat): (s: string)
    ensures |s| >= 1 && (forall i :: 0 <= i < |s| ==> '0' <= s[i] <= '9')
    ensures |s| > 1 ==> s[0] != '0'
    decreases n
  {
    if n < 10 then [DigitOf(n)] else NatToString(n / 10) + [DigitOf(n % 10)]
  }

  /** Kotlin's decimal rendering of an `Int`, with a leading `-` below 0. */
  function IntToString(i: int): (s: string)
    ensures |s| >= 1
    ensures (s[0] == '-') <==> i < 0
  {
    if i < 0 then "-" + NatToString(-i) else NatToString(i)
  }

  /** The number a string of decimal digits denotes. */
  function DecimalValue(s: string): nat
    requires forall i :: 0 <= i < |s| ==> '0' <= s[i] <= '9'
  {
    if s == [] then 0
    else DecimalValue(s[..|s| - 1]) * 10 + (s[|s| - 1] as int - '0' as int)
  }

  predicate IsDigits(s: string)
  {
    |s| >= 1 && forall i :: 0 <= i < |s| ==> '0' <= s[i] <= '9'
  }

  /** Decimal text with an optional leading `-`. */
  predicate IsIntText(s: string)
  {
    |s| >= 1 && if s[0] == '-' then IsDigits(s[1..]) else IsDigits(s)
  }

  /** The integer that decimal text with an optional `-` denotes. */
  function IntValue(s: string): int
    requires IsIntText(s)
  {
    if s[0] == '-' then -(DecimalValue(s[1..]) as int) else DecimalValue(s)
  }

  /** The decimal rendering reads back as the number. */
  lemma {:induction false} DecimalRoundTrip(n: nat)
    ensures DecimalValue(NatToString(n)) == n
    decreases n
  {
    if n >= 10 {
      var s := NatToString(n);
      assert s[..|s| - 1] == NatToString(n / 10);
      DecimalRoundTrip(n / 10);
    }
  }

  /** Kotlin's rendering of an `Int` reads back as that `Int`. */
  lemma IntRoundTrip(i: int)
    ensures IsIntText(IntToString(i)) && IntValue(IntToString(i)) == i
  {
    var s := IntToString(i);
    if i < 0 {
      assert s[1..] == NatToString(-i);
      DecimalRoundTrip(-i);
    } else {
      DecimalRoundTrip(i);
    }
  }

  /** `toLabel(includeComma)`: `Byte <n>[,] Bit <m> = <0|1>`. */
  function ToLabel(bit: EmvBit, includeComma: bool): (s: string)
    ensures |s| >= 5 && s[..5] == "Byte "
  {
    var separator := if includeComma then "," else "";
    "Byte " + IntToString(bit.byteNumber) + separator + " Bit " + IntToString(bit.bitNumber)
      + " = " + GetValue(bit)
  }

  /** The fields of a label read back: it is `Byte `, a number field that
      reads back as the byte number, a comma exactly when asked for, ` Bit `,
      a number field that reads back as the bit number, ` = ` and `1`
      exactly when the flag is set. Number fields hold only digits and a
      sign, so each ends where the fixed text resumes. */
  lemma ToLabelFields(bit: EmvBit, includeComma: bool) returns (b: string, m: string)
    ensures IsIntText(b) && IntValue(b) == bit.byteNumber
    ensures IsIntText(m) && IntValue(m) == bit.bitNumber
    ensures ToLabel(bit, includeComma) ==
      "Byte " + b + (if includeComma then "," else "") + " Bit " + m + " = " + (if bit.isSet then "1" else "0")
  {
    b, m := IntToString(bit.byteNumber), IntToString(bit.bitNumber);
    IntRoundTrip(bit.byteNumber);
    IntRoundTrip(bit.bitNumber);
  }

  /** Number fields hold no comma. */
  lemma IntTextNoComma(s: string)
    requires IsIntText(s)
    ensures ',' !in s
  {
    if s[0] == '-' {
      assert forall i :: 1 <= i < |s| ==> s[i] == s[1..][i - 1];
    }
  }

  /** A label holds a comma exactly when one was asked for. */
  lemma LabelComma(bit: EmvBit, includeComma: bool)
    ensures ',' in ToLabel(bit, includeComma) <==> includeComma
  {
    var b, m := ToLabelFields(bit, includeComma);
    IntTextNoComma(b);
    IntTextNoComma(m);
    var sep := if includeComma then "," else "";
    var v := if bit.isSet then "1" else "0";
    assert ',' !in "Byte " && ',' !in " Bit " && ',' !in " = " && ',' !in v;
    assert ',' in "Byte " + b + sep + " Bit " + m + " = " + v <==> ',' in sep;
  }

  /** `toString()`: the label with the comma. */
  function ToString(bit: EmvBit): (s: string)
    ensures |s| >= 5 && s[..5] == "Byte " && ',' in s
  {
    LabelComma(bit, true);
    ToLabel(bit, true)
  }

  lemma ToLabelExamples()
    ensures ToLabel(EmvBit(3, 8, true), false) == "Byte 3 Bit 8 = 1"
    ensures ToLabel(EmvBit(3, 7, false), true) == "Byte 3, Bit 7 = 0"
  {
  }

  /** `Integer.compare`. */
  function IntegerCompare(x: int, y: int): (r: int)
    ensures r == -1 || r == 0 || r == 1
    ensures r < 0 <==> x < y
    ensures r == 0 <==> x == y
  {
    if x < y then -1 else if x == y then 0 else 1
  }

  /** `java.lang.Boolean.compare`: `false` before `true`. */
  function BooleanCompare(x: bool, y: bool): (r: int)
    ensures r == -1 || r == 0 || r == 1
    ensures r < 0 <==> !x && y
    ensures r == 0 <==> x == y
  {
    if x == y then 0 else if x then 1 else -1
  }

  /** `compareTo`: byte number ascending, then bit number descending, then
      unset before set. */
  function CompareTo(a: EmvBit, b: EmvBit): (r: int)
    ensures r == -1 || r == 0 || r == 1
    ensures r == 0 <==> a == b
  {
    var byteOrder := IntegerCompare(a.byteNumber, b.byteNumber);
    if byteOrder != 0 then byteOrder
    else
      var bitOrder := IntegerCompare(b.bitNumber, a.bitNumber);
      if bitOrder != 0 then bitOrder else BooleanCompare(a.isSet, b.isSet)
  }

  predicate Less(a: EmvBit, b: EmvBit)
  {
    CompareTo(a, b) < 0
  }

  /** The order `compareTo` defines, stated key by key. */
  lemma CanonicalOrder(a: EmvBit, b: EmvBit)
    ensures Less(a, b) <==>
      a.byteNumber < b.byteNumber ||
      (a.byteNumber == b.byteNumber && a.bitNumber > b.bitNumber) ||
      (a.byteNumber == b.byteNumber && a.bitNumber == b.bitNumber && !a.isSet && b.isSet)
  {
  }

  lemma CompareAntisymmetric(a: EmvBit, b: EmvBit)
    ensures CompareTo(a, b) == -CompareTo(b, a)
  {
  }

  lemma CompareTransitive(a: EmvBit, b: EmvBit, c: EmvBit)
    requires Less(a, b) && Less(b, c)
    ensures Less(a, c)
  {
  }

  /** Distinct records are always ordered one way or the other. */
  lemma CompareTotal(a: EmvBit, b: EmvBit)
    ensures a == b || Less(a, b) || Less(b, a)
  {
  }

  /** A `TreeSet<EmvBit>` as the sequence of its elements in iteration
      order: strictly increasing, hence without duplicates. */
  predicate Sorted(s: seq<EmvBit>)
  {
    forall i, j :: 0 <= i < j < |s| ==> Less(s[i], s[j])
  }

  /** `TreeSet.add`: puts `x` at its place in the order, unless an equal
      element is already there. */
  function Insert(s: seq<EmvBit>, x: EmvBit): (r: seq<EmvBit>)
    ensures forall e :: e in r <==> e in s || e == x
    ensures Sorted(s) ==> Sorted(r)
  {
    if s == [] then [x]
    else if Less(x, s[0]) then [x] + s
    else if x == s[0] then s
    else
      var rest := Insert(s[1..], x);
      assert Sorted(s) ==> forall j :: 0 <= j < |rest| ==> Less(s[0], rest[j]) by {
        if Sorted(s) {
          forall j | 0 <= j < |rest|
            ensures Less(s[0], rest[j])
          {
            if rest[j] != x {
              assert rest[j] in s[1..];
              var k :| 0 <= k < |s| - 1 && s[1..][k] == rest[j];
              assert s[k + 1] == rest[j];
            }
          }
        }
      }
      [s[0]] + rest
  }

  /** Adding an element larger than all present appends it. */
  lemma {:induction false} InsertGreatest(s: seq<EmvBit>, x: EmvBit)
    requires forall i :: 0 <= i < |s| ==> Less(s[i], x)
    ensures Insert(s, x) == s + [x]
  {
    if s != [] {
      CompareAntisymmetric(x, s[0]);
      InsertGreatest(s[1..], x);
      assert [s[0]] + (s[1..] + [x]) == s + [x];
    }
  }
}
