/** Octets and the small amount of arithmetic on them that both codecs share. */
module Bytes {

  /** One octet. The Kotlin code moves between signed `Byte` and `Int`; the
      model keeps every octet as its unsigned value. */
  type byte = x: int | 0 <= x < 256

  function Pow256(k: nat): (r: nat)
    ensures r >= 1
  {
    if k == 0 then 1 else 256 * Pow256(k - 1)
  }

  function Pow2(k: nat): (r: nat)
    ensures r >= 1
  {
    if k == 0 then 1 else 2 * Pow2(k - 1)
  }

  /** Bit `k` (0 = least significant) of `b`: `(b shr k) and 1`. Dafny's `/`
      by 2 rounds towards minus infinity, exactly like `shr 1`, and `% 2` is
      never negative, like `and 1`, so this holds for negative `b` too. */
  function Bit(b: int, k: nat): (r: int)
    ensures r == 0 || r == 1
    decreases k
  {
    if k == 0 then b % 2 else Bit(b / 2, k - 1)
  }

  /** Zero has no bit set. */
  lemma {:induction false} ZeroBits(j: nat)
    ensures Bit(0, j) == 0
    decreases j
  {
    if j > 0 {
      ZeroBits(j - 1);
    }
  }

  /** Adding `2^k` to a number whose bit `k` is clear sets that bit and no
      other: it is `b or (1 shl k)`. */
  lemma {:induction false} AddClearBit(b: int, k: nat)
    requires Bit(b, k) == 0
    ensures forall j: nat :: Bit(b + Pow2(k), j) == if j == k then 1 else Bit(b, j)
    decreases k
  {
    forall j: nat
      ensures Bit(b + Pow2(k), j) == if j == k then 1 else Bit(b, j)
    {
      if k == 0 {
        assert (b + 1) / 2 == b / 2;
      } else {
        AddClearBit(b / 2, k - 1);
        assert (b + Pow2(k)) / 2 == b / 2 + Pow2(k - 1);
      }
    }
  }

  /** Setting a clear bit below bit `n` keeps a number below `2^n`. */
  lemma {:induction false} AddClearBitBound(b: nat, k: nat, n: nat)
    requires k < n && b < Pow2(n) && Bit(b, k) == 0
    ensures b + Pow2(k) < Pow2(n)
    decreases k
  {
    assert Pow2(n) == 2 * Pow2(n - 1);
    if k > 0 {
      AddClearBitBound(b / 2, k - 1, n - 1);
    }
  }

  /** Numbers below `2^n` with the same low `n` bits are equal. */
  lemma {:induction false} SameBits(a: nat, b: nat, n: nat)
    requires a < Pow2(n) && b < Pow2(n)
    requires forall j :: 0 <= j < n ==> Bit(a, j) == Bit(b, j)
    ensures a == b
    decreases n
  {
    if n > 0 {
      forall j | 0 <= j < n - 1
        ensures Bit(a / 2, j) == Bit(b / 2, j)
      {
        assert Bit(a, j + 1) == Bit(b, j + 1);
      }
      SameBits(a / 2, b / 2, n - 1);
      assert Bit(a, 0) == Bit(b, 0);
    }
  }

  /** `b or (1 shl k)` for an octet `b` and `k < 8`: bit `k` is set and every
      other bit is kept. */
  function OrBit(b: byte, k: nat): (r: byte)
    requires k < 8
    ensures Bit(r, k) == 1
    ensures forall j: nat :: j != k ==> Bit(r, j) == Bit(b, j)
  {
    if Bit(b, k) == 1 then b
    else
      AddClearBit(b, k);
      AddClearBitBound(b, k, 8);
      b + Pow2(k)
  }

  function Min(a: nat, b: nat): (r: nat)
    ensures r <= a && r <= b && (r == a || r == b)
  {
    if a <= b then a else b
  }

  /** A sequence of `n` zero octets: a freshly allocated `ByteArray(n)`. */
  function Zeros(n: nat): seq<byte>
  {
    seq(n, _ => 0)
  }

  /** `n shr (8 * k)` for a non-negative `n`: `k` whole octets shifted out. */
  function ShiftRightBytes(n: nat, k: nat): nat
  {
    if k == 0 then n else ShiftRightBytes(n / 256, k - 1)
  }
}
