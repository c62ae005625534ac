/**
 * Java's 64-bit `long`: two's-complement values, the shift `<<` and the bitwise `|`,
 * written out over mathematical integers.
 */
module JavaLong {

  const TWO_63: int := 0x8000_0000_0000_0000
  const TWO_64: int := 0x1_0000_0000_0000_0000

  /** The values a Java `long` can hold. */
  type Long = x: int | -TWO_63 <= x < TWO_63

  function Pow2(k: nat): (r: nat)
    ensures r >= 1
  {
    if k == 0 then 1 else 2 * Pow2(k - 1)
  }

  /** The long with the same low 64 bits as `x`: Java's silent overflow. */
  function Wrap(x: int): (r: Long)
    ensures -TWO_63 <= x < TWO_63 ==> r == x
  {
    var u := x % TWO_64;
    if u < TWO_63 then u else u - TWO_64
  }

  /** The 64 bits of a long read as an unsigned number. */
  function Bits(x: Long): (u: nat)
    ensures u < TWO_64
    ensures x >= 0 ==> u == x
  {
    x % TWO_64
  }

  /** Bitwise or of two naturals, one bit at a time from the lowest. */
  function BitOr(u: nat, v: nat): nat
    decreases u + v
  {
    if u == 0 then v
    else if v == 0 then u
    else (if u % 2 == 1 || v % 2 == 1 then 1 else 0) + 2 * BitOr(u / 2, v / 2)
  }

  /** `x << k` on a long: Java uses only the low six bits of the distance. */
  function ShiftLeft(x: Long, k: nat): Long
  {
    Wrap(x * Pow2(k % 64))
  }

  /** `x | y` on longs. */
  function Or(x: Long, y: Long): Long
  {
    Wrap(BitOr(Bits(x), Bits(y)))
  }

  /** Or-ing a multiple of 2^k with a number below 2^k is adding them: their bits do not overlap. */
  lemma {:induction false} OrOfDisjointBits(q: nat, u: nat, k: nat)
    requires u < Pow2(k)
    ensures BitOr(q * Pow2(k), u) == q * Pow2(k) + u
  {
    var v := q * Pow2(k);
    if k == 0 {
      assert u == 0;
    } else if v != 0 && u != 0 {
      assert v == 2 * (q * Pow2(k - 1));
      assert v % 2 == 0 && v / 2 == q * Pow2(k - 1);
      assert u / 2 < Pow2(k - 1);
      OrOfDisjointBits(q, u / 2, k - 1);
      assert BitOr(v, u) == u % 2 + 2 * (q * Pow2(k - 1) + u / 2);
    }
  }

  /** `x << k` on a non-negative long whose shifted value still fits: plain multiplication. */
  lemma ShiftLeftNoOverflow(x: Long, k: nat)
    requires 0 <= x && k < 64 && x * Pow2(k) < TWO_63
    ensures ShiftLeft(x, k) == x * Pow2(k)
  {
    assert k % 64 == k;
    var y := x * Pow2(k);
    assert 0 <= y < TWO_63;
    assert Wrap(y) == y;
  }

  /** `x | y` on non-negative longs whose bits do not overlap: plain addition. */
  lemma OrNoOverlap(q: nat, u: nat, k: nat)
    requires u < Pow2(k) && q * Pow2(k) + u < TWO_63
    ensures Or(q * Pow2(k), u) == q * Pow2(k) + u
  {
    var v := q * Pow2(k);
    assert Bits(v) == v && Bits(u) == u;
    OrOfDisjointBits(q, u, k);
    assert Or(v, u) == Wrap(v + u);
  }

  lemma Pow2Values()
    ensures Pow2(8) == 0x100 && Pow2(16) == 0x1_0000 && Pow2(24) == 0x100_0000
  {
    assert Pow2(4) == 16;
    assert Pow2(8) == 16 * Pow2(4);
    assert Pow2(16) == 256 * Pow2(8);
    assert Pow2(24) == 256 * Pow2(16);
  }
}
