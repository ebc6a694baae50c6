/** JavaScript numbers and the bit operations jsbn.js uses, over the mathematical integers.
    Each function demands the range in which the JavaScript operator is exact. */
module JsNumbers {
  const TWO31: int := 0x8000_0000
  const TWO32: int := 0x1_0000_0000
  const TWO53: int := 0x20_0000_0000_0000

  /** Integers that a JavaScript number holds without rounding. */
  predicate IsSafe(x: int) { -TWO53 < x < TWO53 }

  predicate IsInt32(x: int) { -TWO31 <= x < TWO31 }

  predicate IsUint32(x: int) { 0 <= x < TWO32 }

  function Pow2(k: nat): (p: int)
    ensures p >= 1
  {
    if k == 0 then 1 else 2 * Pow2(k - 1)
  }

  lemma Pow2Step(n: nat)
    ensures Pow2(n + 1) == 2 * Pow2(n) && Pow2(0) == 1
  {
  }

  lemma {:induction false} Pow2Add(a: nat, b: nat)
    ensures Pow2(a + b) == Pow2(a) * Pow2(b)
  {
    if a > 0 {
      Pow2Add(a - 1, b);
    }
  }

  lemma {:induction false} Pow2Mono(a: nat, b: nat)
    requires a <= b
    ensures Pow2(a) <= Pow2(b)
  {
    if a < b {
      Pow2Mono(a, b - 1);
    }
  }

  lemma Pow2Values()
    ensures Pow2(0) == 1 && Pow2(1) == 2 && Pow2(2) == 4 && Pow2(3) == 8 && Pow2(4) == 16 && Pow2(5) == 32
    ensures Pow2(8) == 0x100 && Pow2(15) == 0x8000 && Pow2(16) == 0x1_0000
    ensures Pow2(26) == 0x400_0000 && Pow2(28) == 0x1000_0000 && Pow2(30) == 0x4000_0000
    ensures Pow2(31) == TWO31 && Pow2(32) == TWO32
  {
    assert Pow2(4) == 16 by {
      assert Pow2(2) == 4 && Pow2(3) == 8;
    }
    Pow2Add(4, 4);
    Pow2Add(8, 8);
    assert Pow2(16) == 2 * Pow2(15);
    Pow2Add(16, 8);
    assert Pow2(25) == 2 * Pow2(24) && Pow2(26) == 2 * Pow2(25);
    assert Pow2(27) == 2 * Pow2(26) && Pow2(28) == 2 * Pow2(27);
    assert Pow2(29) == 2 * Pow2(28) && Pow2(30) == 2 * Pow2(29);
    assert Pow2(31) == 2 * Pow2(30) && Pow2(32) == 2 * Pow2(31);
  }

  /** The number of binary digits of v. */
  function BitLen(v: nat): nat { if v == 0 then 0 else 1 + BitLen(v / 2) }

  lemma {:induction false} BitLenIs(v: nat, n: nat)
    requires v < Pow2(n) && (n > 0 ==> Pow2(n - 1) <= v)
    ensures BitLen(v) == n
  {
    if n > 0 {
      BitLenIs(v / 2, n - 1);
    }
  }

  lemma {:induction false} BitLenBounds(v: nat)
    ensures v < Pow2(BitLen(v)) && (v > 0 <==> BitLen(v) > 0) && (v > 0 ==> Pow2(BitLen(v) - 1) <= v)
  {
    if v > 0 {
      BitLenBounds(v / 2);
    }
  }

  /** `x & (m - 1)` for a power of two m. */
  function Mask(x: int, m: int): (r: int)
    requires IsSafe(x) && 0 < m <= TWO31
    ensures 0 <= r < m
  {
    x % m
  }

  /** `x >> log2 m` for a power of two m: the sign is shifted in, so it rounds down. */
  function Shr(x: int, m: int): int
    requires IsInt32(x) && 0 < m
  {
    x / m
  }

  /** `x >>> log2 m` for a power of two m and an x that is already unsigned. */
  function UShr(x: int, m: int): int
    requires IsUint32(x) && 0 < m
  {
    x / m
  }

  /** No bit is shifted out of x * m. */
  predicate ShlFits(x: int, m: int) { IsInt32(x * m) && 0 < m }

  /** `x << log2 m` for a power of two m. */
  function Shl(x: int, m: int): (r: int)
    requires ShlFits(x, m)
    ensures IsInt32(r)
  {
    x * m
  }

  /** `(x & (1 << i)) > 0`; bit 31 would make the left side negative. */
  predicate BitSet(x: int, i: nat)
    requires IsUint32(x) && i < 31
  {
    (x / Pow2(i)) % 2 == 1
  }

  predicate IsMultiple(x: int, m: int) { m > 0 && x % m == 0 }

  /** `hi | lo` where lo lies below the lowest set bit of hi, so that no bit is set in both. */
  function Or(hi: int, lo: int, m: int): (r: int)
    requires IsMultiple(hi, m) && 0 <= lo < m
    ensures r == hi + lo
  {
    hi + lo
  }
}
