/** Why JsNumbers may write JavaScript's bit operations as arithmetic: here they are defined bit by bit on
    two's complement, and the arithmetic forms are proved equal to them. */
module BitOperations {
  import opened Arith
  import opened JsNumbers

  /** `x & y` for y >= 0. */
  function And(x: int, y: nat): nat
    decreases y
  {
    if y == 0 then 0 else (if x % 2 == 1 && y % 2 == 1 then 1 else 0) + 2 * And(x / 2, y / 2)
  }

  /** `x | y` for x, y >= 0. */
  function BitOr(x: nat, y: nat): nat {
    if x == 0 && y == 0 then 0
    else (if x % 2 == 1 || y % 2 == 1 then 1 else 0) + 2 * BitOr(x / 2, y / 2)
  }

  /** `x >> k`, one bit at a time; the sign bit stays. */
  function ShiftRight(x: int, k: nat): int {
    if k == 0 then x else ShiftRight(x, k - 1) / 2
  }

  lemma {:induction false} MaskIsAnd(x: int, k: nat)
    requires IsSafe(x) && k <= 31
    ensures 0 < Pow2(k) <= TWO31 && And(x, Pow2(k) - 1) == Mask(x, Pow2(k))
    decreases k
  {
    hide And, Mask, Pow2;
    MaskRange(k);
    if k == 0 {
      MaskNothing(x);
    } else {
      MaskIsAnd(x / 2, k - 1);
      AndOdd(x, Pow2(k - 1) - 1);
      MaskHalf(x, Pow2(k - 1));
    }
  }

  lemma MaskNothing(x: int)
    requires IsSafe(x)
    ensures Pow2(0) == 1 && And(x, 0) == Mask(x, 1) == 0
  {
  }

  /** The low bit is one more bit below the mask of the others. */
  lemma AndOdd(x: int, m: nat)
    ensures And(x, 2 * m + 1) == x % 2 + 2 * And(x / 2, m)
  {
    assert (2 * m + 1) / 2 == m && (2 * m + 1) % 2 == 1;
  }

  lemma MaskHalf(x: int, m: int)
    requires IsSafe(x) && 0 < 2 * m <= TWO31
    ensures IsSafe(x / 2) && Mask(x, 2 * m) == x % 2 + 2 * Mask(x / 2, m)
  {
    var q, r := (x / 2) / m, (x / 2) % m;
    MulAssoc(2, m, q);
    FloorDiv(x, 2 * m, q, x % 2 + 2 * r);
  }

  lemma MaskRange(k: nat)
    requires k <= 31
    ensures 0 < Pow2(k) <= TWO31
    ensures k > 0 ==> Pow2(k) == 2 * Pow2(k - 1)
  {
    Pow2Values();
    Pow2Mono(k, 31);
  }

  lemma {:induction false} ShiftRightIsShr(x: int, k: nat)
    requires IsInt32(x)
    ensures ShiftRight(x, k) == Shr(x, Pow2(k))
  {
    if k > 0 {
      ShiftRightIsShr(x, k - 1);
      NestedDiv(x, Pow2(k - 1), 2);
    }
  }

  lemma {:induction false} OrWithNothing(x: nat)
    ensures BitOr(x, 0) == x
  {
    if x > 0 {
      OrWithNothing(x / 2);
    }
  }

  lemma {:induction false} OrIsSum(hi: nat, lo: nat, k: nat)
    requires IsMultiple(hi, Pow2(k)) && lo < Pow2(k)
    ensures BitOr(hi, lo) == Or(hi, lo, Pow2(k))
  {
    if k == 0 {
      OrWithNothing(hi);
    } else {
      var p := Pow2(k - 1);
      var q := hi / (2 * p);
      assert hi == 2 * (p * q) by { MulAssoc(2, p, q); }
      FloorDiv(hi / 2, p, q, 0);
      OrIsSum(hi / 2, lo / 2, k - 1);
    }
  }

  lemma {:induction false} TestIsBitSet(x: int, i: nat)
    requires IsUint32(x) && i < 31
    ensures And(x, Pow2(i)) > 0 <==> BitSet(x, i)
  {
    if i == 0 {
      assert Pow2(0) == 1 && And(x / 2, 0) == 0;
    } else {
      assert Pow2(i) % 2 == 0 && Pow2(i) / 2 == Pow2(i - 1);
      TestIsBitSet(x / 2, i - 1);
      NestedDiv(x, 2, Pow2(i - 1));
    }
  }
}
