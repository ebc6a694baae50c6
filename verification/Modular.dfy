/** Congruence modulo a positive number. */
module Modular {
  import opened Arith
  import opened JsNumbers

  predicate Congruent(a: int, b: int, m: int) { m > 0 && (a - b) % m == 0 }

  function IntPow(b: int, e: nat): int { if e == 0 then 1 else b * IntPow(b, e - 1) }

  lemma CongruentBy(a: int, b: int, m: int, k: int)
    requires m > 0 && a == b + k * m
    ensures Congruent(a, b, m)
  {
    ModMultiple(k, m);
  }

  ghost function Multiplier(a: int, b: int, m: int): (k: int)
    requires Congruent(a, b, m)
    ensures a == b + k * m
  {
    (a - b) / m
  }

  lemma CongruentTrans(a: int, b: int, c: int, m: int)
    requires Congruent(a, b, m) && Congruent(b, c, m)
    ensures Congruent(a, c, m)
  {
    var k, l := Multiplier(a, b, m), Multiplier(b, c, m);
    MulDistrib(m, k, l);
    CongruentBy(a, c, m, k + l);
  }

  lemma CongruentMul(a: int, b: int, c: int, d: int, m: int)
    requires Congruent(a, b, m) && Congruent(c, d, m)
    ensures Congruent(a * c, b * d, m)
  {
    var k, l := Multiplier(a, b, m), Multiplier(c, d, m);
    var u, v := k * m, l * m;
    MulDistrib(c, b, u);
    MulDistrib(b, d, v);
    MulAssoc(b, l, m);
    MulAssoc(c, k, m);
    MulDistrib(m, c * k, b * l);
    CongruentBy(a * c, b * d, m, c * k + b * l);
  }

  lemma CongruentMod(a: int, m: int)
    requires m > 0
    ensures Congruent(a % m, a, m)
  {
    CongruentBy(a % m, a, m, -(a / m));
  }

  /** A reduced number is the remainder. */
  lemma CongruentUnique(a: int, b: int, m: int)
    requires Congruent(a, b, m) && 0 <= a < m
    ensures a == b % m
  {
    var k := Multiplier(a, b, m);
    FloorDiv(b, m, -k, a);
  }

  /** Factors of 2 cancel modulo an odd number. */
  lemma {:induction false} CancelPow2(a: int, b: int, k: nat, m: int)
    requires m > 0 && m % 2 == 1 && Congruent(a * Pow2(k), b * Pow2(k), m)
    ensures Congruent(a, b, m)
  {
    if k > 0 {
      var p := Pow2(k - 1);
      assert a * Pow2(k) == 2 * (a * p) && b * Pow2(k) == 2 * (b * p);
      var q := Multiplier(a * Pow2(k), b * Pow2(k), m);
      hide Pow2;
      HalveOdd(a * p, b * p, q, m);
      CancelPow2(a, b, k - 1, m);
    }
  }

  lemma HalveOdd(a: int, b: int, q: int, m: int)
    requires m > 0 && m % 2 == 1 && 2 * a == 2 * b + q * m
    ensures Congruent(a, b, m)
  {
    if q % 2 == 1 {
      OddProduct(q, m);
      assert false;
    } else {
      MulAssoc(2, q / 2, m);
      CongruentBy(a, b, m, q / 2);
    }
  }

  lemma OddProduct(q: int, m: int)
    requires q % 2 == 1 && m % 2 == 1
    ensures (q * m) % 2 == 1
  {
    var h, n := q / 2, m / 2;
    assert q * m == 2 * (2 * h * n + h + n) + 1;
  }

  lemma {:induction false} IntPowAdd(b: int, e: nat, f: nat)
    ensures IntPow(b, e + f) == IntPow(b, e) * IntPow(b, f)
  {
    if e > 0 {
      IntPowAdd(b, e - 1, f);
      MulAssoc(b, IntPow(b, e - 1), IntPow(b, f));
    }
  }
}
