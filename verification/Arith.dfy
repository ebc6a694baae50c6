/** Nonlinear facts, stated one at a time so that the solver never has to search for them. */
module Arith {
  lemma MulMono(a: int, x: int, y: int)
    requires 0 <= a && x <= y
    ensures a * x <= a * y
  {
  }

  lemma MulDistrib(a: int, x: int, y: int)
    ensures a * (x + y) == a * x + a * y
    ensures a * (x - y) == a * x - a * y
  {
  }

  lemma MulAssoc(a: int, b: int, c: int)
    ensures a * (b * c) == (a * b) * c
  {
  }

  lemma ProductBound(a: int, b: int, aMax: int, bMax: int)
    requires 0 <= a <= aMax && 0 <= b <= bMax
    ensures 0 <= a * b <= aMax * bMax
  {
    MulMono(a, 0, b);
    MulMono(a, b, bMax);
    MulMono(bMax, a, aMax);
  }

  /** Quotient and remainder are unique. */
  lemma DivModUnique(b: int, lo1: int, hi1: int, lo2: int, hi2: int)
    requires 0 <= lo1 < b && 0 <= lo2 < b
    requires lo1 + b * hi1 == lo2 + b * hi2
    ensures lo1 == lo2 && hi1 == hi2
  {
    MulDistrib(b, hi1, hi2);
    if hi1 < hi2 {
      MulMono(b, hi1 + 1, hi2);
      MulDistrib(b, hi1, 1);
    } else if hi2 < hi1 {
      MulMono(b, hi2 + 1, hi1);
      MulDistrib(b, hi2, 1);
    }
  }

  /** One step of a multiply-accumulate over digits of weight p. */
  lemma MulAddStep(b: int, p: int, x: int, w: int, o: int, t: int, c0: int, c: int, wj: int, ti: int, wj': int, c': int)
    requires w + c * p == o + x * t + c0
    requires wj' + b * c' == x * ti + wj + c
    ensures (w + wj' * p) + c' * (b * p) == (o + wj * p) + x * (t + ti * p) + c0
  {
    MulDistrib(p, wj', b * c');
    MulDistrib(p, x * ti + wj, c);
    MulDistrib(p, x * ti, wj);
    MulDistrib(x, t, ti * p);
    MulAssoc(x, ti, p);
    MulAssoc(p, b, c');
    MulAssoc(c', b, p);
  }

  /** Dafny's / and % round down for a positive divisor. */
  lemma FloorDiv(v: int, b: int, q: int, r: int)
    requires 0 <= r < b && v == b * q + r
    ensures v / b == q && v % b == r
  {
    DivModUnique(b, v % b, v / b, r, q);
  }

  lemma ModMultiple(a: int, b: int)
    requires b > 0
    ensures (b * a) % b == 0 && (a * b) % b == 0
  {
    FloorDiv(b * a, b, a, 0);
  }

  /** (v / a) / b is v / (a * b). */
  lemma NestedDiv(v: int, a: int, b: int)
    requires a > 0 && b > 0
    ensures (v / a) / b == v / (a * b)
  {
    var q, r := v / a, v % a;
    var h, l := q / b, q % b;
    assert v == a * q + r && q == b * h + l;
    MulDistrib(a, b * h, l);
    MulAssoc(a, b, h);
    ProductBound(a, l, a, b - 1);
    MulDistrib(a, b, 1);
    FloorDiv(v, a * b, h, a * l + r);
  }

  /** The lowest digit of t * m + a, and the digits above it. */
  lemma ModOfSum(a: int, m: int, t: int, p: int)
    requires 0 <= a < m && 0 < p
    ensures (a + m * t) % (m * p) == (t % p) * m + a
  {
    var q, r := t / p, t % p;
    MulDistrib(m, p * q, r);
    MulAssoc(m, p, q);
    ProductBound(m, r, m, p - 1);
    MulDistrib(m, p, 1);
    FloorDiv(a + m * t, m * p, q, m * r + a);
  }
}
