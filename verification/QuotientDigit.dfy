/** Why the quotient digit that divRemTo estimates from two leading digits is right or one too large. */
module QuotientDigit {
  import opened Arith
  import opened Digits
  import opened Engine
  import opened JsNumbers

  /** y has ys digits and its top digit has its top bit set. */
  ghost predicate Normalized(yd: Words, ys: nat) {
    ys > 0 && AllDigits(yd, 0, ys) && DV <= 2 * yd[ys - 1]
  }

  /** yt, the leading 52 bits of a normalized divisor. */
  function Leading(yd: Words, ys: nat): int
    requires Normalized(yd, ys)
  {
    yd[ys - 1] * TWO_F1 + if ys > 1 then Shr(yd[ys - 2], TWO_F2) else 0
  }

  /** q is floor(r / y). */
  ghost predicate IsQuotient(r: int, y: int, q: int) { q * y <= r < (q + 1) * y }

  /** yt is y in units of DV^(ys-1) / 2^F1, rounded down. */
  lemma LeadingBounds(yd: Words, ys: nat)
    requires Normalized(yd, ys)
    ensures var w, yt := Pow(ys - 1), Leading(yd, ys);
      yt * w <= Part(yd, 0, ys) * TWO_F1 < (yt + 1) * w && FV <= 2 * yt
  {
    hide Part, Pow, Leading;
    LeadingIsLarge(yd, ys);
    PartTop(yd, 0, ys - 1);
    if ys == 1 {
      PartEmpty(yd, 0, 0);
      PowStep(0);
      LeadingIs(yd, ys, 0);
    } else {
      PartTop(yd, 0, ys - 2);
      PartBound(yd, 0, ys - 2);
      PowStep(ys - 2);
      var h := Shr(yd[ys - 2], TWO_F2);
      LeadingIs(yd, ys, h);
      LeadingArith(yd[ys - 1], yd[ys - 2], h, Pow(ys - 2), Part(yd, 0, ys - 2));
    }
  }

  lemma LeadingIs(yd: Words, ys: nat, h: int)
    requires Normalized(yd, ys) && h == if ys > 1 then Shr(yd[ys - 2], TWO_F2) else 0
    ensures Leading(yd, ys) == yd[ys - 1] * TWO_F1 + h
    ensures ys > 1 ==> h * TWO_F2 <= yd[ys - 2] < (h + 1) * TWO_F2
  {
  }

  lemma LeadingIsLarge(yd: Words, ys: nat)
    requires Normalized(yd, ys)
    ensures FV <= 2 * Leading(yd, ys)
  {
  }

  lemma LeadingArith(y0: int, y1: int, h: int, w: int, low: int)
    requires 0 <= low < w && h * TWO_F2 <= y1 < (h + 1) * TWO_F2
    ensures (y0 * TWO_F1 + h) * (DV * w) <= (low + y1 * w + y0 * (DV * w)) * TWO_F1 < (y0 * TWO_F1 + h + 1) * (DV * w)
  {
    var v, a := DV * w, low + y1 * w;
    MulMono(w, h * TWO_F2, y1);
    MulMono(w, y1 + 1, (h + 1) * TWO_F2);
    MulDistrib(w, y1, 1);
    LeadingScaled(h, w);
    LeadingScaled(h + 1, w);
    BetweenScaled(y0, v, a, h, w * (h * TWO_F2), w * ((h + 1) * TWO_F2), TWO_F1);
  }

  lemma BetweenScaled(y0: int, v: int, a: int, h: int, lo: int, hi: int, f: int)
    requires 0 < f && lo <= a < hi && h * v == lo * f && (h + 1) * v == hi * f
    ensures (y0 * f + h) * v <= (a + y0 * v) * f < (y0 * f + h + 1) * v
  {
    MulMono(f, lo, a);
    MulLess(f, a, hi);
    MulDistrib(f, a, y0 * v);
    MulSwap(f, y0, v);
    MulDistrib(v, y0 * f, h);
    MulDistrib(v, y0 * f, h + 1);
  }

  lemma LeadingScaled(h: int, w: int)
    ensures h * (DV * w) == (w * (h * TWO_F2)) * TWO_F1
  {
    MulSwap(w, h, TWO_F2);
    MulAssoc(h, w * TWO_F2, TWO_F1);
    MulAssoc(w, TWO_F2, TWO_F1);
  }

  lemma CancelLess(a: int, b: int, w: int)
    requires 0 < w && a * w < b * w
    ensures a < b
  {
    if a >= b {
      MulMono(w, b, a);
    }
  }

  lemma MulLess(f: int, a: int, b: int)
    requires 0 < f && a < b
    ensures f * a < f * b
  {
    MulMono(f, a + 1, b);
    MulDistrib(f, a, 1);
  }

  lemma MulSwap(a: int, b: int, c: int)
    ensures a * (b * c) == b * (a * c) == (b * a) * c
  {
    MulAssoc(a, b, c);
    MulAssoc(b, a, c);
  }

  lemma ScaleUp(h: int, w: int, r: int, q: int, y: int, f: int, u: int)
    requires 0 < w && 0 < f && 0 <= q && h * w <= r < q * y && y * f <= u * w
    ensures h * f < q * u
  {
    MulLess(f, h * w, q * y);
    MulMono(q, y * f, u * w);
    MulSwap(f, h, w);
    MulSwap(f, q, y);
    MulAssoc(q, u, w);
    CancelLess(h * f, q * u, w);
  }

  lemma ScaleDown(q: int, y: int, r: int, h: int, w: int, f: int, u: int)
    requires 0 < w && 0 < f && 0 <= q && q * y <= r < h * w && u * w <= y * f
    ensures q * u < h * f
  {
    MulLess(f, q * y, h * w);
    MulMono(q, u * w, y * f);
    MulSwap(f, q, y);
    MulSwap(f, h, w);
    MulAssoc(q, u, w);
    CancelLess(q * u, h * f, w);
  }

  /** The estimate from h, the two leading digits of r, is not too small... */
  lemma EstimateNotBelow(r: int, h: int, w: int, y: int, f: int, e: int, yt: int, q: int, est: int)
    requires 0 < w && 0 < f && 1 <= e && 0 < yt && 0 <= q
    requires q * y <= r < (h + 1) * w && yt * w <= y * f
    requires f * (h + e) < (est + 1) * yt
    ensures q <= est
  {
    ScaleDown(q, y, r, h + 1, w, f, yt);
    MulMono(f, h + 1, h + e);
    CancelLess(q, est + 1, yt);
  }

  /** ... and at most one too large. */
  lemma EstimateNotFarAbove(r: int, h: int, w: int, y: int, f: int, e: int, yt: int, q: int, est: int)
    requires 0 < w && 0 < f && 0 <= q && 0 < yt
    requires h * w <= r < (q + 1) * y && y * f <= (yt + 1) * w
    requires est * yt <= f * (h + e) && q + 1 + f * e <= yt
    ensures est <= q + 1
  {
    ScaleUp(h, w, r, q + 1, y, f, yt + 1);
    MulDistrib(f, h, e);
    MulDistrib(q + 1, yt, 1);
    MulDistrib(yt, q + 1, 1);
    CancelLess(est, q + 2, yt);
  }

  /** DM, taken when the leading digits are equal, is right or one too large as well. */
  lemma LeadingDigitsEqual(b: int, r: int, w: int, y0: int, y: int, q: int)
    requires 0 < w && 2 <= b <= 2 * y0 && (y0 * b) * w <= r && y < (y0 + 1) * w && 0 < y
    requires q * y <= r < (q + 1) * y && r < b * y
    ensures q <= b - 1 <= q + 1
  {
    CancelLess(q, b, y);
    assert (b - 2) * y <= ((b - 2) * (y0 + 1)) * w by {
      MulMono(b - 2, y, (y0 + 1) * w);
      MulAssoc(b - 2, y0 + 1, w);
    }
    assert (b - 2) * (y0 + 1) <= y0 * b by {
      MulDistrib(y0 + 1, b, 2);
      MulDistrib(b, y0, 1);
    }
    MulMono(w, (b - 2) * (y0 + 1), y0 * b);
    CancelLess(b - 2, q + 1, y);
  }

  lemma FloorOfScaled(x: real, z: int, yt: int, n: int)
    requires 0 < yt && x * yt as real == n as real && z == x.Floor
    ensures z * yt <= n < (z + 1) * yt
  {
    BelowProduct(z, x, yt, n);
    AboveProduct(x, z + 1, yt, n);
  }

  /** `Math.floor(a*d1+b*d2)` */
  function Estimate(a: int, b: int, d1: real, d2: real): int { (a as real * d1 + b as real * d2).Floor }

  /** Over exact quotients the source's expression is an integer division. */
  lemma EstimateFloor(a: int, b: int, f: int, g: int, yt: int, d1: real, d2: real)
    requires 0 < yt && d1 == f as real / yt as real && d2 == g as real / yt as real
    ensures Estimate(a, b, d1, d2) * yt <= a * f + b * g < (Estimate(a, b, d1, d2) + 1) * yt
  {
    SumOfQuotients(a, b, f, g, yt, d1, d2);
    FloorOfScaled(a as real * d1 + b as real * d2, Estimate(a, b, d1, d2), yt, a * f + b * g);
  }

  lemma SumOfQuotients(a: int, b: int, f: int, g: int, yt: int, d1: real, d2: real)
    requires 0 < yt && d1 == f as real / yt as real && d2 == g as real / yt as real
    ensures (a as real * d1 + b as real * d2) * yt as real == (a * f + b * g) as real
  {
    var y := yt as real;
    QuotientTimes(f as real, y);
    QuotientTimes(g as real, y);
    calc {
      (a as real * d1 + b as real * d2) * y;
    == { RealDistrib(a as real, d1, b as real, d2, y); }
      a as real * (d1 * y) + b as real * (d2 * y);
    == { assert d1 * y == f as real && d2 * y == g as real; }
      a as real * f as real + b as real * g as real;
    == { ProductCast(a, f); ProductCast(b, g); }
      (a * f) as real + (b * g) as real;
    }
  }

  lemma QuotientTimes(f: real, y: real)
    requires y > 0.0
    ensures (f / y) * y == f
  {
  }

  lemma ProductCast(a: int, f: int)
    ensures a as real * f as real == (a * f) as real
  {
  }

  lemma BelowProduct(k: int, x: real, yt: int, n: int)
    requires 0 < yt && k as real <= x && x * yt as real == n as real
    ensures k * yt <= n
  {
    RealMono(k as real, x, yt as real);
    ProductCast(k, yt);
  }

  lemma AboveProduct(x: real, k: int, yt: int, n: int)
    requires 0 < yt && x < k as real && x * yt as real == n as real
    ensures n < k * yt
  {
    RealMono(x, k as real, yt as real);
    ProductCast(k, yt);
  }

  lemma RealDistrib(a: real, u: real, b: real, v: real, y: real)
    ensures (a * u + b * v) * y == a * (u * y) + b * (v * y)
  {
  }

  lemma RealMono(a: real, b: real, y: real)
    requires a <= b && y > 0.0
    ensures a * y <= b * y && (a < b ==> a * y < b * y)
  {
  }

  /** r, the digits j, ..., j + ys of rd, is below DV times the divisor, and q is its quotient digit. */
  ghost predicate StepDomain(rd: Words, j: nat, yd: Words, ys: nat, q: int) {
    && Normalized(yd, ys) && AllDigits(rd, j, j + ys + 1)
    && IsQuotient(Part(rd, j, j + ys + 1), Part(yd, 0, ys), q)
    && Part(rd, j, j + ys + 1) < DV * Part(yd, 0, ys)
  }

  lemma QuotientIsDigit(rd: Words, j: nat, yd: Words, ys: nat, q: int)
    requires StepDomain(rd, j, yd, ys, q)
    ensures IsDigit(q) && 0 < Part(yd, 0, ys)
  {
    PartBound(rd, j, j + ys + 1);
    PartBound(yd, 0, ys);
    hide Part, Pow;
    var r, y := Part(rd, j, j + ys + 1), Part(yd, 0, ys);
    assert 0 < y;
    CancelLess(q, DV, y);
    CancelLess(-1, q, y) by {
      MulDistrib(y, q, 1);
      if q <= -1 { MulMono(y, q + 1, 0); }
    }
  }

  /** The number h of the two top digits of r, and the top digit alone, bound r. */
  lemma TopDigits(rd: Words, j: nat, ys: nat, h: int)
    requires ys > 0 && AllDigits(rd, j, j + ys + 1) && h == rd[j + ys] * DV + rd[j + ys - 1]
    ensures h * Pow(ys - 1) <= Part(rd, j, j + ys + 1) < (h + 1) * Pow(ys - 1)
    ensures (rd[j + ys] * DV) * Pow(ys - 1) <= Part(rd, j, j + ys + 1)
  {
    PartTop(rd, j, j + ys);
    PartTop(rd, j, j + ys - 1);
    PartBound(rd, j, j + ys - 1);
    assert Pow(ys) == DV * Pow(ys - 1);
    TopDigitsArith(DV, Part(rd, j, j + ys - 1), rd[j + ys - 1], rd[j + ys], Pow(ys - 1));
    hide *;
  }

  lemma TopDigitsArith(b: int, low: int, r2: int, r1: int, w: int)
    requires 0 <= low < w && 0 <= r2
    ensures (r1 * b + r2) * w <= low + r2 * w + r1 * (b * w) < (r1 * b + r2 + 1) * w
    ensures (r1 * b) * w <= low + r2 * w + r1 * (b * w)
  {
    MulAssoc(r1, b, w);
    MulDistrib(w, r1 * b, r2);
    MulDistrib(w, r1 * b + r2, 1);
    MulMono(w, 0, r2);
  }

  lemma TopDigitBound(yd: Words, ys: nat)
    requires ys > 0 && AllDigits(yd, 0, ys)
    ensures Part(yd, 0, ys) < (yd[ys - 1] + 1) * Pow(ys - 1)
  {
    hide Part, Pow;
    PartTop(yd, 0, ys - 1);
    PartBound(yd, 0, ys - 1);
    MulDistrib(Pow(ys - 1), yd[ys - 1], 1);
  }

  /** With exact arithmetic the estimate is the quotient digit or one more. */
  lemma EstimateIsClose(rd: Words, j: nat, yd: Words, ys: nat, q: int, est: int)
    requires StepDomain(rd, j, yd, ys, q)
    requires var n, yt := rd[j + ys] * FV + (rd[j + ys - 1] + TWO_F2) * TWO_F1, Leading(yd, ys); est * yt <= n < (est + 1) * yt
    ensures q <= est <= q + 1
  {
    QuotientIsDigit(rd, j, yd, ys, q);
    LeadingBounds(yd, ys);
    var yt, h := Leading(yd, ys), rd[j + ys] * DV + rd[j + ys - 1];
    TopDigits(rd, j, ys, h);
    hide Part, Pow, Leading;
    assert TWO_F1 * (h + TWO_F2) == rd[j + ys] * FV + (rd[j + ys - 1] + TWO_F2) * TWO_F1;
    assert 1 <= TWO_F2 && TWO_F1 * TWO_F2 == DV && q + 1 + TWO_F1 * TWO_F2 <= yt;
    EstimateNotBelow(Part(rd, j, j + ys + 1), h, Pow(ys - 1), Part(yd, 0, ys), TWO_F1, TWO_F2, yt, q, est);
    EstimateNotFarAbove(Part(rd, j, j + ys + 1), h, Pow(ys - 1), Part(yd, 0, ys), TWO_F1, TWO_F2, yt, q, est);
  }

  lemma EqualDigitIsClose(rd: Words, j: nat, yd: Words, ys: nat, q: int)
    requires StepDomain(rd, j, yd, ys, q) && rd[j + ys] == yd[ys - 1]
    ensures q <= DM <= q + 1
  {
    QuotientIsDigit(rd, j, yd, ys, q);
    TopDigits(rd, j, ys, rd[j + ys] * DV + rd[j + ys - 1]);
    TopDigitBound(yd, ys);
    hide Part, Pow;
    LeadingDigitsEqual(DV, Part(rd, j, j + ys + 1), Pow(ys - 1), yd[ys - 1], Part(yd, 0, ys), q);
  }
}
