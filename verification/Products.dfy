/** The rows of the schoolbook product, and of the squaring that computes each cross term once. */
module Products {
  import opened Arith
  import opened Digits
  import opened Engine
  import opened Kernels

  /** The first i rows of the schoolbook product. */
  ghost predicate ProductOf(rd: Words, xd: Words, xt: nat, yd: Words, i: nat) {
    Part(rd, 0, i + xt) == Part(xd, 0, xt) * Part(yd, 0, i)
  }

  lemma ProductStart(rd: Words, xd: Words, xt: nat, yd: Words)
    requires forall k :: 0 <= k < xt ==> Get(rd, k) == 0
    ensures ProductOf(rd, xd, xt, yd, 0)
  {
    PartZero(rd, 0, xt);
  }

  /** One row of the schoolbook product, with its carry as a new top digit. */
  lemma ProductStep(rd: Words, wd: Words, xd: Words, xt: nat, yd: Words, i: nat, c: int)
    requires ProductOf(rd, xd, xt, yd, i)
    requires MulAdded(wd, rd, i, xd, 0, xt, Get(yd, i), 0, c) && Same(rd, wd, 0, i)
    ensures ProductOf(wd[i + xt := c], xd, xt, yd, i + 1)
  {
    hide Part, Pow;
    var e := wd[i + xt := c];
    PartSplit(rd, 0, i, i + xt);
    PartSplit(e, 0, i, i + xt + 1);
    PartFrame(rd, e, 0, i);
    PartFrame(wd, e, i, i + xt);
    PartTop(e, i, i + xt);
    PartTop(yd, 0, i);
    assert i + 1 + xt == i + xt + 1;
    ProductArith(Part(e, 0, i), Part(rd, i, i + xt), Part(wd, i, i + xt) + c * Pow(xt), Pow(i), Part(xd, 0, xt),
      Part(yd, 0, i), Get(yd, i));
  }

  lemma ProductArith(low: int, old': int, new': int, p: int, x: int, y: int, yi: int)
    requires low + p * old' == x * y && new' == old' + yi * x + 0
    ensures low + p * new' == x * (y + yi * p)
  {
    MulDistrib(p, old', yi * x);
    MulDistrib(x, y, yi * p);
    MulAssoc(p, yi, x);
    MulAssoc(x, yi, p);
  }

  lemma ProductEnd(rd: Words, xd: Words, xt: nat, yd: Words, yt: nat)
    requires ProductOf(rd, xd, xt, yd, yt)
    ensures Val(rd, xt + yt, 0) == Val(xd, xt, 0) * Val(yd, yt, 0)
  {
    assert yt + xt == xt + yt;
    hide Part, Pow;
  }

  /** The product of the magnitudes, with its sign put back. */
  lemma SignedProduct(a: int, b: int, x: int, y: int)
    requires x == (if a < 0 then -a else a) && y == (if b < 0 then -b else b)
    ensures (a < 0) == (b < 0) ==> x * y == a * b
    ensures (a < 0) != (b < 0) ==> x * y == -(a * b)
  {
  }

  /** The first i rows of the square; the rest of x still has to be squared. */
  ghost predicate SquareOf(rd: Words, xd: Words, xt: nat, i: nat) {
    i <= xt && Part(rd, 0, 2 * xt) + Pow(2 * i) * (Part(xd, i, xt) * Part(xd, i, xt)) == Part(xd, 0, xt) * Part(xd, 0, xt)
  }

  lemma SquareStart(rd: Words, xd: Words, xt: nat)
    requires forall k :: 0 <= k < 2 * xt ==> Get(rd, k) == 0
    ensures SquareOf(rd, xd, xt, 0)
  {
    PartZero(rd, 0, 2 * xt);
  }

  /** x times DV^a is added to digits a, ..., b - 1, and nothing else changes. */
  ghost predicate AddedAt(wd: Words, rd: Words, a: nat, b: int, t: int, x: int) {
    a <= b <= t && Same(rd, wd, 0, a) && Same(rd, wd, b, t) && Part(wd, a, b) == Part(rd, a, b) + x
  }

  lemma AddedAtValue(wd: Words, rd: Words, a: nat, b: int, t: int, x: int)
    requires AddedAt(wd, rd, a, b, t, x)
    ensures Part(wd, 0, t) == Part(rd, 0, t) + Pow(a) * x
  {
    PartSplit(rd, 0, a, t);
    PartSplit(wd, 0, a, t);
    PartSplit(rd, a, b, t);
    PartSplit(wd, a, b, t);
    PartFrame(rd, wd, 0, a);
    PartFrame(rd, wd, b, t);
    hide Part, Pow, Same;
    MulDistrib(Pow(a), Part(rd, a, t), x);
  }

  lemma MulAddedAt(wd: Words, rd: Words, j: nat, td: Words, i: nat, n: nat, x: int, c0: int, c: int, t: int)
    requires MulAdded(wd, rd, j, td, i, n, x, c0, c) && j + n <= t
    requires Same(rd, wd, 0, j) && Same(rd, wd, j + n, t)
    ensures AddedAt(wd, rd, j, j + n, t, x * Part(td, i, i + n) + c0 - c * Pow(n))
  {
    hide Part, Pow, Same;
  }

  /** am with n = 1 adds a single product. */
  lemma MulAddedOne(wd: Words, rd: Words, j: nat, td: Words, i: nat, x: int, c: int, t: int)
    requires MulAdded(wd, rd, j, td, i, 1, x, 0, c) && j + 1 <= t
    requires Same(rd, wd, 0, j) && Same(rd, wd, j + 1, t)
    ensures AddedAt(wd, rd, j, j + 1, t, x * Get(td, i) - c * DV)
  {
    PartTop(td, i, i);
    assert Part(td, i, i) == 0 && Pow(0) == 1 && Pow(1) == DV * Pow(0);
    hide Part, Pow, Same;
  }

  /** A carry into a digit that may overflow once, into a digit that is still 0. */
  lemma CarryAdded(wd: Words, rd: Words, a: nat, c: int, t: int)
    requires a < t && Same(rd, wd, 0, a)
    requires if Get(rd, a) + c < DV
      then Same(rd, wd, a + 1, t) && Get(wd, a) == Get(rd, a) + c
      else a + 1 < t && Same(rd, wd, a + 2, t) && Get(wd, a) == Get(rd, a) + c - DV && Get(rd, a + 1) == 0 && Get(wd, a + 1) == 1
    ensures AddedAt(wd, rd, a, if Get(rd, a) + c < DV then a + 1 else a + 2, t, c)
  {
    PartTop(rd, a, a);
    PartTop(wd, a, a);
    PartTop(rd, a, a + 1);
    PartTop(wd, a, a + 1);
    assert Pow(0) == 1 && Pow(1) == DV * Pow(0);
  }

  lemma OneDigitAdded(wd: Words, rd: Words, a: nat, c: int)
    requires Same(rd, wd, 0, a) && Get(wd, a) == Get(rd, a) + c
    ensures AddedAt(wd, rd, a, a + 1, a + 1, c)
  {
    PartTop(rd, a, a);
    PartTop(wd, a, a);
  }

  lemma SquareEnd(rd: Words, xd: Words, xt: nat)
    requires SquareOf(rd, xd, xt, xt)
    ensures Val(rd, 2 * xt, 0) == Val(xd, xt, 0) * Val(xd, xt, 0)
  {
  }

  /** The square of a number of xt digits has 2 * xt digits, so the last carry cannot overflow. */
  lemma SquareFits(rd: Words, xd: Words, xt: nat)
    requires xt > 0 && AllDigits(xd, 0, xt) && AllDigits(rd, 0, 2 * xt - 1)
    requires Val(rd, 2 * xt, 0) == Val(xd, xt, 0) * Val(xd, xt, 0)
    ensures Get(rd, 2 * xt - 1) < DV
  {
    PartBound(xd, 0, xt);
    PartBound(rd, 0, 2 * xt - 1);
    PowAdd(xt, xt);
    assert Pow(2 * xt) == DV * Pow(2 * xt - 1);
    PartTop(rd, 0, 2 * xt - 1);
    hide Part, Pow;
    FitsArith(Part(xd, 0, xt), Pow(xt), Part(rd, 0, 2 * xt - 1), Get(rd, 2 * xt - 1), Pow(2 * xt - 1));
  }

  lemma FitsArith(x: int, q: int, low: int, g: int, w: int)
    requires 0 <= x < q && 0 <= low && 0 < w && DV * w == q * q && low + g * w == x * x
    ensures g < DV
  {
    ProductBound(x, x, q - 1, q - 1);
    assert (q - 1) * (q - 1) == q * q - 2 * q + 1;
    if g >= DV {
      MulMono(w, DV, g);
    }
  }

  /** Row i without its last carry c2: the square of digit i, and twice digit i times the digits above it. */
  ghost predicate RowAdded(wd: Words, rd: Words, xd: Words, xt: nat, i: nat, c2: int) {
    i < xt && Part(wd, 0, 2 * xt) + Pow(i + xt) * c2 == Part(rd, 0, 2 * xt)
      + Pow(2 * i) * (Get(xd, i) * Get(xd, i) + DV * (2 * Get(xd, i) * Part(xd, i + 1, xt)))
  }

  lemma RowProducts(rd: Words, w1: Words, w2: Words, xd: Words, xt: nat, i: nat, c: int, c2: int)
    requires i < xt
    requires AddedAt(w1, rd, 2 * i, 2 * i + 1, 2 * xt, Get(xd, i) * Get(xd, i) - c * DV)
    requires AddedAt(w2, w1, 2 * i + 1, i + xt, 2 * xt, 2 * Get(xd, i) * Part(xd, i + 1, xt) + c - c2 * Pow(xt - i - 1))
    ensures RowAdded(w2, rd, xd, xt, i, c2)
  {
    AddedAtValue(w1, rd, 2 * i, 2 * i + 1, 2 * xt, Get(xd, i) * Get(xd, i) - c * DV);
    AddedAtValue(w2, w1, 2 * i + 1, i + xt, 2 * xt, 2 * Get(xd, i) * Part(xd, i + 1, xt) + c - c2 * Pow(xt - i - 1));
    assert Pow(2 * i + 1) == DV * Pow(2 * i);
    PowAdd(2 * i + 1, xt - i - 1);
    assert 2 * i + 1 + (xt - i - 1) == i + xt;
    hide Part, Pow, Get, AddedAt;
    RowArith(Pow(2 * i), Get(xd, i) * Get(xd, i), 2 * Get(xd, i) * Part(xd, i + 1, xt), c, c2, Pow(xt - i - 1));
  }

  lemma RowArith(p: int, x2: int, h: int, c: int, c2: int, q: int)
    ensures p * (x2 - c * DV) + (DV * p) * (h + c - c2 * q) + (DV * p) * q * c2 == p * (x2 + DV * h)
  {
    MulDistrib(p, x2, c * DV);
    MulDistrib(p, x2, DV * h);
    MulDistrib(DV * p, h + c, c2 * q);
    MulDistrib(DV * p, h, c);
    assert p * (c * DV) == (DV * p) * c;
    assert p * (DV * h) == (DV * p) * h;
    assert (DV * p) * (c2 * q) == (DV * p) * q * c2;
  }

  lemma RowCarry(rd: Words, wd: Words, e: Words, xd: Words, xt: nat, i: nat, c2: int, b: int)
    requires SquareOf(rd, xd, xt, i) && RowAdded(wd, rd, xd, xt, i, c2) && AddedAt(e, wd, i + xt, b, 2 * xt, c2)
    ensures SquareOf(e, xd, xt, i + 1)
  {
    AddedAtValue(e, wd, i + xt, b, 2 * xt, c2);
    PartLow(xd, i, xt);
    assert Pow(2 * i + 1) == DV * Pow(2 * i) && Pow(2 * (i + 1)) == DV * Pow(2 * i + 1);
    hide Part, Pow, Get, AddedAt;
    SquareArith(Pow(2 * i), Get(xd, i), Part(xd, i + 1, xt));
  }

  lemma SquareArith(p: int, x: int, h: int)
    ensures p * (x * x + DV * (2 * x * h)) + DV * (DV * p) * (h * h) == p * ((x + DV * h) * (x + DV * h))
  {
    var y := DV * h;
    MulDistrib(x + y, x, y);
    MulDistrib(x, x, y);
    MulDistrib(y, x, y);
    MulAssoc(DV, 2 * x, h);
    MulAssoc(2 * x, DV, h);
    assert 2 * x * y == DV * (2 * x * h);
    MulDistrib(p, x * x + DV * (2 * x * h), y * y);
    SquaredHigh(p, h);
  }

  lemma SquaredHigh(p: int, h: int)
    ensures DV * (DV * p) * (h * h) == p * ((DV * h) * (DV * h))
  {
    MulAssoc(DV * h, DV, h);
    MulAssoc(DV, DV, h * h);
  }
}
