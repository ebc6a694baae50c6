/** The Montgomery reducer of jsbn.js: division by R = DV^t modulo an odd m of t digits, without dividing. */
module MontgomeryReduction {
  import opened Arith
  import opened BigIntegers
  import opened Digits
  import Steps = DivisionSteps
  import opened Engine
  import opened InverseDigit
  import opened JsNumbers
  import opened Kernels
  import opened Modular
  import opened Products

  /** jsbn.js line 435. */
  method InvDigit(x: BigInteger) returns (z: int)
    requires x.Valid()
    ensures x.t == 0 || x.d[0] % 2 == 0 ==> z == 0
    ensures x.t > 0 && x.d[0] % 2 == 1 ==> 0 < z < DV && Congruent(x.d[0] * z, -1, DV)
  {
    if x.t < 1 {
      return 0;
    }
    PowIsPow2One();
    z := InverseOf(x.d[0], DB);
  }

  class Montgomery {
    const m: BigInteger
    const mp: int
    const mpl: int
    const mph: int
    const um: int
    const mt2: nat

    ghost predicate Valid()
      reads m
    {
      && m.Valid() && m.Clamped() && m.s == 0 && m.t > 0 && m.d[0] % 2 == 1
      && 0 < mp < DV && Congruent(m.d[0] * mp, -1, DV)
      && mpl == Mask(mp, 0x8000) && mph == Shr(mp, 0x8000) && um + 1 == TWO_DB15 && mt2 == 2 * m.t
    }

    /** jsbn.js line 451. */
    constructor (m: BigInteger)
      requires m.Valid() && m.Clamped() && m.s == 0 && m.t > 0 && m.d[0] % 2 == 1
      ensures Valid() && this.m == m
    {
      var z := InvDigit(m);
      this.m := m;
      this.mp := z;
      this.mpl := Mask(z, 0x8000);
      this.mph := Shr(z, 0x8000);
      this.um := TWO_DB15 - 1;
      this.mt2 := 2 * m.t;
    }
  }

  /** jsbn.js lines 483-484: x[i] * mp mod DV from 15-bit halves, without a product of more than 31 bits. */
  function MulDigit(xi: int, mpl: int, mph: int): (u0: int)
    requires IsDigit(xi) && 0 <= mpl < 0x8000 && 0 <= mph < TWO_DB15
    ensures IsDigit(u0)
  {
    var j := Mask(xi, 0x8000);
    ProductBound(j, mpl, 0x7fff, 0x7fff);
    ProductBound(j, mph, 0x7fff, 0x7fff);
    ProductBound(Shr(xi, 0x8000), mpl, 0x7fff, 0x7fff);
    Mask(j * mpl + Shl(Mask(j * mph + Shr(xi, 0x8000) * mpl, TWO_DB15), 0x8000), DV)
  }

  lemma MulDigitIsProduct(xi: int, mp: int)
    requires IsDigit(xi) && IsDigit(mp)
    ensures Congruent(MulDigit(xi, Mask(mp, 0x8000), Shr(mp, 0x8000)), xi * mp, DV)
  {
    var k := 0x8000;
    var j, h, l, g := xi % k, xi / k, mp % k, mp / k;
    var s := j * g + h * l;
    var q := s / TWO_DB15;
    HalvesProduct(k, xi, j, h, mp, l, g);
    assert k * TWO_DB15 == DV && k * k == DV * (k / TWO_DB15);
    assert k * (s % TWO_DB15) == k * s - DV * q;
    var a := j * l + (s % TWO_DB15) * k;
    MulAssoc(DV, k / TWO_DB15, h * g);
    assert xi * mp == a + DV * (q + (k / TWO_DB15) * (h * g)) by {
      MulDistrib(DV, q, (k / TWO_DB15) * (h * g));
    }
    CongruentBy(a, xi * mp, DV, -(q + (k / TWO_DB15) * (h * g)));
    CongruentMod(a, DV);
    CongruentTrans(a % DV, a, xi * mp, DV);
  }

  lemma HalvesProduct(k: int, x: int, j: int, h: int, y: int, l: int, g: int)
    requires x == j + k * h && y == l + k * g
    ensures x * y == j * l + k * (j * g + h * l) + (k * k) * (h * g)
  {
    MulDistrib(x, l, k * g);
    MulDistrib(l, j, k * h);
    MulDistrib(k * g, j, k * h);
    MulDistrib(k, j * g, h * l);
    MulAssoc(k, h, l);
    MulAssoc(k, j, g);
    assert (k * g) * (k * h) == (k * k) * (h * g);
  }

  /** After i rows: u multiples of m have been added to x0, and the i lowest digits are 0. */
  ghost predicate Reducing(xd: Words, n: nat, i: nat, x0: int, mv: int, u: int) {
    Part(xd, 0, n) == x0 + u * mv && 0 <= u < Pow(i) && Part(xd, 0, i) == 0
  }

  /** jsbn.js line 489: a digit j that is too large passes its carry on. The number has room for it in its n digits. */
  method Propagate(x: BigInteger, j0: nat, ghost n: nat)
    requires j0 < n && AllDigits(x.d, 0, j0) && AllDigits(x.d, j0 + 1, n) && j0 in x.d && 0 <= x.d[j0] < 2 * DV
    requires Part(x.d, 0, n) < Pow(n)
    modifies x`d
    ensures AllDigits(x.d, 0, n) && Part(x.d, 0, n) == old(Part(x.d, 0, n)) && Same(x.d, old(x.d), 0, j0)
  {
    hide Part, Pow;
    var j := j0;
    RoomForCarry(x.d, j, n);
    while x.d[j] >= DV
      invariant j0 <= j < n && AllDigits(x.d, 0, j) && AllDigits(x.d, j + 1, n) && j in x.d && 0 <= x.d[j] < 2 * DV
      invariant Part(x.d, 0, n) == old(Part(x.d, 0, n)) && Same(x.d, old(x.d), 0, j0)
      invariant x.d[j] >= DV ==> j + 1 < n
      decreases n - j
    {
      ghost var xd := x.d;
      x.d := x.d[j := x.d[j] - DV];
      j := j + 1;
      x.d := x.d[j := x.d[j] + 1];
      CarryPassed(xd, x.d, j - 1, n);
      RoomForCarry(x.d, j, n);
    }
  }

  lemma RoomForCarry(xd: Words, j: nat, n: nat)
    requires j < n && AllDigits(xd, 0, j) && j in xd && Part(xd, 0, n) < Pow(n)
    ensures xd[j] >= DV ==> j + 1 < n
  {
    hide Part, Pow;
    if j + 1 == n {
      PartTop(xd, 0, j);
      PartBound(xd, 0, j);
      if xd[j] >= DV {
        MulMono(Pow(j), DV, xd[j]);
        PowNext(j);
      }
    }
  }

  lemma PowNext(j: nat)
    ensures Pow(j + 1) == DV * Pow(j)
  {
  }

  lemma CarryPassed(xd: Words, e: Words, j: nat, n: nat)
    requires j + 1 < n && Same(xd, e, 0, j) && Same(xd, e, j + 2, n)
    requires Get(e, j) == Get(xd, j) - DV && Get(e, j + 1) == Get(xd, j + 1) + 1
    ensures Part(e, 0, n) == Part(xd, 0, n)
  {
    PartTop(xd, j, j);
    PartTop(e, j, j);
    PartTop(xd, j, j + 1);
    PartTop(e, j, j + 1);
    PowNext(0);
    assert Pow(0) == 1;
    hide Part, Pow;
    AddedAtValue(e, xd, j, j + 2, n, 0);
  }

  /** jsbn.js lines 483-487, row i: add the multiple of m that clears digit i. Digit i + t may become too large. */
  method AddRow(g: Montgomery, x: BigInteger, i: nat, ghost x0: int, ghost u: int) returns (ghost u': int)
    requires g.Valid() && x != g.m && i < g.m.t && x.t == 2 * g.m.t + 1 && AllDigits(x.d, 0, x.t)
    requires Reducing(x.d, x.t, i, x0, g.m.Value(), u)
    modifies x`d
    ensures AllDigits(x.d, 0, i + g.m.t) && AllDigits(x.d, i + g.m.t + 1, x.t)
    ensures i + g.m.t in x.d && 0 <= x.d[i + g.m.t] < 2 * DV
    ensures Part(x.d, 0, x.t) == x0 + u' * g.m.Value() && 0 <= u' < Pow(i + 1) && Part(x.d, 0, i + 1) == 0
  {
    ghost var t, md, xd, n := g.m.t, g.m.d, x.d, x.t;
    ValUnfold(md, t, 0);
    hide Part, Pow, Val, AmSafe, MulDigit, Congruent, MulAdded, Reducing;
    var u0 := MulDigit(x.d[i], g.mpl, g.mph);
    MulDigitIsProduct(x.d[i], g.mp);
    AmSafeWhen(u0, 0);
    var j := i + g.m.t;
    var top := x.d[j];
    var c := g.m.Am(0, u0, x, i, 0, g.m.t);
    ghost var wd := x.d;
    RowClears(xd, wd, i, md, t, u0, c, g.mp);
    x.d := x.d[j := top + c];
    u' := u + u0 * Pow(i);
    RowValue(xd, wd, x.d, n, i, t, md, u0, c, x0, u, u');
    RowBound(xd, x.d, n, i, x0, Part(md, 0, t), u, u0, u');
  }

  /** jsbn.js lines 483-489: row i with its carry propagated. */
  method ReduceRow(g: Montgomery, x: BigInteger, i: nat, ghost x0: int, ghost u: int) returns (ghost u': int)
    requires g.Valid() && x != g.m && i < g.m.t && x.t == 2 * g.m.t + 1 && AllDigits(x.d, 0, x.t)
    requires 0 <= x0 < g.m.Value() * Pow(g.m.t) && Reducing(x.d, x.t, i, x0, g.m.Value(), u)
    modifies x`d
    ensures AllDigits(x.d, 0, x.t) && Reducing(x.d, x.t, i + 1, x0, g.m.Value(), u')
  {
    ghost var t, mv, n := g.m.t, g.m.Value(), x.t;
    ClampedRange(g.m.d, t, 0);
    ValRange(g.m.d, t, 0);
    hide Part, Pow, Val;
    u' := AddRow(g, x, i, x0, u);
    ghost var wd := x.d;
    PowMono(i + 1, t);
    RowRoom(x0, mv, t, u', n);
    Propagate(x, i + g.m.t, n);
    PartFrame(x.d, wd, 0, i + 1);
  }

  /** The row adds u0 * m * DV^i to the whole number. */
  lemma RowValue(xd: Words, wd: Words, e: Words, n: nat, i: nat, t: nat, md: Words, u0: int, c: int, x0: int, u: int, u': int)
    requires 0 < t && i + t < n && Reducing(xd, n, i, x0, Part(md, 0, t), u) && u' == u + u0 * Pow(i)
    requires MulAdded(wd, xd, i, md, 0, t, u0, 0, c)
    requires Same(xd, e, 0, i) && Same(wd, e, i, i + t) && Get(e, i + t) == Get(xd, i + t) + c && Same(xd, e, i + t + 1, n)
    ensures Part(e, 0, n) == x0 + u' * Part(md, 0, t)
  {
    hide Part, Pow;
    Steps.MultipleAdded(wd, xd, e, i, t, md, u0, c);
    AddedAtValue(e, xd, i, i + t + 1, n, u0 * Part(md, 0, t));
    RowSum(u, u0, Pow(i), Part(md, 0, t));
  }

  lemma RowSum(u: int, u0: int, p: int, m: int)
    ensures u * m + p * (u0 * m) == (u + u0 * p) * m
  {
    MulDistrib(m, u, u0 * p);
    MulAssoc(p, u0, m);
  }

  lemma RowBound(xd: Words, e: Words, n: nat, i: nat, x0: int, mv: int, u: int, u0: int, u': int)
    requires Reducing(xd, n, i, x0, mv, u) && IsDigit(u0) && u' == u + u0 * Pow(i)
    requires Same(xd, e, 0, i) && Get(e, i) == 0
    ensures 0 <= u' < Pow(i + 1) && Part(e, 0, i + 1) == 0
  {
    hide Part, Pow;
    PartFrame(xd, e, 0, i);
    PartTop(e, 0, i);
    PowNext(i);
    BoundArith(u, u0, Pow(i));
  }

  lemma BoundArith(u: int, u0: int, p: int)
    requires 0 <= u < p && IsDigit(u0)
    ensures 0 <= u + u0 * p < DV * p && 0 * p == 0
  {
    MulMono(p, 0, u0);
    MulMono(p, u0 + 1, DV);
    MulDistrib(p, u0, 1);
  }

  /** u0 was chosen so that digit i of the row's result is 0. */
  lemma RowClears(xd: Words, wd: Words, i: nat, md: Words, t: nat, u0: int, c: int, mp: int)
    requires 0 < t && AllDigits(wd, i, i + t) && MulAdded(wd, xd, i, md, 0, t, u0, 0, c)
    requires Congruent(u0, Get(xd, i) * mp, DV) && Congruent(Get(md, 0) * mp, -1, DV)
    ensures Get(wd, i) == 0
  {
    PartLow(wd, i, i + t);
    PartLow(xd, i, i + t);
    PartLow(md, 0, t);
    PowNext(t - 1);
    hide Part, Pow;
    ClearsProduct(u0, Get(xd, i), Get(md, 0), mp);
    ClearsArith(Get(wd, i), Get(xd, i), u0, Get(md, 0),
                Part(xd, i + 1, i + t), Part(md, 1, t), Part(wd, i + 1, i + t), c, Pow(t - 1));
  }

  lemma ClearsProduct(u0: int, x: int, m0: int, mp: int)
    requires Congruent(u0, x * mp, DV) && Congruent(m0 * mp, -1, DV)
    ensures Congruent(u0 * m0, -x, DV)
  {
    hide Congruent;
    CongruentBy(m0, m0, DV, 0);
    CongruentBy(x, x, DV, 0);
    CongruentMul(u0, x * mp, m0, m0, DV);
    CongruentMul(x, x, m0 * mp, -1, DV);
    MulAssoc(x, mp, m0);
    CongruentTrans(u0 * m0, x * (m0 * mp), x * -1, DV);
  }

  lemma ClearsArith(w: int, x: int, u0: int, m0: int, a: int, b: int, d: int, c: int, p: int)
    requires w + DV * d + c * (DV * p) == x + DV * a + u0 * (m0 + DV * b)
    requires Congruent(u0 * m0, -x, DV) && IsDigit(w)
    ensures w == 0
  {
    var k := Multiplier(u0 * m0, -x, DV);
    hide Congruent;
    MulDistrib(u0, m0, DV * b);
    MulAssoc(u0, DV, b);
    MulAssoc(DV, u0, b);
    MulAssoc(c, DV, p);
    MulAssoc(DV, c, p);
    assert w == DV * (a + k + u0 * b - d - c * p);
    FloorDiv(w, DV, 0, w);
    FloorDiv(w, DV, a + k + u0 * b - d - c * p, 0);
  }

  /** All rows together stay below 2 * m * R, which fits into 2t + 1 digits. */
  lemma RowRoom(x0: int, mv: int, t: nat, u': int, n: nat)
    requires 0 <= x0 < mv * Pow(t) && 0 < mv < Pow(t) && 0 <= u' <= Pow(t) && n == 2 * t + 1
    ensures x0 + u' * mv < Pow(n)
  {
    hide Pow;
    PowNext(2 * t);
    PowAdd(t, t);
    RoomArith(x0, mv, u', Pow(t), Pow(2 * t));
  }

  lemma RoomArith(x0: int, m: int, u: int, q: int, q2: int)
    requires x0 < m * q && 0 < m < q && u <= q && q2 == q * q
    ensures x0 + u * m < DV * q2
  {
    MulMono(m, u, q);
    MulMono(q, m, q);
    MulMono(q2, 2, DV);
  }

  /** jsbn.js lines 479-480: pad x to 2t + 1 digits. */
  method Pad(x: BigInteger, n: nat)
    requires x.Valid() && x.s == 0 && x.t <= n
    modifies x
    ensures x.Valid() && x.s == 0 && x.t == n && Part(x.d, 0, n) == old(x.Value())
  {
    hide Part, Pow, Val;
    while x.t < n
      invariant x.Valid() && x.s == 0 && x.t <= n && x.Value() == old(x.Value())
      decreases n - x.t
    {
      Steps.PadZero(x.d, x.t);
      x.d := x.d[x.t := 0];
      x.t := x.t + 1;
    }
    ValUnfold(x.d, n, 0);
  }

  /** jsbn.js line 478: x = x/R mod m, for R = DV^t. */
  method Reduce(g: Montgomery, x: BigInteger)
    requires g.Valid() && x != g.m && x.Valid() && x.Clamped() && x.s == 0
    requires x.Value() < g.m.Value() * Pow(g.m.t)
    modifies x
    ensures x.Valid() && x.Clamped() && 0 <= x.Value() < g.m.Value()
    ensures Congruent(x.Value() * Pow(g.m.t), old(x.Value()), g.m.Value())
  {
    ghost var x0, mv, t := x.Value(), g.m.Value(), g.m.t;
    hide Part, Pow, Val, Congruent, Reducing;
    ValRange(x.d, x.t, x.s);
    ClampedRange(g.m.d, t, 0);
    ValRange(g.m.d, t, 0);
    FitsTwice(x.d, x.t, x.s, mv, t);
    Pad(x, g.mt2 + 1);
    var i := 0;
    ReducingStart(x.d, x.t, x0, mv);
    ghost var u := 0;
    while i < g.m.t
      invariant 0 <= i <= t && x.t == 2 * t + 1 && x.s == 0 && AllDigits(x.d, 0, x.t) && Reducing(x.d, x.t, i, x0, mv, u)
    {
      u := ReduceRow(g, x, i, x0, u);
      i := i + 1;
    }
    ReducingEnd(x.d, x.t, t, x0, mv, u);
    x.Clamp();
    x.DRShiftTo(g.m.t, x);
    var c := x.CompareTo(g.m);
    if c >= 0 {
      x.SubTo(g.m, x);
    }
  }

  lemma FitsTwice(xd: Words, xt: nat, s: int, mv: int, t: nat)
    requires WellFormed(xd, xt, s) && IsClamped(xd, xt, s) && s == 0 && Val(xd, xt, s) < mv * Pow(t) && mv < Pow(t)
    ensures xt <= 2 * t
  {
    hide Pow, Val, Part;
    ValRange(xd, xt, s);
    PowAdd(t, t);
    MulMono(Pow(t), mv, Pow(t));
    ClampedLength(xd, xt, s, 2 * t);
  }

  lemma ReducingStart(xd: Words, n: nat, x0: int, mv: int)
    requires Part(xd, 0, n) == x0
    ensures Reducing(xd, n, 0, x0, mv, 0)
  {
  }

  /** After t rows R divides the number, and the quotient y is x0 / R modulo m; it is below 2 * m. */
  lemma ReducingEnd(xd: Words, n: nat, t: nat, x0: int, mv: int, u: int)
    requires n == 2 * t + 1 && AllDigits(xd, 0, n) && Reducing(xd, n, t, x0, mv, u) && 0 <= x0 < mv * Pow(t) && 0 < mv
    ensures var y := Val(xd, n, 0) / Pow(t);
      0 <= y < 2 * mv && Congruent(y * Pow(t), x0, mv) && Congruent((y - mv) * Pow(t), x0, mv)
  {
    hide Part, Pow, Val;
    PartBound(xd, t, n);
    DropDigits(xd, t, n, 0);
    TailSplit(xd, t, n, 0);
    ValUnfold(xd, n, 0);
    EndArith(Tail(xd, t, n, 0), Pow(t), x0, u, mv, Val(xd, n, 0));
  }

  lemma EndArith(y: int, r: int, x0: int, u: int, m: int, v: int)
    requires 0 < r && 0 < m && 0 <= x0 < m * r && 0 <= u < r && v == x0 + u * m && v == 0 + r * y
    ensures 0 <= y < 2 * m && Congruent(y * r, x0, m) && Congruent((y - m) * r, x0, m)
  {
    MulMono(m, 0, u);
    MulMono(m, u, r);
    if y < 0 {
      MulMono(r, y, -1);
    } else if y >= 2 * m {
      MulMono(r, 2 * m, y);
    }
    CongruentBy(y * r, x0, m, u);
    MulDistrib(r, y, m);
    MulDistrib(m, u, r);
    CongruentBy((y - m) * r, x0, m, u - r);
  }
}
