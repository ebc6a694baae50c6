/** divRemTo and mod of jsbn.js. The first parameter of each method is the object it is called on. */
module Division {
  import opened Arith
  import opened BigIntegers
  import opened Bits
  import opened Digits
  import opened DivisionSteps
  import opened Engine
  import opened JsNumbers
  import opened Kernels
  import opened QuotientDigit

  /** jsbn.js line 384, `r[i] += y.am(0,qd,r,j,0,ys)`: a multiple of y goes into digits j, ..., j + ys of r. */
  method AddMultiple(r: BigInteger, y: BigInteger, qd: int, j: nat, ys: nat)
    requires r != y && r.Valid() && j + ys < r.t && AllDigits(y.d, 0, ys) && 0 <= qd <= DV
    requires Part(r.d, j, j + ys + 1) + qd * Part(y.d, 0, ys) < DV * Pow(ys)
    modifies r`d
    ensures r.Valid() && Part(r.d, j, j + ys + 1) == old(Part(r.d, j, j + ys + 1)) + qd * Part(y.d, 0, ys)
    ensures Same(r.d, old(r.d), 0, j) && Same(r.d, old(r.d), j + ys + 1, r.t)
  {
    hide Part, Pow, AmSafe;
    AmSafeWhen(qd, 0);
    var i := j + ys;
    var top := r.d[i];
    var c := y.Am(0, qd, r, j, 0, ys);
    ghost var wd := r.d;
    r.d := r.d[i := top + c];
    MultipleAdded(wd, old(r.d), r.d, j, ys, y.d, qd, c);
    TopDigitFits(r.d, j, ys);
  }

  /** What line 385 finds: r's digits j, ..., j + ys hold rem + qd * x, where x is DV^ys minus the divisor yv. */
  ghost predicate Trying(rd: Words, t: nat, s: int, j: nat, ys: nat, yv: int, q: int, rem: int, qd: int, low: int, high: int) {
    && WellFormed(rd, t, s) && s == 0 && j + ys < t && 0 < yv < Pow(ys) && 0 <= rem && IsQuotient(rem, yv, q) && 0 <= q <= qd
    && Part(rd, 0, j) == low && Part(rd, j + ys + 1, t) == high
    && Part(rd, j, j + ys + 1) == rem + qd * (Pow(ys) - yv)
    && TopSet(rem, ys + 1, high, t - j - ys - 1)
  }

  lemma TryingTest(rd: Words, t: nat, s: int, j: nat, ys: nat, yv: int, q: int, rem: int, qd: int, low: int, high: int)
    requires Trying(rd, t, s, j, ys, yv, q, rem, qd, low, high)
    ensures if Get(rd, j + ys) < qd then q < qd else q == qd
    ensures IsClamped(rd, t, s)
  {
    hide Part, Pow;
    TopDigitTest(rd, j, ys, rem, qd, yv);
    if Get(rd, j + ys) < qd {
      QuotientBelow(rem, yv, q, qd);
    } else {
      QuotientFound(rem, yv, q, qd);
    }
    ProductBound(qd, Pow(ys) - yv, qd, Pow(ys) - yv);
    TopSetMono(rem, Part(rd, j, j + ys + 1), ys + 1, high, t - j - ys - 1);
    SetIsClamped(rd, t, j, ys);
  }

  /** jsbn.js lines 384-388: try the digit qd and take the multiple back as long as qd is too large. The estimate
      may be too large by any amount; the loop stops at the quotient digit q. y holds DV^ys minus the divisor yv. */
  method TryDigit(r: BigInteger, y: BigInteger, t: BigInteger, qd: int, j: nat, ys: nat, ghost yv: int, ghost q: int)
    requires r != y && r != t && t != y && r.Valid() && r.Clamped() && r.s == 0 && j + ys < r.t
    requires y.Valid() && y.t == ys && y.s == 0 && 0 < yv < Pow(ys) && Part(y.d, 0, ys) == Pow(ys) - yv
    requires IsQuotient(Part(r.d, j, j + ys + 1), yv, q) && Part(r.d, j, j + ys + 1) < DV * yv
    requires 0 <= q <= qd <= DV
    modifies r, t
    ensures r.Valid() && r.Clamped() && r.s == 0 && r.t == old(r.t)
    ensures Part(r.d, j, j + ys + 1) == old(Part(r.d, j, j + ys + 1)) + q * (Pow(ys) - yv)
    ensures Part(r.d, 0, j) == old(Part(r.d, 0, j)) && Part(r.d, j + ys + 1, r.t) == old(Part(r.d, j + ys + 1, r.t))
  {
    hide Part, Pow, IsQuotient, Val, TopSet;
    var i := j + ys;
    ghost var rem, low, high := Part(r.d, j, i + 1), Part(r.d, 0, j), Part(r.d, i + 1, r.t);
    PartBound(r.d, j, i + 1);
    RowFits(rem, yv, q, qd, Pow(ys));
    TopIsSet(r.d, r.t, j, ys);
    AddMultiple(r, y, qd, j, ys);
    PartFrame(r.d, old(r.d), 0, j);
    PartFrame(r.d, old(r.d), i + 1, r.t);
    TryingTest(r.d, r.t, r.s, j, ys, yv, q, rem, qd, low, high);
    if r.d[i] < qd {
      CorrectDigit(r, y, t, qd, j, ys, yv, q, rem, low, high);
    }
  }

  /** jsbn.js lines 385-387. */
  method CorrectDigit(r: BigInteger, y: BigInteger, t: BigInteger, qd0: int, j: nat, ys: nat,
                      ghost yv: int, ghost q: int, ghost rem: int, ghost low: int, ghost high: int)
    requires r != y && r != t && t != y && Trying(r.d, r.t, r.s, j, ys, yv, q, rem, qd0, low, high) && q < qd0
    requires y.Valid() && y.t == ys && y.s == 0 && Part(y.d, 0, ys) == Pow(ys) - yv
    modifies r, t
    ensures r.t == old(r.t) && r.Clamped() && Trying(r.d, r.t, r.s, j, ys, yv, q, rem, q, low, high)
  {
    var i, qd := j + ys, qd0;
    ghost var rt := r.t;
    ValUnfold(y.d, ys, 0);
    hide Part, Pow, Val, Trying;
    y.DLShiftTo(j, t);
    TakeBack(r, t, j, ys, yv, q, rem, qd, low, high);
    qd := qd - 1;
    TryingTest(r.d, rt, r.s, j, ys, yv, q, rem, qd, low, high);
    while r.d[i] < qd
      invariant r.t == rt && r.Valid() && i < rt && q <= qd && t.Valid() && t.Value() == Pow(j) * (Pow(ys) - yv)
      invariant Trying(r.d, rt, r.s, j, ys, yv, q, rem, qd, low, high) && r.Clamped()
      invariant if Get(r.d, i) < qd then q < qd else q == qd
      decreases qd
    {
      TakeBack(r, t, j, ys, yv, q, rem, qd, low, high);
      qd := qd - 1;
      TryingTest(r.d, rt, r.s, j, ys, yv, q, rem, qd, low, high);
    }
  }

  /** `r.subTo(t,r)` where t is DV^j times x, DV^ys minus the divisor: one multiple less. */
  method TakeBack(r: BigInteger, t: BigInteger, j: nat, ys: nat,
                  ghost yv: int, ghost q: int, ghost rem: int, ghost qd: int, ghost low: int, ghost high: int)
    requires r != t && Trying(r.d, r.t, r.s, j, ys, yv, q, rem, qd, low, high) && q < qd
    requires t.Valid() && t.Value() == Pow(j) * (Pow(ys) - yv)
    modifies r
    ensures r.t == old(r.t) && r.Valid() && Trying(r.d, r.t, r.s, j, ys, yv, q, rem, qd - 1, low, high)
  {
    hide Part, Pow, Val, TopSet, IsQuotient;
    ghost var x := Pow(ys) - yv;
    MultipleStep(rem, qd, x);
    ProductBound(qd - 1, x, qd - 1, x);
    TopSetMono(rem, rem + (qd - 1) * x, ys + 1, high, r.t - j - ys - 1);
    r.SubTo(t, r);
    TakeAway(old(r.d), old(r.t), r.d, r.t, r.s, j, ys + 1, x);
  }

  /** jsbn.js line 383: `(r[i]==y0)?this.DM:Math.floor(r[i]*d1+(r[i-1]+e)*d2)`, with exact quotients d1 and d2. */
  method EstimateDigit(r: BigInteger, i: nat, y0: int, d1: real, d2: real, e: int, ghost yd: Words, ghost ys: nat, ghost q: int)
    returns (qd: int)
    requires i >= ys && StepDomain(r.d, i - ys, yd, ys, q)
    requires y0 == yd[ys - 1] && e == TWO_F2 && Leading(yd, ys) > 0
    requires d1 == FV as real / Leading(yd, ys) as real && d2 == TWO_F1 as real / Leading(yd, ys) as real
    ensures q <= qd <= q + 1
  {
    hide Part, Pow, Leading, Estimate;
    if r.d[i] == y0 {
      qd := DM;
      EqualDigitIsClose(r.d, i - ys, yd, ys, q);
    } else {
      qd := Estimate(r.d[i], r.d[i - 1] + e, d1, d2);
      EstimateFloor(r.d[i], r.d[i - 1] + e, FV, TWO_F1, Leading(yd, ys), d1, d2);
      EstimateIsClose(r.d, i - ys, yd, ys, q, qd);
    }
  }

  /** jsbn.js lines 372-377: a leading quotient digit of 1 goes on top of r if y * DV^j still fits into it. */
  method LeadingOne(r: BigInteger, y: BigInteger, t: BigInteger, j: int)
    requires r != y && r != t && t != y && r.Valid() && r.s == 0 && j == r.t - y.t
    requires y.Valid() && y.Clamped() && y.s == 0 && Normalized(y.d, y.t)
    requires (r.Clamped() && j >= 0) || PaddedZero(r.d, r.t, r.s, y.t)
    modifies r, t
    ensures r.Valid() && r.s == 0
    ensures old(r.Clamped()) && j >= 0 ==> r.Clamped() && Divided(r.d, r.t, j, y.t, y.Value(), old(r.Value()))
    ensures old(PaddedZero(r.d, r.t, r.s, y.t)) ==> NearZero(r.d, r.t, r.s, y.t, j < 0)
  {
    hide Part, Pow, Val;
    ghost var rd, n, clamped := r.d, r.Value(), r.Clamped() && j >= 0;
    var i := r.t;
    y.DLShiftTo(j, t);
    if !clamped {
      EmptyOrLess(r.d, r.t, y.d, y.t, t.d, t.t, j);
    }
    var c := r.CompareTo(t);
    if clamped {
      NormalizedBounds(y.d, y.t);
      ValUnfold(y.d, y.t, 0);
      ValUnfold(r.d, r.t, 0);
      LeadingOnePut(rd, i);
    }
    if c >= 0 {
      ValOne(rd);
      r.d := r.d[i := 1];
      r.t := i + 1;
      r.SubTo(t, r);
      if clamped {
        LeadingOneTaken(rd, i, r.d, r.t, r.s, j, y.t, y.Value(), n);
      } else {
        ValStart(t.d, 0);
        OneIsOneDigit(r.d, r.t, r.s);
      }
    } else if clamped {
      DividedStart(r.d, i, j, y.t, y.Value());
    }
  }

  /** A dividend of 0 is compared with nothing if it has no digits, and is less than the divisor otherwise. */
  lemma EmptyOrLess(rd: Words, rt: nat, yd: Words, yt: nat, td: Words, tt: nat, j: int)
    requires PaddedZero(rd, rt, 0, yt) && Normalized(yd, yt) && j == rt - yt && tt == yt + j && AllDigits(td, 0, tt)
    requires forall k :: j <= k && 0 <= k < tt ==> Get(td, k) == Get(yd, k - j)
    ensures tt == rt && Val(rd, rt, 0) == 0
    ensures if rt == 0 then Val(td, tt, 0) == 0 else Val(td, tt, 0) > 0
  {
    hide Part, Pow;
    if rt == 0 {
      PartEmpty(rd, 0, 0);
      PartEmpty(td, 0, 0);
    } else {
      PartZero(rd, 0, rt);
      PartTop(td, 0, tt - 1);
      PartBound(td, 0, tt - 1);
      MulMono(Pow(tt - 1), 1, td[tt - 1]);
    }
  }

  /** jsbn.js lines 378-380: y becomes DV^ys - y, padded to ys digits. */
  method NegateDivisor(y: BigInteger, t: BigInteger, ys: nat)
    requires y != t && y.Valid() && y.s == 0 && 0 < y.Value() < Pow(ys)
    modifies y, t
    ensures y.Valid() && y.t == ys && y.s == 0 && Part(y.d, 0, ys) == Pow(ys) - old(y.Value())
  {
    hide Part, Pow, Val;
    var one := NewFromInt(1);
    one.DLShiftTo(ys, t);
    t.SubTo(y, y);
    ValRange(y.d, y.t, y.s);
    ClampedLength(y.d, y.t, y.s, ys);
    while y.t < ys
      invariant y.Valid() && y.s == 0 && y.t <= ys && y.Value() == Pow(ys) - old(y.Value())
      decreases ys - y.t
    {
      PadZero(y.d, y.t);
      y.d := y.d[y.t := 0];
      y.t := y.t + 1;
    }
    ValUnfold(y.d, ys, 0);
  }

  /** jsbn.js lines 367-389: long division of r by the normalized y; r ends up with the remainder below the quotient. */
  method LongDivision(r: BigInteger, y: BigInteger, t: BigInteger)
    requires r != y && r != t && t != y && r.Valid() && r.s == 0
    requires y.Valid() && y.Clamped() && y.s == 0 && Normalized(y.d, y.t)
    requires (r.Clamped() && r.t >= y.t) || PaddedZero(r.d, r.t, r.s, y.t)
    modifies r, y, t
    ensures r.Valid() && r.s == 0
    ensures old(r.Clamped() && r.t >= y.t) ==>
      r.Clamped() && Divided(r.d, r.t, 0, old(y.t), old(y.Value()), old(r.Value()))
    ensures old(PaddedZero(r.d, r.t, r.s, y.t)) ==> NearZero(r.d, r.t, r.s, old(y.t), old(r.t < y.t))
  {
    ghost var n, yv, yd, clamped := r.Value(), y.Value(), y.d, r.Clamped() && r.t >= y.t;
    ghost var zero := PaddedZero(r.d, r.t, r.s, y.t);
    var ys := y.t;
    var y0 := y.d[ys - 1];
    var yt := y0 * TWO_F1 + if ys > 1 then Shr(y.d[ys - 2], TWO_F2) else 0;
    LeadingBounds(yd, ys);
    NormalizedBounds(yd, ys);
    ValUnfold(yd, ys, 0);
    var d1, d2, e := FV as real / yt as real, TWO_F1 as real / yt as real, TWO_F2;
    var j := r.t - ys;
    assert zero ==> j <= 0;
    hide Part, Pow, Val, Normalized, Leading, Divided, StepDomain, IsQuotient, PaddedZero, NearZero;
    LeadingOne(r, y, t, j);
    NegateDivisor(y, t, ys);
    ghost var before := (r.d, r.t, j);
    while j > 0
      invariant r.Valid() && r.s == 0 && y.Valid() && y.t == ys && y.s == 0 && Part(y.d, 0, ys) == Pow(ys) - yv
      invariant clamped ==> j >= 0 && r.Clamped() && Divided(r.d, r.t, j, ys, yv, n)
      invariant zero ==> j <= 0 && (r.d, r.t, j) == before
    {
      j := j - 1;
      ghost var q := StepQuotient(r.d, r.t, j, yd, ys, n);
      var qd := EstimateDigit(r, j + ys, y0, d1, d2, e, yd, ys, q);
      ghost var rd := r.d;
      TryDigit(r, y, t, qd, j, ys, yv, q);
      DividedStep(rd, r.d, r.t, j, ys, yv, n, q);
    }
  }

  /** JavaScript's integer division and remainder: the quotient is rounded toward 0, the remainder has the dividend's sign. */
  function Quotient(x: int, m: int): int
    requires m != 0
  {
    var q := Magnitude(x) / Magnitude(m); if (x < 0) == (m < 0) then q else -q
  }

  function Remainder(x: int, m: int): int
    requires m != 0
  {
    var r := Magnitude(x) % Magnitude(m); if x < 0 then -r else r
  }

  function Magnitude(x: int): int { if x < 0 then -x else x }

  /** They divide x with a remainder smaller than m that has the sign of x... */
  lemma QuotientAndRemainder(x: int, m: int)
    requires m != 0
    ensures x == Quotient(x, m) * m + Remainder(x, m)
    ensures Magnitude(Remainder(x, m)) < Magnitude(m) && (Remainder(x, m) != 0 ==> (Remainder(x, m) < 0 <==> x < 0))
  {
    var a, b := Magnitude(x), Magnitude(m);
    var q, r := a / b, a % b;
    assert a == b * q + r && 0 <= r < b;
    hide Magnitude;
    FlipBoth(q, m);
  }

  lemma FlipBoth(a: int, b: int)
    ensures (-a) * b == -(a * b) && a * (-b) == -(a * b)
  {
  }

  /** ... and nothing else does. */
  lemma QuotientUnique(x: int, m: int, q: int, r: int)
    requires m != 0 && x == q * m + r && Magnitude(r) < Magnitude(m) && (r != 0 ==> (r < 0 <==> x < 0))
    ensures q == Quotient(x, m) && r == Remainder(x, m)
  {
    var q' := if (x < 0) == (m < 0) then q else -q;
    UnsignedForm(x, m, q, r, q');
    FloorDiv(Magnitude(x), Magnitude(m), q', Magnitude(r));
  }

  lemma UnsignedForm(x: int, m: int, q: int, r: int, q': int)
    requires m != 0 && x == q * m + r && Magnitude(r) < Magnitude(m) && (r != 0 ==> (r < 0 <==> x < 0))
    requires q' == if (x < 0) == (m < 0) then q else -q
    ensures Magnitude(x) == Magnitude(m) * q' + Magnitude(r)
  {
    FlipBoth(q, m);
    FlipBoth(m, q);
    assert q * m == m * q;
    if x < 0 && m < 0 {
      assert -x == (-m) * q + -r;
    } else if x < 0 {
      assert -x == m * (-q) + -r;
    } else if m < 0 {
      assert x == (-m) * (-q) + r;
    }
  }

  /** a has fewer digits than b. */
  ghost predicate Shorter(a: int, b: int) { exists n: nat :: a < Pow(n) <= b }

  /** The only operands for which divRemTo leaves a wrong remainder: the quotient is to replace the dividend, and the
      dividend is a nonzero number with fewer digits than the divisor. q.fromInt(0) then clears it before it is copied. */
  ghost predicate LosesDividend(x: BigInteger, m: int, q: BigInteger?)
    reads x
  {
    q == x && x.Value() != 0 && Shorter(Magnitude(x.Value()), Magnitude(m))
  }

  /** jsbn.js line 353: divide x by m; q or r may be null, r may be x or m. The dividend is clamped, or it is the
      number 0 in as many digits as m has: that is what montConvert makes of 0. */
  method DivRemTo(x: BigInteger, m: BigInteger, q: BigInteger?, r0: BigInteger?)
    requires x.Valid() && m.Valid() && m.Clamped() && (q == null || q != r0)
    requires x.Clamped() || (m.s == 0 && PaddedZero(x.d, x.t, x.s, m.t))
    modifies if q == null then {} else {q}, if r0 == null then {} else {r0}
    ensures old(m.Value()) == 0 ==> (q != null ==> unchanged(q)) && (r0 != null ==> unchanged(r0))
    ensures old(m.Value()) != 0 && q != null ==>
      q.Valid() && q.Clamped() && q.Value() == Quotient(old(x.Value()), old(m.Value()))
    ensures old(m.Value()) != 0 && r0 != null ==>
      r0.Valid() && r0.Clamped()
      && r0.Value() == if old(LosesDividend(x, m.Value(), q)) then 0 else Remainder(old(x.Value()), old(m.Value()))
  {
    hide Part, Pow, Val, Pow2, Quotient, Remainder, Shorter, Normalized, Divided;
    ghost var xv, mv := x.Value(), m.Value();
    var pm := m.Abs();
    if pm.t <= 0 {
      ZeroValue(pm.d, pm.s);
      return;
    }
    var pt := x.Abs();
    ghost var clamped := x.Clamped();
    ClampedRange(pm.d, pm.t, pm.s);
    if clamped {
      ShorterIsFewerDigits(pt.d, pt.t, pm.d, pm.t);
    } else {
      PaddedZeroValue(x.d, x.t, x.s, m.t);
    }
    if pt.t < pm.t {
      SmallDividend(xv, mv);
      if q != null {
        q.FromInt(0);
      }
      if r0 != null {
        x.CopyTo(r0);
      }
      return;
    }
    ValRange(x.d, x.t, x.s);
    ValRange(m.d, m.t, m.s);
    LongDivide(pm, pt, q, r0, x.s, m.s, xv, mv);
  }

  /** jsbn.js lines 362-397: the division of a dividend that has at least as many digits as the divisor. */
  method LongDivide(pm: BigInteger, pt: BigInteger, q: BigInteger?, r0: BigInteger?, ts: int, ms: int,
                    ghost xv: int, ghost mv: int)
    requires pm.Valid() && pm.Clamped() && pm.s == 0 && pm.t > 0 && pt.Valid() && pt.s == 0 && pt.t >= pm.t
    requires pt.Clamped() || PaddedZero(pt.d, pt.t, pt.s, pm.t)
    requires (q == null || q != r0) && mv != 0 && pt.Value() == Magnitude(xv) && pm.Value() == Magnitude(mv)
    requires (ts == -1 <==> xv < 0) && (ms == -1 <==> mv < 0) && (ts == 0 || ts == -1) && (ms == 0 || ms == -1)
    modifies if q == null then {} else {q}, if r0 == null then {} else {r0}
    ensures q != null ==> q.Valid() && q.Clamped() && q.Value() == Quotient(xv, mv)
    ensures r0 != null ==> r0.Valid() && r0.Clamped() && r0.Value() == Remainder(xv, mv)
  {
    hide Part, Pow, Val, Pow2, Quotient, Remainder, Normalized, Divided, NearZero;
    ghost var clamped := pt.Clamped();
    var r: BigInteger;
    if r0 == null {
      r := new BigInteger();
    } else {
      r := r0;
    }
    var y := new BigInteger();
    if !clamped {
      PaddedZeroValue(pt.d, pt.t, pt.s, pm.t);
    }
    var nsh := Normalize(pm, pt, y, r);
    var t: BigInteger;
    if q == null {
      t := new BigInteger();
    } else {
      t := q;
    }
    var ys := y.t;
    ghost var one := r.t < ys;
    LongDivision(r, y, t);
    if clamped {
      DividedResult(r.d, r.t, ys, Pow2(nsh), Magnitude(xv), Magnitude(mv));
    } else {
      NearZeroResult(r.d, r.t, r.s, ys, one, Pow2(nsh));
      ZeroQuotient(xv, mv);
    }
    if q != null {
      TakeQuotient(r, q, ys, ts, ms, xv, mv);
    }
    TakeRemainder(r, ys, nsh, ts, xv, mv);
  }

  lemma ZeroValue(d: Words, s: int)
    requires s == 0
    ensures Val(d, 0, s) == 0
  {
  }

  lemma ZeroQuotient(x: int, m: int)
    requires x == 0 && m != 0
    ensures Magnitude(x) / Magnitude(m) == 0 && Magnitude(x) % Magnitude(m) == 0
  {
    FloorDiv(0, Magnitude(m), 0, 0);
  }

  lemma ShorterIsFewerDigits(a: Words, at: nat, b: Words, bt: nat)
    requires WellFormed(a, at, 0) && IsClamped(a, at, 0) && WellFormed(b, bt, 0) && IsClamped(b, bt, 0) && bt > 0
    ensures Shorter(Val(a, at, 0), Val(b, bt, 0)) <==> at < bt
  {
    hide Part, Pow, Val;
    ValRange(a, at, 0);
    ValRange(b, bt, 0);
    ClampedRange(b, bt, 0);
    if at < bt {
      PowMono(at, bt - 1);
    } else {
      ClampedRange(a, at, 0);
      forall n: nat | Val(a, at, 0) < Pow(n) <= Val(b, bt, 0)
        ensures false
      {
        if n < bt {
          PowMono(n, at - 1);
        } else {
          PowMono(bt, n);
        }
      }
    }
  }

  /** The remainder of a shorter dividend is the dividend, so the 0 that divRemTo leaves if LosesDividend holds is
      wrong every time. */
  lemma SmallDividend(x: int, m: int)
    requires m != 0 && Shorter(Magnitude(x), Magnitude(m))
    ensures Quotient(x, m) == 0 && Remainder(x, m) == x
  {
    FloorDiv(Magnitude(x), Magnitude(m), 0, Magnitude(x));
  }

  /** The shortest such case: 1 divided by a number of two digits. */
  lemma ShortestLoss()
    ensures Shorter(Magnitude(1), Magnitude(DV)) && Remainder(1, DV) == 1
  {
    assert Pow(1) == DV * Pow(0) && Pow(0) == 1;
    assert 1 < Pow(1) <= DV;
    SmallDividend(1, DV);
  }

  /** jsbn.js lines 364-366: scale both numbers so that the divisor's top bit is set. */
  method Normalize(pm: BigInteger, pt: BigInteger, y: BigInteger, r: BigInteger) returns (nsh: nat)
    requires y != pm && y != pt && y != r && pm.Valid() && pm.Clamped() && pm.s == 0
    requires pt.Valid() && pt.s == 0 && pt.t >= pm.t > 0 && (pt.Clamped() || PaddedZero(pt.d, pt.t, pt.s, pm.t))
    modifies y, r
    ensures y.Valid() && y.Clamped() && y.s == 0 && y.Value() == Pow2(nsh) * old(pm.Value()) && Normalized(y.d, y.t)
    ensures r.Valid() && r.s == 0 && r.Value() == Pow2(nsh) * old(pt.Value())
    ensures old(pt.Clamped()) ==> r.Clamped() && r.t >= y.t
    ensures !old(pt.Clamped()) ==> PaddedZero(r.d, r.t, r.s, y.t) && (r.t < y.t ==> Pow2(nsh) > 1)
  {
    hide Part, Pow, Val, Pow2;
    ghost var md, mt, xd, xt, clamped := pm.d, pm.t, pt.d, pt.t, pt.Clamped();
    var bits := NBits(pm.d[pm.t - 1]);
    TopBits(pm.d[pm.t - 1], bits);
    nsh := DB - bits;
    if nsh > 0 {
      pm.LShiftTo(nsh, y);
      pt.LShiftTo(nsh, r);
      Pow2Mono(1, nsh);
      Pow2Values();
      if !clamped {
        ZeroShifted(xd, xt, r.d, r.t, r.s, xt + nsh / DB + 1, Pow2(nsh));
      }
    } else {
      pm.CopyTo(y);
      pt.CopyTo(r);
      Pow2Values();
      if !clamped {
        ZeroCopied(xd, r.d, xt);
      }
    }
    NormalizedLength(md, mt, bits, y.d, y.t, y.s);
    if clamped {
      ScaledNotShorter(xd, xt, mt, Pow2(nsh), r.d, r.t, r.s);
    }
  }

  lemma ZeroShifted(xd: Words, xt: nat, rd: Words, rt: nat, rs: int, k: nat, p: int)
    requires AllZero(xd, xt) && xt <= k && WellFormed(rd, rt, rs) && IsClamped(rd, rt, rs)
    requires Val(rd, rt, rs) == p * Val(xd, xt, 0)
    requires WellFormed(rd, k, rs) && Val(rd, k, rs) == p * Val(xd, xt, 0)
    ensures rs == 0 && rt == 0 && AllZero(rd, xt)
  {
    hide Part, Pow, Val;
    PartZero(xd, 0, xt);
    ValUnfold(xd, xt, 0);
    ValRange(rd, rt, rs);
    if rt > 0 {
      ClampedRange(rd, rt, rs);
    }
    ValUnfold(rd, k, 0);
    ZeroPart(rd, k);
  }

  /** A digit has at most DB bits. */
  lemma TopBits(g: int, bits: nat)
    requires 0 < g < DV && 1 <= bits && Pow2(bits - 1) <= g < Pow2(bits)
    ensures bits <= DB && DV <= 2 * (Pow2(DB - bits) * g) && Pow2(DB - bits) * (g + 1) <= DV
  {
    hide Pow2;
    PowIsPow2One();
    if bits > DB {
      Pow2Mono(DB, bits - 1);
    }
    Pow2Add(DB - bits, bits);
    Pow2Step(bits - 1);
    TopScaled(Pow2(DB - bits), Pow2(bits - 1), g, Pow2(bits));
  }

  lemma TopScaled(p: int, h: int, g: int, w: int)
    requires p > 0 && w == 2 * h && h <= g < w
    ensures p * w <= 2 * (p * g) && p * (g + 1) <= p * w
  {
    MulMono(p, h, g);
    MulMono(p, g + 1, w);
    MulAssoc(p, 2, h);
  }

  lemma NormalizedLength(md: Words, mt: nat, bits: nat, yd: Words, yt: nat, ys: int)
    requires mt > 0 && AllDigits(md, 0, mt) && 1 <= bits && Pow2(bits - 1) <= md[mt - 1] < Pow2(bits) && md[mt - 1] > 0
    requires bits <= DB && WellFormed(yd, yt, ys) && IsClamped(yd, yt, ys) && Val(yd, yt, ys) == Pow2(DB - bits) * Val(md, mt, 0)
    ensures yt == mt && ys == 0 && Normalized(yd, yt)
  {
    hide Part, Pow, Val, Pow2;
    var g, w, p := md[mt - 1], Pow(mt - 1), Pow2(DB - bits);
    TopBits(g, bits);
    PartTop(md, 0, mt - 1);
    PartBound(md, 0, mt - 1);
    ValUnfold(md, mt, 0);
    ScaledTop(p, Part(md, 0, mt - 1), g, w);
    assert Pow(mt) == DV * w by { PowAdd(1, mt - 1); assert Pow(1) == DV by { PowOne(); } }
    assert Val(yd, yt, ys) >= w by { MulMono(w, 1, p * g); }
    LengthIs(yd, yt, ys, mt);
    ValUnfold(yd, yt, 0);
    PartTop(yd, 0, mt - 1);
    PartBound(yd, 0, mt - 1);
    TopAtLeast(Part(yd, 0, mt - 1), Get(yd, mt - 1), w, p * g);
  }

  lemma PowOne()
    ensures Pow(1) == DV
  {
    assert Pow(0) == 1;
  }

  lemma ScaledTop(p: int, low: int, g: int, w: int)
    requires 0 < p && 0 <= low < w && p * (g + 1) <= DV
    ensures (p * g) * w <= p * (low + g * w) < DV * w
  {
    MulDistrib(p, low, g * w);
    MulAssoc(p, g, w);
    MulMono(p, low + 1, w);
    MulMono(w, p * (g + 1), DV);
    MulDistrib(p, g, 1);
    MulDistrib(w, p * g, p);
    MulMono(p, 0, low);
    MulDistrib(p, low, 1);
  }

  lemma TopAtLeast(low: int, g: int, w: int, k: int)
    requires 0 <= low < w && k * w <= low + g * w
    ensures k <= g
  {
    MulDistrib(w, g, 1);
    CancelLess(k, g + 1, w);
  }

  lemma ScaledNotShorter(xd: Words, xt: nat, n: nat, p: int, rd: Words, rt: nat, rs: int)
    requires WellFormed(xd, xt, 0) && IsClamped(xd, xt, 0) && n <= xt && 0 < xt && 0 < p
    requires WellFormed(rd, rt, rs) && IsClamped(rd, rt, rs) && Val(rd, rt, rs) == p * Val(xd, xt, 0)
    ensures rt >= n && rs == 0
  {
    hide Part, Pow, Val;
    ClampedRange(xd, xt, 0);
    ValRange(rd, rt, rs);
    MulMono(Val(xd, xt, 0), 1, p);
    if rt < n {
      PowMono(rt, xt - 1);
    }
  }

  /** jsbn.js lines 390-393: the quotient is above digit ys of r. */
  method TakeQuotient(r: BigInteger, q: BigInteger, ys: nat, ts: int, ms: int, ghost x: int, ghost m: int)
    requires r != q && r.Valid() && r.s == 0 && m != 0 && (r.Clamped() || r.t <= ys)
    requires (ts == -1 <==> x < 0) && (ms == -1 <==> m < 0) && (ts == 0 || ts == -1) && (ms == 0 || ms == -1)
    requires r.Value() / Pow(ys) == Magnitude(x) / Magnitude(m)
    modifies q
    ensures q.Valid() && q.Clamped() && q.Value() == Quotient(x, m)
  {
    hide Part, Pow, Val;
    r.DRShiftTo(ys, q);
    if ts != ms {
      q.NegateInPlace();
    }
  }

  /** jsbn.js lines 394-397: the remainder, still scaled, is below digit ys of r. */
  method TakeRemainder(r: BigInteger, ys: nat, nsh: nat, ts: int, ghost x: int, ghost m: int)
    requires r.s == 0 && m != 0 && AllDigits(r.d, 0, ys) && (ts == -1 <==> x < 0) && (ts == 0 || ts == -1)
    requires Part(r.d, 0, ys) / Pow2(nsh) == Magnitude(x) % Magnitude(m)
    modifies r
    ensures r.Valid() && r.Clamped() && r.Value() == Remainder(x, m)
  {
    hide Part, Pow, Val, Pow2;
    r.t := ys;
    ValUnfold(r.d, ys, 0);
    r.Clamp();
    if nsh > 0 {
      r.RShiftTo(nsh, r);
    } else {
      Pow2Values();
    }
    if ts < 0 {
      r.NegateInPlace();
    }
  }

  lemma TailUnfold(d: Words, lo: nat, hi: nat)
    requires lo <= hi
    ensures Tail(d, lo, hi, 0) == Part(d, lo, hi)
  {
  }

  /** Scaling both numbers by p keeps the quotient and scales the remainder. */
  lemma DividedResult(rd: Words, t: nat, ys: nat, p: int, a: int, b: int)
    requires AllDigits(rd, 0, t) && Divided(rd, t, 0, ys, p * b, p * a) && 0 < p && 0 < b
    ensures ys <= t && Val(rd, t, 0) / Pow(ys) == a / b && Part(rd, 0, ys) / p == a % b
  {
    DividedAtEnd(rd, t, ys, p * b, p * a);
    hide Pow, Part, Val;
    PartBound(rd, 0, ys);
    ScaledDivision(p, a, b, Part(rd, 0, ys), Part(rd, ys, t));
    DropDigits(rd, ys, t, 0);
    TailUnfold(rd, ys, t);
  }

  lemma DividedAtEnd(rd: Words, t: nat, ys: nat, y: int, n: int)
    requires Divided(rd, t, 0, ys, y, n)
    ensures ys <= t && Part(rd, 0, ys) < y && n == Part(rd, 0, ys) + y * Part(rd, ys, t)
  {
    assert Pow(0) == 1;
  }

  lemma ScaledDivision(p: int, a: int, b: int, rem: int, q: int)
    requires 0 < p && 0 < b && p * a == rem + (p * b) * q && 0 <= rem < p * b
    ensures q == a / b && rem / p == a % b
  {
    MulAssoc(p, b, q);
    MulDistrib(p, a, b * q);
    var r := a - b * q;
    if r < 0 {
      MulMono(p, r, -1);
    } else if r >= b {
      MulMono(p, b, r);
    }
    FloorDiv(a, b, q, r);
    FloorDiv(rem, p, r, 0);
  }

  /** jsbn.js line 401: for a positive modulus the result is in [0, a), whatever the sign of x. For a negative one it is
      still congruent to x, but below the modulus if x is negative and no multiple of it. */
  method Mod(x: BigInteger, a: BigInteger) returns (r: BigInteger)
    requires x.Valid() && x.Clamped() && a.Valid() && a.Clamped() && a.Value() != 0
    ensures fresh(r) && r.Valid() && r.Clamped()
    ensures a.Value() > 0 ==> r.Value() == x.Value() % a.Value()
    ensures a.Value() < 0 ==> (r.Value() - x.Value()) % a.Value() == 0
    ensures a.Value() < 0 && x.Value() >= 0 ==> 0 <= r.Value() < -a.Value()
    ensures a.Value() < 0 && x.Value() < 0 ==> r.Value() == 0 || 2 * a.Value() < r.Value() < a.Value()
  {
    hide Part, Pow, Val, Remainder;
    r := new BigInteger();
    var ax := x.Abs();
    DivRemTo(ax, a, null, r);
    ValRange(x.d, x.t, x.s);
    if a.Value() > 0 {
      ModOfMagnitude(x.Value(), a.Value());
    } else {
      ModOfNegative(x.Value(), a.Value());
    }
    TakeFrom(a, x.s, r);
  }

  /** jsbn.js lines 404 and 465: what a negative number leaves is taken from the modulus. */
  method TakeFrom(a: BigInteger, s: int, r: BigInteger)
    requires a.Valid() && r.Valid() && r.Clamped() && r != a
    modifies r
    ensures r.Valid() && r.Clamped()
    ensures r.Value() == if s < 0 && old(r.Value()) > 0 then a.Value() - old(r.Value()) else old(r.Value())
  {
    hide Part, Pow, Val;
    if s < 0 {
      var zero := NewFromInt(0);
      var c := r.CompareTo(zero);
      if c > 0 {
        a.SubTo(r, r);
      }
    }
  }

  lemma ModOfMagnitude(x: int, a: int)
    requires a > 0
    ensures var r := Remainder(Magnitude(x), a);
      0 <= r && x % a == if x < 0 && r > 0 then a - r else r
  {
    var b := Magnitude(x);
    var q, r := b / a, b % a;
    assert Remainder(b, a) == r && b == a * q + r;
    if x < 0 && r > 0 {
      MulDistrib(a, 0, q + 1);
      MulDistrib(a, q, 1);
      FloorDiv(x, a, 0 - (q + 1), a - r);
    } else if x < 0 {
      MulDistrib(a, 0, q);
      FloorDiv(x, a, 0 - q, 0);
    }
  }

  lemma ModOfNegative(x: int, a: int)
    requires a < 0
    ensures var r := Remainder(Magnitude(x), a);
      0 <= r < -a && ((if x < 0 && r > 0 then a - r else r) - x) % a == 0
  {
    var b, m := Magnitude(x), -a;
    var q, r := b / m, b % m;
    assert Remainder(b, a) == r && b == m * q + r;
    if x < 0 && r > 0 {
      MulDistrib(m, q, 1);
      MultipleOf(a - r - x, a, 1 - q);
    } else if x < 0 {
      MultipleOf(r - x, a, -q);
    } else {
      MultipleOf(r - x, a, q);
    }
  }

  lemma MultipleOf(v: int, a: int, k: int)
    requires a != 0 && v == a * k
    ensures v % a == 0
  {
    var q, r := v / a, v % a;
    assert v == a * q + r;
    MulDistrib(a, k, q);
    if r != 0 {
      MulMono(if a < 0 then -a else a, 1, if a < 0 then q - k else k - q);
    }
  }
}
