/** One step of the long division in divRemTo, on digits. The remainder keeps shrinking at the bottom of
    one number while the finished quotient digits stay above it, in the same number. */
module DivisionSteps {
  import opened Arith
  import opened Digits
  import opened Engine
  import opened QuotientDigit

  /** v has exactly n digits. */
  ghost predicate HasLength(v: int, n: nat) { n > 0 && Pow(n - 1) <= v < Pow(n) }

  lemma LengthIs(d: Words, t: nat, s: int, n: nat)
    requires WellFormed(d, t, s) && IsClamped(d, t, s) && HasLength(Val(d, t, s), n)
    ensures t == n && s == 0
  {
    ValRange(d, t, s);
    ClampedLength(d, t, s, n);
    if t < n {
      PowMono(t, n - 1);
    }
  }

  /** low, mid and high are the digits below j, the n digits from j on, and the digits above. */
  function Joined(low: int, j: nat, mid: int, n: nat, high: int): int { low + Pow(j) * (mid + Pow(n) * high) }

  lemma JoinedParts(d: Words, j: nat, n: nat, t: nat)
    requires j + n <= t
    ensures Val(d, t, 0) == Joined(Part(d, 0, j), j, Part(d, j, j + n), n, Part(d, j + n, t))
  {
    PartSplit(d, 0, j, t);
    PartSplit(d, j, j + n, t);
  }

  /** The parts of a number are determined by its value. */
  lemma JoinedUnique(d: Words, j: nat, n: nat, t: nat, low: int, mid: int, high: int)
    requires j + n <= t && AllDigits(d, 0, t) && 0 <= low < Pow(j) && 0 <= mid < Pow(n)
    requires Val(d, t, 0) == Joined(low, j, mid, n, high)
    ensures Part(d, 0, j) == low && Part(d, j, j + n) == mid && Part(d, j + n, t) == high
  {
    hide Part, Pow, Val;
    JoinedParts(d, j, n, t);
    PartBound(d, 0, j);
    PartBound(d, j, j + n);
    JoinedUniqueArith(Pow(j), Pow(n), Part(d, 0, j), Part(d, j, j + n), Part(d, j + n, t), low, mid, high);
    hide *;
  }

  lemma JoinedUniqueArith(p: int, q: int, a: int, b: int, c: int, low: int, mid: int, high: int)
    requires 0 <= a < p && 0 <= low < p && 0 <= b < q && 0 <= mid < q
    requires a + p * (b + q * c) == low + p * (mid + q * high)
    ensures a == low && b == mid && c == high
  {
    DivModUnique(p, a, b + q * c, low, mid + q * high);
    DivModUnique(q, b, c, mid, high);
  }

  lemma JoinedLess(low: int, j: nat, mid: int, n: nat, high: int, x: int)
    ensures Joined(low, j, mid - x, n, high) == Joined(low, j, mid, n, high) - x * Pow(j)
  {
    hide Pow;
    var u := mid + Pow(n) * high;
    MulDistrib(Pow(j), u, x);
    assert mid - x + Pow(n) * high == u - x;
  }

  /** The top digit of the joined number is not 0. */
  ghost predicate TopSet(mid: int, n: nat, high: int, m: nat) {
    if m > 0 then high >= Pow(m - 1) else n > 0 && mid >= Pow(n - 1) && high == 0
  }

  lemma JoinedLength(low: int, j: nat, mid: int, n: nat, high: int, m: nat)
    requires 0 <= low < Pow(j) && 0 <= mid < Pow(n) && 0 <= high < Pow(m) && TopSet(mid, n, high, m)
    ensures HasLength(Joined(low, j, mid, n, high), j + n + m)
  {
    hide Pow, HasLength, TopSet;
    UpperHasLength(mid, n, high, m);
    ScaledLength(low, j, mid + Pow(n) * high, n + m);
    assert j + (n + m) == j + n + m;
  }

  lemma UpperHasLength(mid: int, n: nat, high: int, m: nat)
    requires 0 <= mid < Pow(n) && 0 <= high < Pow(m) && TopSet(mid, n, high, m)
    ensures HasLength(mid + Pow(n) * high, n + m)
  {
    hide Pow;
    if m > 0 {
      ScaledLength(mid, n, high, m);
    } else {
      assert Pow(n) * high == 0;
    }
  }

  lemma ScaledLength(low: int, n: nat, x: int, m: nat)
    requires 0 <= low < Pow(n) && HasLength(x, m)
    ensures HasLength(low + Pow(n) * x, n + m)
  {
    hide Pow;
    PowAdd(n, m);
    PowAdd(n, m - 1);
    assert n + (m - 1) == n + m - 1;
    Interval(low, Pow(n), x, Pow(m - 1), Pow(m));
  }

  lemma Interval(low: int, p: int, x: int, a: int, b: int)
    requires 0 <= low < p && a <= x < b
    ensures p * a <= low + p * x < p * b
  {
    MulMono(p, a, x);
    MulMono(p, x + 1, b);
    MulDistrib(p, x, 1);
  }

  /** One step of the long division: the digits below j + ys are the remainder so far, the digits above the quotient so far. */
  ghost predicate Divided(rd: Words, t: nat, j: nat, ys: nat, y: int, n: int) {
    j + ys <= t && Part(rd, 0, j + ys) < Pow(j) * y && Part(rd, 0, j + ys) + Pow(j) * (y * Part(rd, j + ys, t)) == n
  }

  /** The digits that one step divides. */
  lemma DividedBound(rd: Words, t: nat, j: nat, ys: nat, y: int, n: int)
    requires AllDigits(rd, 0, t) && Divided(rd, t, j + 1, ys, y, n)
    ensures Part(rd, j, j + ys + 1) < DV * y
  {
    PartSplit(rd, 0, j, j + ys + 1);
    PartBound(rd, 0, j);
    assert Pow(j + 1) == DV * Pow(j) && j + 1 + ys == j + ys + 1;
    hide Part;
    MulAssoc(Pow(j), DV, y);
    if Part(rd, j, j + ys + 1) >= DV * y {
      MulMono(Pow(j), DV * y, Part(rd, j, j + ys + 1));
    }
  }

  /** The right quotient digit q, with the remainder left below it, continues the division. */
  lemma DividedStep(rd: Words, e: Words, t: nat, j: nat, ys: nat, y: int, n: int, q: int)
    requires AllDigits(rd, 0, t) && Divided(rd, t, j + 1, ys, y, n)
    requires IsQuotient(Part(rd, j, j + ys + 1), y, q) && y < Pow(ys)
    requires Part(e, 0, j) == Part(rd, 0, j) && Part(e, j + ys + 1, t) == Part(rd, j + ys + 1, t)
    requires AllDigits(e, 0, t) && Part(e, j, j + ys + 1) == Part(rd, j, j + ys + 1) + q * (Pow(ys) - y)
    ensures Divided(e, t, j, ys, y, n) && Get(e, j + ys) == q
  {
    var i, r := j + ys, Part(rd, j, j + ys + 1);
    PartTop(e, j, i);
    PartBound(e, j, i);
    PartSplit(rd, 0, j, i + 1);
    PartSplit(e, 0, j, i);
    PartBound(rd, 0, j);
    PartLow(e, i, t);
    assert Pow(j + 1) == DV * Pow(j) && j + 1 + ys == i + 1 && i - j == ys;
    hide Part, Pow;
    StepDigit(Pow(ys), Part(e, j, i), Get(e, i), r, q, y);
    StepArith(Pow(j), Part(rd, 0, j), r, q, y, Part(rd, i + 1, t), n);
  }

  /** The remainder and the quotient digit share the ys + 1 digits. */
  lemma StepDigit(w: int, low: int, g: int, r: int, q: int, y: int)
    requires 0 <= low < w && IsQuotient(r, y, q) && y < w && low + g * w == r + q * (w - y)
    ensures g == q && low == r - q * y
  {
    MulDistrib(q, w, y);
    MulDistrib(y, q, 1);
    DivModUnique(w, low, g, r - q * y, q);
  }

  lemma StepArith(p: int, low: int, r: int, q: int, y: int, high: int, n: int)
    requires 0 <= low < p && r < (q + 1) * y
    requires low + p * r + (DV * p) * (y * high) == n
    ensures low + p * (r - q * y) < p * y
    ensures low + p * (r - q * y) + p * (y * (q + DV * high)) == n
  {
    MulDistrib(y, q, 1);
    MulMono(p, r - q * y + 1, y);
    MulDistrib(p, r - q * y, 1);
    MulDistrib(y, q, DV * high);
    MulDistrib(p, y * q, y * (DV * high));
    MulDistrib(p, r, q * y);
    assert (DV * p) * (y * high) == p * (y * (DV * high));
  }

  /** Subtracting x * DV^j from a number whose middle part is at least x changes nothing but that part,
      and keeps the length as long as the top digit stays set. */
  lemma TakeAway(rd: Words, t: nat, e: Words, t': nat, s': int, j: nat, n: nat, x: int)
    requires AllDigits(rd, 0, t) && j + n <= t && 0 <= x <= Part(rd, j, j + n)
    requires WellFormed(e, t', s') && IsClamped(e, t', s') && Val(e, t', s') == Val(rd, t, 0) - x * Pow(j)
    requires TopSet(Part(rd, j, j + n) - x, n, Part(rd, j + n, t), t - j - n)
    ensures t' == t && s' == 0 && Part(e, 0, j) == Part(rd, 0, j)
    ensures Part(e, j, j + n) == Part(rd, j, j + n) - x && Part(e, j + n, t) == Part(rd, j + n, t)
  {
    hide Part, Pow, Val, Joined, TopSet, HasLength;
    var low, mid, high := Part(rd, 0, j), Part(rd, j, j + n), Part(rd, j + n, t);
    PartBound(rd, 0, j);
    PartBound(rd, j, j + n);
    PartBound(rd, j + n, t);
    JoinedParts(rd, j, n, t);
    JoinedLess(low, j, mid, n, high, x);
    JoinedLength(low, j, mid - x, n, high, t - j - n);
    LengthIs(e, t', s', t);
    JoinedUnique(e, j, n, t, low, mid - x, high);
  }

  /** Comparing the top digit g with the multiplier qd tells whether qd was too large. */
  lemma DigitTest(w: int, low: int, g: int, r: int, qd: int, y: int)
    requires 0 <= low < w && low + g * w == r + qd * (w - y)
    ensures g < qd <==> r < qd * y
  {
    MulDistrib(qd, w, y);
    if g < qd {
      MulMono(w, g + 1, qd);
      MulDistrib(w, g, 1);
    } else {
      MulMono(w, qd, g);
    }
  }

  lemma TopDigitTest(rd: Words, j: nat, ys: nat, r: int, qd: int, y: int)
    requires AllDigits(rd, j, j + ys) && Part(rd, j, j + ys + 1) == r + qd * (Pow(ys) - y)
    ensures Get(rd, j + ys) < qd <==> r < qd * y
  {
    hide Part, Pow;
    PartTop(rd, j, j + ys);
    PartBound(rd, j, j + ys);
    DigitTest(Pow(ys), Part(rd, j, j + ys), Get(rd, j + ys), r, qd, y);
  }

  /** A multiplier that is not too large and not below the quotient digit is the quotient digit. */
  lemma QuotientFound(r: int, y: int, q: int, qd: int)
    requires IsQuotient(r, y, q) && 0 < y && q <= qd && qd * y <= r
    ensures qd == q
  {
    CancelLess(qd, q + 1, y);
  }

  lemma QuotientBelow(r: int, y: int, q: int, qd: int)
    requires IsQuotient(r, y, q) && 0 < y && r < qd * y
    ensures q < qd
  {
    CancelLess(q, qd, y);
  }

  /** The multiple added leaves room for the top digit. */
  lemma RowFits(r: int, y: int, q: int, qd: int, w: int)
    requires IsQuotient(r, y, q) && r < DV * y && 0 < y < w && 0 <= q <= qd <= DV
    ensures r + qd * (w - y) < DV * w
  {
    MulDistrib(qd, w, y);
    if r < qd * y {
      MulMono(w, qd, DV);
    } else {
      QuotientFound(r, y, q, qd);
      CancelLess(q, DV, y);
      MulDistrib(y, q, 1);
      MulMono(w, q + 1, DV);
      MulDistrib(w, q, 1);
    }
  }

  /** am over the low digits and the carry added to the top digit make one multiple of y' added to all of them. */
  lemma MultipleAdded(wd: Words, rd: Words, e: Words, j: nat, ys: nat, yd: Words, qd: int, c: int)
    requires Part(wd, j, j + ys) + c * Pow(ys) == Part(rd, j, j + ys) + qd * Part(yd, 0, ys) + 0
    requires Same(wd, e, j, j + ys) && Get(e, j + ys) == Get(rd, j + ys) + c
    ensures Part(e, j, j + ys + 1) == Part(rd, j, j + ys + 1) + qd * Part(yd, 0, ys)
  {
    hide Part, Pow;
    PartFrame(wd, e, j, j + ys);
    PartTop(e, j, j + ys);
    PartTop(rd, j, j + ys);
    MulDistrib(Pow(ys), Get(rd, j + ys), c);
  }

  lemma TopDigitFits(e: Words, j: nat, ys: nat)
    requires AllDigits(e, j, j + ys) && Part(e, j, j + ys + 1) < DV * Pow(ys)
    ensures Get(e, j + ys) < DV
  {
    hide Part, Pow;
    PartBound(e, j, j + ys);
    PartTop(e, j, j + ys);
    CancelLess(Get(e, j + ys), DV, Pow(ys));
  }

  lemma MultipleStep(r: int, qd: int, x: int)
    ensures r + qd * x - x == r + (qd - 1) * x
  {
    MulDistrib(x, qd, 1);
  }

  lemma TopSetMono(a: int, b: int, n: nat, high: int, m: nat)
    requires TopSet(a, n, high, m) && a <= b
    ensures TopSet(b, n, high, m)
  {
  }

  /** A clamped remainder has its top digit set, in the part being divided or in the quotient above. */
  lemma TopIsSet(rd: Words, t: nat, j: nat, ys: nat)
    requires AllDigits(rd, 0, t) && j + ys < t && IsClamped(rd, t, 0)
    ensures TopSet(Part(rd, j, j + ys + 1), ys + 1, Part(rd, j + ys + 1, t), t - j - ys - 1)
  {
    hide Part, Pow;
    var k := j + ys + 1;
    if k < t {
      PartTop(rd, k, t - 1);
      PartBound(rd, k, t - 1);
      MulMono(Pow(t - 1 - k), 1, rd[t - 1]);
    } else {
      PartTop(rd, j, k - 1);
      PartBound(rd, j, k - 1);
      MulMono(Pow(ys), 1, rd[k - 1]);
      PartZero(rd, k, k);
    }
  }

  lemma SetIsClamped(rd: Words, t: nat, j: nat, ys: nat)
    requires AllDigits(rd, 0, t) && j + ys < t
    requires TopSet(Part(rd, j, j + ys + 1), ys + 1, Part(rd, j + ys + 1, t), t - j - ys - 1)
    ensures IsClamped(rd, t, 0)
  {
    hide Part, Pow;
    var k := j + ys + 1;
    if k < t {
      PartTop(rd, k, t - 1);
      PartBound(rd, k, t - 1);
    } else {
      PartTop(rd, j, k - 1);
      PartBound(rd, j, k - 1);
    }
  }

  /** A normalized divisor is at least half of DV^ys. */
  lemma NormalizedBounds(yd: Words, ys: nat)
    requires Normalized(yd, ys)
    ensures 0 < Part(yd, 0, ys) < Pow(ys) <= 2 * Part(yd, 0, ys)
  {
    hide Part;
    PartTop(yd, 0, ys - 1);
    PartBound(yd, 0, ys - 1);
    PartBound(yd, 0, ys);
    assert Pow(ys) == DV * Pow(ys - 1);
    TopHalf(DV, Part(yd, 0, ys - 1), yd[ys - 1], Pow(ys - 1));
    hide *;
  }

  lemma TopHalf(b: int, low: int, g: int, w: int)
    requires 0 <= low && 0 < w && 1 <= b <= 2 * g
    ensures 0 < low + g * w && b * w <= 2 * (low + g * w)
  {
    MulMono(w, b, 2 * g);
    MulMono(w, 1, g);
    MulAssoc(w, 2, g);
  }

  lemma DividedStart(rd: Words, t: nat, j: nat, ys: nat, y: int)
    requires t == j + ys && Part(rd, 0, t) < Pow(j) * y
    ensures Divided(rd, t, j, ys, y, Part(rd, 0, t))
  {
    PartZero(rd, t, t);
  }

  lemma LeadingOnePut(rd: Words, t: nat)
    requires AllDigits(rd, 0, t)
    ensures WellFormed(rd[t := 1], t + 1, 0) && Val(rd[t := 1], t + 1, 0) == Val(rd, t, 0) + Pow(t)
  {
    PartTop(rd[t := 1], 0, t);
    PartFrame(rd, rd[t := 1], 0, t);
  }

  lemma OneOnTop(e: Words, t: nat, s: int, i: nat, v: int)
    requires WellFormed(e, t, s) && IsClamped(e, t, s) && 0 <= v < Pow(i) && Val(e, t, s) == v + Pow(i)
    ensures t == i + 1 && s == 0 && Part(e, 0, i) == v && Part(e, i, t) == 1
  {
    hide Part, Val;
    assert HasLength(Val(e, t, s), i + 1) by {
      MulMono(Pow(i), 2, DV);
    }
    LengthIs(e, t, s, i + 1);
    hide Pow;
    PartSplit(e, 0, i, i + 1);
    PartBound(e, 0, i);
    ValUnfold(e, t, 0);
    DivModUnique(Pow(i), Part(e, 0, i), Part(e, i, i + 1), v, 1);
  }

  /** After the subtraction the 1 is still there: what is left below it is n - y * DV^j, less than y * DV^j. */
  lemma LeadingOneTaken(rd: Words, i: nat, e: Words, t: nat, s: int, j: nat, ys: nat, y: int, n: int)
    requires i == j + ys && AllDigits(rd, 0, i) && n == Val(rd, i, 0) && Pow(j) * y <= n && Pow(ys) <= 2 * y && 0 < y
    requires WellFormed(e, t, s) && IsClamped(e, t, s) && Val(e, t, s) == n + Pow(i) - Pow(j) * y
    ensures t == i + 1 && s == 0 && Divided(e, t, j, ys, y, n)
  {
    hide Part, Pow, Val;
    PartBound(rd, 0, i);
    ValUnfold(rd, i, 0);
    PowAdd(j, ys);
    HalfBound(Pow(j), Pow(ys), y, n);
    OneOnTop(e, t, s, i, n - Pow(j) * y);
    assert y * 1 == y;
  }

  lemma HalfBound(p: int, w: int, y: int, n: int)
    requires 0 < p && w <= 2 * y && 0 < y && n < p * w
    ensures n < 2 * (p * y) && n - p * y < p * w
  {
    MulMono(p, w, 2 * y);
    MulAssoc(p, 2, y);
    MulMono(p, 0, y);
  }

  lemma PadZero(d: Words, t: nat)
    ensures Val(d[t := 0], t + 1, 0) == Val(d, t, 0)
  {
    PartTop(d[t := 0], 0, t);
    PartFrame(d, d[t := 0], 0, t);
    hide Part, Pow;
  }

  /** The quotient digit that the next step has to find. */
  lemma StepQuotient(rd: Words, t: nat, j: nat, yd: Words, ys: nat, n: int) returns (q: int)
    requires AllDigits(rd, 0, t) && Normalized(yd, ys) && Divided(rd, t, j + 1, ys, Part(yd, 0, ys), n)
    ensures StepDomain(rd, j, yd, ys, q) && IsDigit(q)
    ensures IsQuotient(Part(rd, j, j + ys + 1), Part(yd, 0, ys), q) && Part(rd, j, j + ys + 1) < DV * Part(yd, 0, ys)
  {
    hide Part, Pow;
    DividedBound(rd, t, j, ys, Part(yd, 0, ys), n);
    NormalizedBounds(yd, ys);
    q := FloorQuotient(Part(rd, j, j + ys + 1), Part(yd, 0, ys));
    QuotientIsDigit(rd, j, yd, ys, q);
  }

  lemma FloorQuotient(r: int, y: int) returns (q: int)
    requires 0 < y
    ensures IsQuotient(r, y, q)
  {
    q := r / y;
    MulDistrib(y, q, 1);
  }

  /** All of the n lowest entries are the digit 0. */
  ghost predicate AllZero(d: Words, n: int) { forall k :: 0 <= k < n ==> k in d && d[k] == 0 }

  lemma {:induction false} ZeroPart(d: Words, n: nat)
    requires AllDigits(d, 0, n) && Part(d, 0, n) == 0
    ensures AllZero(d, n)
  {
    hide Part, Pow;
    if n > 0 {
      PartTop(d, 0, n - 1);
      PartBound(d, 0, n - 1);
      ZeroSum(Part(d, 0, n - 1), d[n - 1], Pow(n - 1));
      ZeroPart(d, n - 1);
    }
  }

  lemma ZeroSum(v: int, g: int, p: int)
    requires v >= 0 && g >= 0 && p > 0
    ensures v + g * p == 0 ==> v == 0 && g == 0
  {
    MulMono(p, 0, g);
    if g > 0 {
      MulMono(p, 1, g);
    }
  }

  /** A dividend of 0 that was never clamped. It has n zero digits if no bit shift clamped it meanwhile, else none. */
  ghost predicate PaddedZero(d: Words, t: nat, s: int, n: nat) {
    n > 0 && s == 0 && AllZero(d, n) && (t == 0 || t == n)
  }

  lemma PaddedZeroValue(d: Words, t: nat, s: int, n: nat)
    requires PaddedZero(d, t, s, n)
    ensures Val(d, t, s) == 0
  {
    PartZero(d, 0, t);
  }

  lemma ZeroCopied(d: Words, e: Words, n: nat)
    requires AllZero(d, n) && AllDigits(e, 0, n) && Same(e, d, 0, n)
    ensures AllZero(e, n)
  {
    forall k | 0 <= k < n
      ensures k in e && e[k] == 0
    {
      assert Get(e, k) == Get(d, k);
    }
  }

  /** What the division makes of it: still 0, or a 1 put above no digits at all. */
  ghost predicate NearZero(d: Words, t: nat, s: int, n: nat, one: bool) {
    n > 0 && s == 0 && t == (if one then 1 else n)
    && forall k :: 0 <= k < n ==> k in d && d[k] == if one && k == 0 then 1 else 0
  }

  lemma NearZeroValue(d: Words, t: nat, s: int, n: nat, one: bool)
    requires NearZero(d, t, s, n, one)
    ensures WellFormed(d, t, s) && t <= n && AllDigits(d, 0, n)
    ensures Part(d, 0, n) == if one then 1 else 0
    ensures Val(d, t, s) == if one then 1 else 0
  {
    PartSplit(d, 0, 1, n);
    PartZero(d, 1, n);
    PartTop(d, 0, 0);
    assert Pow(0) == 1 && Part(d, 0, 0) == 0;
    hide Part, Pow;
  }

  lemma NearZeroResult(d: Words, t: nat, s: int, n: nat, one: bool, p: int)
    requires NearZero(d, t, s, n, one) && (if one then p > 1 else p > 0)
    ensures WellFormed(d, t, s) && t <= n && AllDigits(d, 0, n)
    ensures Val(d, t, s) / Pow(n) == 0 && Part(d, 0, n) / p == 0
  {
    PowMono(1, n);
    assert Pow(1) == DV * Pow(0);
    hide Part, Pow, Val;
    NearZeroValue(d, t, s, n, one);
    FloorDiv(Val(d, t, s), Pow(n), 0, Val(d, t, s));
    FloorDiv(Part(d, 0, n), p, 0, Part(d, 0, n));
  }

  lemma ValOne(d: Words)
    ensures Val(d[0 := 1], 1, 0) == 1
  {
    PartTop(d[0 := 1], 0, 0);
    assert Pow(0) == 1;
  }

  lemma OneIsOneDigit(d: Words, t: nat, s: int)
    requires WellFormed(d, t, s) && IsClamped(d, t, s) && Val(d, t, s) == 1
    ensures t == 1 && s == 0 && d[0] == 1
  {
    assert Pow(0) == 1 && Pow(1) == DV * Pow(0);
    LengthIs(d, t, s, 1);
    PartTop(d, 0, 0);
  }
}
