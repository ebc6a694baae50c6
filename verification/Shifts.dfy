/** Shifts by bits: how a digit splits, and what the digits of a shifted number stand for. */
module Shifts {
  import opened Arith
  import opened Digits
  import opened Engine
  import opened JsNumbers

  /** Digits p, ..., hi - 1 of rd and the carry c below them are k = 2^bs times digits i, ..., t - 1 of td. */
  ghost predicate LShifted(rd: Words, p: int, hi: int, td: Words, i: int, t: int, s: int, k: int, c: int) {
    i <= t && hi - p == t - i && c + DV * Tail(rd, p, hi, s) == k * Tail(td, i, t, s)
  }

  lemma LShiftStart(rd: Words, hi: int, td: Words, t: int, s: int, k: int, c: int)
    requires c + DV * s == k * s
    ensures LShifted(rd, hi, hi, td, t, t, s, k, c)
  {
    TailEmpty(rd, hi, s);
    TailEmpty(td, t, s);
  }

  /** One digit of a left shift: it splits into x1 above and x0 below bit position cbs, where m = 2^cbs. */
  lemma LShiftStep(rd: Words, p: int, hi: int, td: Words, i: int, t: int, s: int, k: int, m: int, c: int, x1: int, x0: int)
    requires i < t && LShifted(rd, p + 1, hi, td, i + 1, t, s, k, c)
    requires Halves(Get(td, i), k, m, x1, x0) && ShlFits(x0, k)
    ensures LShifted(rd[p := c + x1], p, hi, td, i, t, s, k, Shl(x0, k))
  {
    var rd' := rd[p := c + x1];
    TailFrame(rd, rd', p + 1, hi, s);
    TailLow(rd', p, hi, s);
    TailLow(td, i, t, s);
    hide Tail, Part;
    LShiftArith(k, m, c, x1, x0, Tail(rd, p + 1, hi, s), Tail(td, i + 1, t, s));
  }

  lemma LShiftArith(k: int, m: int, c: int, x1: int, x0: int, a: int, b: int)
    requires k * m == DV && c + DV * a == k * b
    ensures x0 * k + DV * (c + x1 + DV * a) == k * (x1 * m + x0 + DV * b)
  {
    MulDistrib(DV, c + x1, DV * a);
    MulDistrib(DV, c, x1);
    MulDistrib(DV, c, DV * a);
    MulDistrib(k, x1 * m + x0, DV * b);
    MulDistrib(k, x1 * m, x0);
    MulAssoc(k, m, x1);
    MulAssoc(k, DV, b);
    MulAssoc(DV, k, b);
  }

  /** n zero digits below multiply by DV^n. */
  lemma DLShiftValue(d: Words, e: Words, n: nat, t: nat, s: int)
    requires forall k :: 0 <= k < n ==> Get(e, k) == 0
    requires forall k :: n <= k < t + n ==> Get(e, k) == Get(d, k - n)
    ensures Val(e, t + n, s) == Pow(n) * Val(d, t, s)
  {
    hide Part, Pow, Val, Tail;
    PartZero(e, 0, n);
    TailShift(d, e, t, n, s);
    TailSplit(e, n, t + n, s);
    TailAll(d, t, s);
  }

  /** The first m entries of e are those of d from n on. */
  ghost predicate MovedDown(e: Words, d: Words, n: nat, m: int) {
    forall k :: 0 <= k < m ==> EntryMoved(e, d, n, k)
  }

  ghost predicate EntryMoved(e: Words, d: Words, n: nat, k: int) { k in e && k + n in d && e[k] == d[k + n] }

  lemma EmptyMove(e: Words, d: Words, n: nat, m: int)
    requires m <= 0
    ensures MovedDown(e, d, n, m)
  {
  }

  lemma MovedDownStep(e: Words, d: Words, n: nat, m: nat)
    requires MovedDown(e, d, n, m) && m + n in d
    ensures MovedDown(e[m := d[m + n]], d, n, m + 1)
  {
    var e' := e[m := d[m + n]];
    forall k | 0 <= k < m + 1
      ensures EntryMoved(e', d, n, k)
    {
      if k < m {
        assert EntryMoved(e, d, n, k);
      }
    }
  }

  lemma MovedDownDigits(e: Words, d: Words, n: nat, m: nat)
    requires MovedDown(e, d, n, m) && AllDigits(d, 0, m + n)
    ensures AllDigits(e, 0, m) && forall k :: 0 <= k < m ==> Get(e, k) == Get(d, k + n)
  {
    forall k | 0 <= k < m
      ensures k in e && IsDigit(e[k]) && Get(e, k) == Get(d, k + n)
    {
      assert EntryMoved(e, d, n, k);
    }
  }

  lemma TailShift(d: Words, e: Words, t: nat, n: nat, s: int)
    requires forall k :: n <= k < t + n ==> Get(e, k) == Get(d, k - n)
    ensures Tail(e, n, t + n, s) == Tail(d, 0, t, s)
  {
    hide Part, Pow;
    forall k | 0 <= k < t
      ensures Get(e, k + n) == Get(d, k)
    {
      assert Get(e, k + n) == Get(d, k + n - n);
    }
    PartShift(d, e, 0, t, n);
  }

  lemma LShiftValue(d: Words, high: Words, e: Words, n: nat, ds: nat, t: nat, s: int, c: int)
    requires ds == n / DB && LShifted(high, ds + 1, t + ds + 1, d, 0, t, s, Pow2(n % DB), c)
    requires Same(high, e, ds + 1, t + ds + 1) && Get(e, ds) == c
    requires forall j :: 0 <= j < ds ==> Get(e, j) == 0
    ensures Val(e, t + ds + 1, s) == Pow2(n) * Val(d, t, s)
  {
    var k := Pow2(n % DB);
    TailAll(d, t, s);
    TailFrame(high, e, ds + 1, t + ds + 1, s);
    TailLow(e, ds, t + ds + 1, s);
    assert Tail(e, ds, t + ds + 1, s) == k * Val(d, t, s);
    PartZero(e, 0, ds);
    TailSplit(e, ds, t + ds + 1, s);
    MulAssoc(Pow(ds), k, Val(d, t, s));
    Pow2Split(n);
    hide Part, Pow, Pow2, Val, Tail;
  }

  /** Digits 0, ..., p - 1 of rd are the bits of digits lo, ..., lo + p - 1 of td, without the lowest bs, where k = 2^bs. */
  ghost predicate RShifted(rd: Words, p: nat, td: Words, lo: int, k: int) {
    k > 0 && k * Part(rd, 0, p) + Get(td, lo) % k == Part(td, lo, lo + p)
  }

  lemma RShiftStart(rd: Words, td: Words, lo: int, k: int)
    requires k > 0 && IsDigit(Get(td, lo)) && Get(rd, 0) == Shr(Get(td, lo), k)
    ensures RShifted(rd, 1, td, lo, k)
  {
    PartTop(rd, 0, 0);
    PartTop(td, lo, lo);
  }

  /** The next digit x1 * k + x0 of td gives its low bits to the digit already there and keeps the rest for its own. */
  lemma RShiftStep(rd: Words, p: nat, td: Words, lo: int, k: int, m: int, x1: int, x0: int, e: Words)
    requires p > 0 && RShifted(rd, p, td, lo, k)
    requires Halves(Get(td, lo + p), m, k, x1, x0) && ShlFits(x0, m)
    requires Same(rd, e, 0, p - 1) && Get(e, p - 1) == Get(rd, p - 1) + Shl(x0, m) && Get(e, p) == x1
    ensures RShifted(e, p + 1, td, lo, k)
  {
    hide Part, Pow, Get;
    PartFrame(rd, e, 0, p - 1);
    PartTop(rd, 0, p - 1);
    PartTop(e, 0, p - 1);
    PartTop(e, 0, p);
    PartTop(td, lo, lo + p);
    PowStep(p - 1);
    RShiftArith(k, m, Part(rd, 0, p - 1), Get(rd, p - 1), Get(e, p - 1), x1, x0, Get(td, lo + p), Pow(p - 1), Pow(p),
      Part(td, lo, lo + p), Get(td, lo) % k);
  }

  lemma RShiftArith(k: int, m: int, a: int, y: int, y': int, x1: int, x0: int, x: int, w: int, w': int, b: int, low: int)
    requires k * m == DV && k * (a + y * w) + low == b && y' == y + x0 * m && x == x1 * k + x0 && w' == DV * w
    ensures k * (a + y' * w + x1 * w') + low == b + x * w'
  {
    MulDistrib(w, y, x0 * m);
    MulDistrib(k, a + y * w, x0 * m * w);
    MulDistrib(k, a + y * w + x0 * m * w, x1 * (DV * w));
    MulDistrib(DV * w, x1 * k, x0);
    assert k * (x0 * m * w) == x0 * (DV * w) by {
      MulAssoc(k, x0 * m, w);
      MulAssoc(x0, k, m);
      MulAssoc(x0, DV, w);
    }
    MulAssoc(k, x1, DV * w);
  }

  /** What the last statements of a right shift make of its digits: x completes the top digit. */
  function TopFilled(rd: Words, p: int, x: int): Words { rd[p - 1 := Get(rd, p - 1) + x] }

  lemma TopFilledValue(rd: Words, p: nat, x: int)
    requires p > 0
    ensures Part(TopFilled(rd, p, x), 0, p) == Part(rd, 0, p) + x * Pow(p - 1)
  {
    hide Part, Pow, Get, TopFilled, Same;
    var e := TopFilled(rd, p, x);
    TopFilledDigits(rd, p, x);
    PartFrame(rd, e, 0, p - 1);
    PartTop(rd, 0, p - 1);
    PartTop(e, 0, p - 1);
    MulDistrib(Pow(p - 1), Get(rd, p - 1), x);
  }

  lemma TopFilledDigits(rd: Words, p: nat, x: int)
    requires p > 0
    ensures Same(rd, TopFilled(rd, p, x), 0, p - 1) && Get(TopFilled(rd, p, x), p - 1) == Get(rd, p - 1) + x
  {
  }

  lemma RShiftTop(d: Words, t: nat, s: int, rd: Words, ds: nat, k: int, m: int, x: int)
    requires ds < t && (s == 0 || s == -1) && k * m == DV && RShifted(rd, t - ds, d, ds, k)
    requires x == if s == 0 then 0 else DV - m
    ensures Tail(d, ds, t, s) == k * Val(TopFilled(rd, t - ds, x), t - ds, s) + Get(d, ds) % k
  {
    var p := t - ds;
    TopFilledValue(rd, p, x);
    assert Pow(p) == DV * Pow(p - 1);
    hide Part, Pow, TopFilled;
    SignFill(k, m, s, x, Part(rd, 0, p), Pow(p - 1));
  }

  lemma SignFill(k: int, m: int, s: int, x: int, a: int, w: int)
    requires k * m == DV && (s == 0 || s == -1) && x == if s == 0 then 0 else DV - m
    ensures k * (a + x * w + s * (DV * w)) == k * a + s * (DV * w)
  {
    MulDistrib(w, DV, m);
    MulDistrib(k, a, m * w);
    MulAssoc(k, m, w);
  }

  /** Right shift by n bits is division by 2^n that rounds down. */
  lemma RShiftValue(d: Words, t: nat, s: int, rd: Words, n: nat, ds: nat, k: int, m: int, x: int)
    requires WellFormed(d, t, s) && ds == n / DB && ds < t && k == Pow2(n % DB) && m == Pow2(DB - n % DB)
    requires RShifted(rd, t - ds, d, ds, k) && x == if s == 0 then 0 else DV - m
    ensures Val(TopFilled(rd, t - ds, x), t - ds, s) == Val(d, t, s) / Pow2(n)
  {
    Pow2Split(n);
    RShiftTop(d, t, s, rd, ds, k, m, x);
    TailSplit(d, ds, t, s);
    PartBound(d, 0, ds);
    hide Part, Pow, Tail, Val, TopFilled, RShifted, Pow2;
    RoundDown(Pow(ds), k, Part(d, 0, ds), Get(d, ds) % k, Val(TopFilled(rd, t - ds, x), t - ds, s), Val(d, t, s));
  }

  /** `(s & bm) << cbs` */
  lemma SignBits(s: int, k: int, m: int)
    requires (s == 0 || s == -1) && k * m == DV && 0 < k && 0 < m
    ensures k <= TWO31 && ShlFits(Mask(s, k), m) && IsMultiple(Shl(Mask(s, k), m), m)
    ensures Shl(Mask(s, k), m) == if s == 0 then 0 else DV - m
  {
    MulMono(k, 1, m);
    if s == 0 {
      FloorDiv(0, k, 0, 0);
      FloorDiv(0, m, 0, 0);
    } else {
      FloorDiv(-1, k, -1, k - 1);
      MulDistrib(m, k, 1);
      ModMultiple(k - 1, m);
    }
  }

  lemma Pow2Zero()
    ensures Pow2(0) == 1
  {
  }

  lemma DropAllBits(d: Words, t: nat, s: int, n: nat)
    requires WellFormed(d, t, s) && t <= n / DB
    ensures s == Val(d, t, s) / Pow2(n)
  {
    ValRange(d, t, s);
    PowIsPow2(t);
    Pow2Mono(DB * t, n);
    hide Val, Pow, Pow2;
    var v := Val(d, t, s);
    FloorDiv(v, Pow2(n), s, if s == 0 then v else v + Pow2(n));
  }

  lemma RoundDown(p: int, k: int, a: int, b: int, q: int, v: int)
    requires 0 <= a < p && 0 <= b < k && v == a + p * (k * q + b)
    ensures v / (p * k) == q
  {
    MulDistrib(p, k * q, b);
    MulAssoc(p, k, q);
    ProductBound(p, b, p, k - 1);
    MulDistrib(p, k, 1);
    FloorDiv(v, p * k, q, p * b + a);
  }

  lemma ShlOne(m: int)
    requires 0 < m < TWO31
    ensures ShlFits(1, m) && Shl(1, m) == m
  {
  }

  lemma ShiftBounds(bs: nat)
    requires bs < DB
    ensures Pow2(bs) < DV && Pow2(DB - bs) <= DV && Pow2(bs) * Pow2(DB - bs) == DV
  {
    Pow2Add(bs, DB - bs);
    Pow2Mono(bs, DB - 1);
    Pow2Mono(DB - bs, DB);
    PowIsPow2One();
  }

  /** `(s << bs) & DM`: the bits a sign word brings in from above. */
  lemma SignShift(s: int, k: int, m: int)
    requires (s == 0 || s == -1) && k * m == DV && 0 < k < DV
    ensures ShlFits(s, k)
    ensures var c := Mask(Shl(s, k), DV); c + DV * s == k * s && IsMultiple(c, k) && 0 <= c <= DV - k
  {
    if s == 0 {
      FloorDiv(0, DV, 0, 0);
      FloorDiv(0, k, 0, 0);
    } else {
      FloorDiv(-k, DV, -1, DV - k);
      MulDistrib(k, m, 1);
      ModMultiple(m - 1, k);
    }
  }

  /** x splits into hi above and lo below the bit m, and lo fits above the bit k, where k * m = DV. */
  ghost predicate Halves(x: int, k: int, m: int, hi: int, lo: int) {
    x == hi * m + lo && 0 <= hi < k && 0 <= lo < m <= DV && k * m == DV && 0 <= lo * k <= DV - k
  }

  lemma DigitHalves(x: int, k: int, m: int)
    requires IsDigit(x) && k * m == DV && 0 < k && 0 < m <= DV
    ensures Halves(x, k, m, Shr(x, m), Mask(x, m))
    ensures ShlFits(Mask(x, m), k) && IsMultiple(Shl(Mask(x, m), k), k)
    ensures 0 <= Shl(Mask(x, m), k) <= DV - k && 0 <= Shr(x, m) < k
  {
    HalvesArith(x, k, m, x / m, x % m);
  }

  lemma HalvesArith(x: int, k: int, m: int, h: int, l: int)
    requires IsDigit(x) && k * m == DV && 0 < k && 0 < m && x == h * m + l && 0 <= l < m
    ensures 0 <= h < k && 0 <= l * k <= DV - k && (l * k) % k == 0
  {
    if h >= k {
      MulMono(m, k, h);
    } else if h < 0 {
      MulMono(m, h, -1);
    }
    ProductBound(k, l, k, m - 1);
    MulDistrib(k, m, 1);
    ModMultiple(l, k);
  }
}
