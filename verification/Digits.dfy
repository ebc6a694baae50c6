/** The number that a stretch of base-DV digits stands for. */
module Digits {
  import opened Arith
  import opened Engine
  import opened JsNumbers

  /** The number object a JavaScript digit array is: index properties, some of them set. */
  type Words = map<int, int>

  function Get(d: Words, i: int): int { if i in d then d[i] else 0 }

  function Pow(n: nat): (p: int)
    ensures p >= 1
  {
    if n == 0 then 1 else DV * Pow(n - 1)
  }

  /** The value of digits lo, ..., hi - 1. */
  function Part(d: Words, lo: int, hi: int): int
    decreases hi - lo
  {
    if hi <= lo then 0 else Part(d, lo, hi - 1) + Get(d, hi - 1) * Pow(hi - 1 - lo)
  }

  /** Entries lo, ..., hi - 1 are set and are digits. */
  ghost predicate AllDigits(d: Words, lo: int, hi: int) {
    forall k :: lo <= k < hi ==> k in d && IsDigit(d[k])
  }

  /** d and e agree on entries lo, ..., hi - 1. */
  ghost predicate Same(d: Words, e: Words, lo: int, hi: int) {
    forall k :: lo <= k < hi ==> Get(d, k) == Get(e, k)
  }

  lemma {:induction false} PowAdd(a: nat, b: nat)
    ensures Pow(a + b) == Pow(a) * Pow(b)
  {
    if a > 0 {
      PowAdd(a - 1, b);
      MulAssoc(DV, Pow(a - 1), Pow(b));
      assert Pow(a) == DV * Pow(a - 1) && Pow(a + b) == DV * Pow(a - 1 + b);
      hide Pow;
    }
  }

  lemma PartTop(d: Words, lo: int, hi: int)
    requires lo <= hi
    ensures Part(d, lo, hi + 1) == Part(d, lo, hi) + Get(d, hi) * Pow(hi - lo)
  {
  }

  lemma PartEmpty(d: Words, lo: int, hi: int)
    requires hi <= lo
    ensures Part(d, lo, hi) == 0
  {
  }

  lemma PowStep(n: nat)
    ensures Pow(n + 1) == DV * Pow(n) && Pow(0) == 1
  {
  }

  lemma {:induction false} PartFrame(d: Words, e: Words, lo: int, hi: int)
    requires Same(d, e, lo, hi)
    ensures Part(d, lo, hi) == Part(e, lo, hi)
    decreases hi - lo
  {
    if lo < hi {
      assert Get(d, hi - 1) == Get(e, hi - 1);
      PartFrame(d, e, lo, hi - 1);
    }
  }

  lemma {:induction false} PartShift(d: Words, e: Words, lo: int, hi: int, n: int)
    requires forall k :: lo <= k < hi ==> Get(e, k + n) == Get(d, k)
    ensures Part(e, lo + n, hi + n) == Part(d, lo, hi)
    decreases hi - lo
  {
    hide Part, Pow;
    if lo < hi {
      assert Get(e, hi - 1 + n) == Get(d, hi - 1);
      PartTop(d, lo, hi - 1);
      PartTop(e, lo + n, hi - 1 + n);
      PartShift(d, e, lo, hi - 1, n);
    } else {
      PartEmpty(d, lo, hi);
      PartEmpty(e, lo + n, hi + n);
    }
  }

  lemma {:induction false} PartSplit(d: Words, lo: int, mid: int, hi: int)
    requires lo <= mid <= hi
    ensures Part(d, lo, hi) == Part(d, lo, mid) + Pow(mid - lo) * Part(d, mid, hi)
    decreases hi - mid
  {
    if mid < hi {
      var g, p, q := Get(d, hi - 1), Pow(mid - lo), Pow(hi - 1 - mid);
      PartSplit(d, lo, mid, hi - 1);
      PowAdd(mid - lo, hi - 1 - mid);
      MulDistrib(p, Part(d, mid, hi - 1), g * q);
      MulAssoc(p, g, q);
      MulAssoc(g, p, q);
    }
  }

  lemma {:induction false} PartBound(d: Words, lo: int, hi: int)
    requires lo <= hi && AllDigits(d, lo, hi)
    ensures 0 <= Part(d, lo, hi) < Pow(hi - lo)
    decreases hi - lo
  {
    hide Part, Pow;
    if lo == hi {
      PartEmpty(d, lo, hi);
    } else {
      PartBound(d, lo, hi - 1);
      PartTop(d, lo, hi - 1);
      PowStep(hi - 1 - lo);
      BelowNextPower(Part(d, lo, hi - 1), d[hi - 1], Pow(hi - 1 - lo));
    }
  }

  lemma BelowNextPower(v: int, g: int, p: int)
    requires 0 <= v < p && IsDigit(g)
    ensures 0 <= v + g * p < DV * p
  {
    MulMono(p, 0, g);
    MulMono(p, g, DM);
    MulDistrib(p, DV, 1);
  }

  /** A stretch of zero digits has value 0. */
  lemma {:induction false} PartZero(d: Words, lo: int, hi: int)
    requires forall k :: lo <= k < hi ==> Get(d, k) == 0
    ensures Part(d, lo, hi) == 0
    decreases hi - lo
  {
    if lo < hi {
      PartZero(d, lo, hi - 1);
    }
  }

  /** A stretch of digits DM is one short of a power of DV. */
  lemma {:induction false} PartOnes(d: Words, lo: int, hi: int)
    requires lo <= hi
    requires forall k :: lo <= k < hi ==> Get(d, k) == DM
    ensures Part(d, lo, hi) == Pow(hi - lo) - 1
    decreases hi - lo
  {
    if lo < hi {
      PartOnes(d, lo, hi - 1);
      MulDistrib(Pow(hi - 1 - lo), DV, 1);
    }
  }

  lemma {:induction false} PowMono(a: nat, b: nat)
    requires a <= b
    ensures Pow(a) <= Pow(b)
  {
    if a < b {
      PowMono(a, b - 1);
      MulMono(Pow(b - 1), 1, DV);
    }
  }

  /** The digits below t and s in position t. With a sign word s in {0, -1} this is two's complement,
      as if copies of the sign went on forever; with any other s it is a number with a pending carry. */
  function Val(d: Words, t: nat, s: int): int { Part(d, 0, t) + s * Pow(t) }

  ghost predicate WellFormed(d: Words, t: nat, s: int) {
    (s == 0 || s == -1) && AllDigits(d, 0, t)
  }

  /** `s & DM`: the digit that only repeats the sign. */
  function SignDigit(s: int): int { if s == 0 then 0 else DM }

  /** No digit at the top merely repeats the sign. */
  ghost predicate IsClamped(d: Words, t: nat, s: int) {
    t > 0 ==> Get(d, t - 1) != SignDigit(s)
  }

  /** Dropping a digit that repeats the sign keeps the value. */
  lemma ClampStep(d: Words, t: nat, s: int)
    requires t > 0 && (s == 0 || s == -1) && Get(d, t - 1) == SignDigit(s)
    ensures Val(d, t - 1, s) == Val(d, t, s)
  {
    MulDistrib(Pow(t - 1), DV, 1);
  }

  /** The sign word is the sign of the value, and the length bounds it. */
  lemma ValRange(d: Words, t: nat, s: int)
    requires WellFormed(d, t, s)
    ensures -Pow(t) <= Val(d, t, s) < Pow(t)
    ensures s == 0 <==> Val(d, t, s) >= 0
  {
    hide Part, Pow;
    PartBound(d, 0, t);
  }

  /** A clamped number is as large as its length says. */
  lemma ClampedRange(d: Words, t: nat, s: int)
    requires WellFormed(d, t, s) && IsClamped(d, t, s) && t > 0
    ensures s == 0 ==> Val(d, t, s) >= Pow(t - 1)
    ensures s == -1 ==> Val(d, t, s) < -Pow(t - 1)
  {
    PartBound(d, 0, t - 1);
    var p := Pow(t - 1);
    MulDistrib(p, DV, 1);
    if s == 0 {
      MulMono(p, 1, d[t - 1]);
    } else {
      MulMono(p, d[t - 1], DM - 1);
      MulDistrib(p, DM, 1);
    }
  }

  /** What a number's bits say once the copies of its sign are left out: the number itself, or -1 minus it. */
  function WithoutSign(v: int): nat { if v < 0 then -v - 1 else v }

  /** `this[this.t-1]^(this.s&this.DM)`: the top digit of WithoutSign. */
  function DigitWithoutSign(x: int, s: int): int { if s == 0 then x else DM - x }

  /** The top digit is not 0, and it fixes the number up to the weight of that digit. */
  lemma TopDigitRange(d: Words, t: nat, s: int)
    requires WellFormed(d, t, s) && IsClamped(d, t, s) && t > 0
    ensures var g := DigitWithoutSign(d[t - 1], s);
      0 < g < DV && g * Pow(t - 1) <= WithoutSign(Val(d, t, s)) < (g + 1) * Pow(t - 1)
  {
    hide Part, Val, WithoutSign;
    PartTop(d, 0, t - 1);
    PartBound(d, 0, t - 1);
    assert Pow(t) == DV * Pow(t - 1);
    hide Pow;
    ValUnfold(d, t, s);
    TopRange(Pow(t - 1), d[t - 1], Part(d, 0, t - 1), s);
  }

  lemma TopRange(p: int, x: int, low: int, s: int)
    requires 0 <= low < p && IsDigit(x) && (s == 0 || s == -1)
    ensures var g := DigitWithoutSign(x, s);
      g * p <= WithoutSign(low + x * p + s * (DV * p)) < (g + 1) * p
  {
    MulMono(p, 0, x);
    MulMono(p, x, DM);
    MulDistrib(p, DM, x);
    MulDistrib(p, DM - x, 1);
    MulDistrib(p, x, 1);
    MulDistrib(p, DM, 1);
  }

  /** The bits of the top digit, above those of t digits. */
  lemma TopDigitBits(g: int, t: nat, w: int, r: nat)
    requires 0 < r && Pow2(r - 1) <= g < Pow2(r) && g * Pow(t) <= w < (g + 1) * Pow(t)
    ensures Pow2(DB * t + r - 1) <= w < Pow2(DB * t + r)
  {
    hide Pow, Pow2;
    PowIsPow2(t);
    Pow2Add(DB * t, r - 1);
    Pow2Add(DB * t, r);
    assert DB * t + (r - 1) == DB * t + r - 1;
    MulMono(Pow(t), Pow2(r - 1), g);
    MulMono(Pow(t), g + 1, Pow2(r));
  }

  /** A clamped number below Pow(n) has at most n digits. */
  lemma ClampedLength(d: Words, t: nat, s: int, n: nat)
    requires WellFormed(d, t, s) && IsClamped(d, t, s)
    requires -Pow(n) <= Val(d, t, s) < Pow(n)
    ensures t <= n
  {
    if t > n {
      ClampedRange(d, t, s);
      PowMono(n, t - 1);
    }
  }

  lemma ValPlus(d: Words, i: nat, c: int, x: int)
    ensures Val(d, i, c + x) == Val(d, i, c) + x * Pow(i)
    ensures Val(d, i, c - x) == Val(d, i, c) - x * Pow(i)
  {
    hide Part, Pow;
    MulDistrib(Pow(i), c, x);
  }

  lemma ValUnfold(d: Words, t: nat, s: int)
    ensures Val(d, t, s) == Part(d, 0, t) + s * Pow(t)
  {
  }

  /** Writing digit i turns the carry into a carry into position i + 1. */
  lemma ValPut(d: Words, i: nat, c: int, w: int, c': int)
    requires w + DV * c' == c
    ensures Val(d[i := w], i + 1, c') == Val(d, i, c)
  {
    PartFrame(d, d[i := w], 0, i);
    MulDistrib(Pow(i), w, DV * c');
    MulAssoc(Pow(i), DV, c');
    MulAssoc(c', DV, Pow(i));
  }

  lemma ValStart(d: Words, c: int)
    ensures Val(d, 0, c) == c
    ensures Part(d, 0, 0) == 0
  {
  }

  /** One digit of a subtraction x - y: add digit i of x, or nothing, and take away digit i of y, or nothing. */
  lemma ValSub(d: Words, i: nat, c: int, x: Words, fromX: bool, y: Words, fromY: bool, w: int, c': int)
    requires w + DV * c' == c + (if fromX then Get(x, i) else 0) - (if fromY then Get(y, i) else 0)
    ensures Val(d[i := w], i + 1, c') == Val(d, i, c)
      + (if fromX then Part(x, 0, i + 1) - Part(x, 0, i) else 0)
      - (if fromY then Part(y, 0, i + 1) - Part(y, 0, i) else 0)
  {
    var a, b := if fromX then Get(x, i) else 0, if fromY then Get(y, i) else 0;
    ValPlus(d, i, c, a);
    ValPlus(d, i, c + a, b);
    ValPut(d, i, c + a - b, w, c');
  }

  /** The lowest digit comes off first. */
  lemma PartLow(d: Words, lo: int, hi: int)
    requires lo < hi
    ensures Part(d, lo, hi) == Get(d, lo) + DV * Part(d, lo + 1, hi)
  {
    PartSplit(d, lo, lo + 1, hi);
    assert Part(d, lo, lo + 1) == Get(d, lo) * Pow(0);
    assert Pow(1) == DV * Pow(0);
  }

  lemma PowIsPow2One()
    ensures Pow2(DB) == DV
  {
    Pow2Values();
  }

  lemma {:induction false} PowIsPow2(n: nat)
    ensures Pow(n) == Pow2(DB * n)
  {
    if n > 0 {
      PowIsPow2(n - 1);
      PowIsPow2One();
      Pow2Add(DB, DB * (n - 1));
    }
  }

  /** A shift by n bits is a shift by n / DB digits and n % DB bits. */
  lemma Pow2Split(n: nat)
    ensures Pow2(n) == Pow(n / DB) * Pow2(n % DB)
    ensures Pow2(n % DB) * Pow2(DB - n % DB) == DV
  {
    PowIsPow2(n / DB);
    Pow2Add(DB * (n / DB), n % DB);
    Pow2Add(n % DB, DB - n % DB);
    PowIsPow2One();
  }

  /** The number from digit lo upwards, sign included. */
  function Tail(d: Words, lo: int, hi: int, s: int): int
    requires lo <= hi
  {
    Part(d, lo, hi) + s * Pow(hi - lo)
  }

  lemma TailLow(d: Words, lo: int, hi: int, s: int)
    requires lo < hi
    ensures Tail(d, lo, hi, s) == Get(d, lo) + DV * Tail(d, lo + 1, hi, s)
  {
    PartLow(d, lo, hi);
    var p := Pow(hi - lo - 1);
    assert Pow(hi - lo) == DV * p;
    hide Part, Pow;
    MulDistrib(DV, Part(d, lo + 1, hi), s * p);
    MulAssoc(s, DV, p);
    MulAssoc(DV, s, p);
  }

  lemma TailSplit(d: Words, k: nat, t: nat, s: int)
    requires k <= t
    ensures Val(d, t, s) == Part(d, 0, k) + Pow(k) * Tail(d, k, t, s)
  {
    hide Part, Pow;
    PartSplit(d, 0, k, t);
    PowAdd(k, t - k);
    var p := Pow(t - k);
    MulDistrib(Pow(k), Part(d, k, t), s * p);
    MulAssoc(s, Pow(k), p);
    MulAssoc(Pow(k), s, p);
  }

  lemma TailEmpty(d: Words, lo: int, s: int)
    ensures Tail(d, lo, lo, s) == s
  {
  }

  lemma TailAll(d: Words, t: nat, s: int)
    ensures Tail(d, 0, t, s) == Val(d, t, s)
  {
  }

  lemma TailFrame(d: Words, e: Words, lo: int, hi: int, s: int)
    requires lo <= hi && Same(d, e, lo, hi)
    ensures Tail(d, lo, hi, s) == Tail(e, lo, hi, s)
  {
    PartFrame(d, e, lo, hi);
  }

  /** Dropping the n lowest digits rounds down. */
  lemma DropDigits(d: Words, n: nat, t: nat, s: int)
    requires WellFormed(d, t, s) && n <= t
    ensures Tail(d, n, t, s) == Val(d, t, s) / Pow(n)
  {
    hide Part, Pow, Val, Tail;
    TailSplit(d, n, t, s);
    PartBound(d, 0, n);
    FloorDiv(Val(d, t, s), Pow(n), Tail(d, n, t, s), Part(d, 0, n));
  }

  /** Dropping all digits leaves the sign. */
  lemma DropAllDigits(d: Words, n: nat, t: nat, s: int)
    requires WellFormed(d, t, s) && t <= n
    ensures s == Val(d, t, s) / Pow(n)
  {
    ValRange(d, t, s);
    PowMono(t, n);
    var v := Val(d, t, s);
    FloorDiv(v, Pow(n), s, if s == 0 then v else v + Pow(n));
  }

  /** Numbers of one length that agree above digit i compare as their digits i do. */
  lemma FirstDifference(d: Words, e: Words, i: nat, t: nat, s: int)
    requires i < t && AllDigits(d, 0, t) && AllDigits(e, 0, t) && Same(d, e, i + 1, t)
    ensures d[i] > e[i] ==> Val(d, t, s) > Val(e, t, s)
    ensures d[i] < e[i] ==> Val(d, t, s) < Val(e, t, s)
  {
    PartSplit(d, 0, i + 1, t);
    PartSplit(e, 0, i + 1, t);
    PartFrame(d, e, i + 1, t);
    PartBound(d, 0, i);
    PartBound(e, 0, i);
    LeadDigit(Pow(i), Part(d, 0, i), d[i], Part(e, 0, i), e[i]);
  }

  lemma LeadDigit(p: int, a: int, x: int, b: int, y: int)
    requires 0 <= a < p && 0 <= b < p
    ensures x > y ==> a + x * p > b + y * p
    ensures x < y ==> a + x * p < b + y * p
  {
    if x > y {
      MulMono(p, y + 1, x);
      MulDistrib(p, y, 1);
    } else if x < y {
      MulMono(p, x + 1, y);
      MulDistrib(p, x, 1);
    }
  }
}
