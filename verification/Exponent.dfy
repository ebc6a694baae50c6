/** exp and modPowInt of jsbn.js with their two reducers. */
module Exponent {
  import opened Arith
  import opened BigIntegers
  import opened Bits
  import opened Digits
  import opened Division
  import opened DivisionSteps
  import opened Engine
  import opened JsNumbers
  import opened Modular
  import opened MontgomeryReduction

  /** jsbn.js line 409. */
  class Classic {
    const m: BigInteger

    constructor (m: BigInteger)
      ensures this.m == m
    {
      this.m := m;
    }
  }

  /** The object `z` that exp works with: both constructors share the methods convert, revert, mulTo and sqrTo. */
  datatype Reducer = ByDivision(c: Classic) | ByMontgomery(g: Montgomery)
  {
    function Modulus(): BigInteger {
      match this
      case ByDivision(c) => c.m
      case ByMontgomery(g) => g.m
    }

    ghost predicate Valid()
      reads Modulus()
    {
      && Modulus().Valid() && Modulus().Clamped() && Modulus().Value() > 0
      && (ByMontgomery? ==> g.Valid())
    }

    /** Montgomery numbers carry a factor R. */
    ghost function Factor(): int
      reads Modulus()
    {
      if ByDivision? then 1 else Pow(g.m.t)
    }
  }

  /** v is the reduced form of a, with factor f, modulo m. */
  ghost predicate StandsFor(v: int, a: int, f: int, m: int) { 0 <= v < m && Congruent(v, a * f, m) }

  /** jsbn.js lines 410 and 461. */
  method Convert(z: Reducer, x: BigInteger) returns (r: BigInteger)
    requires z.Valid() && x.Valid() && x.Clamped()
    ensures (r == x || fresh(r)) && r.Valid() && r.Clamped()
    ensures StandsFor(r.Value(), x.Value(), z.Factor(), z.Modulus().Value())
  {
    match z
    case ByDivision(c) => r := ClassicConvert(c, x);
    case ByMontgomery(g) => r := MontgomeryConvert(g, x);
  }

  /** jsbn.js line 410. */
  method ClassicConvert(c: Classic, x: BigInteger) returns (r: BigInteger)
    requires c.m.Valid() && c.m.Clamped() && c.m.Value() > 0 && x.Valid() && x.Clamped()
    ensures (r == x || fresh(r)) && r.Valid() && r.Clamped() && StandsFor(r.Value(), x.Value(), 1, c.m.Value())
  {
    hide Part, Pow, Val;
    ValRange(x.d, x.t, x.s);
    CongruentMod(x.Value(), c.m.Value());
    CongruentBy(x.Value(), x.Value(), c.m.Value(), 0);
    if x.s < 0 {
      r := Mod(x, c.m);
    } else {
      var o := x.CompareTo(c.m);
      if o >= 0 {
        r := Mod(x, c.m);
      } else {
        r := x;
      }
    }
  }

  /** jsbn.js line 461: x * R mod m. For x = 0 the dividend keeps its zero digits. */
  method MontgomeryConvert(g: Montgomery, x: BigInteger) returns (r: BigInteger)
    requires g.Valid() && x.Valid() && x.Clamped()
    ensures fresh(r) && r.Valid() && r.Clamped() && StandsFor(r.Value(), x.Value(), Pow(g.m.t), g.m.Value())
  {
    ClampedRange(g.m.d, g.m.t, 0);
    ValRange(x.d, x.t, x.s);
    hide Part, Pow, Val, Remainder, Magnitude;
    r := new BigInteger();
    var ax := x.Abs();
    ax.DLShiftTo(g.m.t, r);
    ShiftedDividend(ax.d, ax.t, r.d, g.m.t);
    DivRemTo(r, g.m, null, r);
    ConvertedMagnitude(x.Value(), ax.Value(), Pow(g.m.t), g.m.Value());
    TakeFrom(g.m, x.s, r);
  }

  /** A shifted number is clamped unless it is 0. */
  lemma ShiftedDividend(xd: Words, xt: nat, rd: Words, n: nat)
    requires n > 0 && AllDigits(xd, 0, xt) && IsClamped(xd, xt, 0) && AllDigits(rd, 0, xt + n)
    requires forall k :: 0 <= k < n ==> Get(rd, k) == 0
    requires forall k :: n <= k && 0 <= k < xt + n ==> Get(rd, k) == Get(xd, k - n)
    ensures IsClamped(rd, xt + n, 0) || PaddedZero(rd, xt + n, 0, n)
  {
    if xt > 0 {
      assert Get(rd, xt + n - 1) == Get(xd, xt + n - 1 - n);
    } else {
      assert forall k :: 0 <= k < n ==> rd[k] == Get(rd, k);
    }
  }

  lemma ConvertedMagnitude(x: int, ax: int, f: int, m: int)
    requires m > 0 && f > 0 && ax == Magnitude(x)
    ensures var r := Remainder(f * ax, m);
      0 <= r < m && StandsFor(if x < 0 && r > 0 then m - r else r, x, f, m)
  {
    ProductBound(f, ax, f, ax);
    var r := (f * ax) % m;
    CongruentMod(f * ax, m);
    var k := Multiplier(r, f * ax, m);
    hide Congruent;
    if x < 0 {
      FlipBoth(ax, f);
      if r > 0 {
        MulDistrib(m, 1, k);
        CongruentBy(m - r, x * f, m, 1 - k);
      } else {
        CongruentBy(r, x * f, m, -k);
      }
    }
  }

  /** jsbn.js lines 414 and 470. */
  method Revert(z: Reducer, x: BigInteger, ghost a: int) returns (r: BigInteger)
    requires z.Valid() && x != z.Modulus() && x.Valid() && x.Clamped()
    requires StandsFor(x.Value(), a, z.Factor(), z.Modulus().Value())
    ensures (r == x || fresh(r)) && r.Valid() && r.Clamped() && r.Value() == a % z.Modulus().Value()
  {
    match z
    case ByDivision(c) =>
      r := x;
      CongruentUnique(x.Value(), a, c.m.Value());
    case ByMontgomery(g) => r := MontgomeryRevert(g, x, a);
  }

  /** jsbn.js line 470: x / R mod m. */
  method MontgomeryRevert(g: Montgomery, x: BigInteger, ghost a: int) returns (r: BigInteger)
    requires g.Valid() && x.Valid() && x.Clamped() && g.m.Value() > 0 && StandsFor(x.Value(), a, Pow(g.m.t), g.m.Value())
    ensures fresh(r) && r.Valid() && r.Clamped() && r.Value() == a % g.m.Value()
  {
    hide Part, Pow, Val, Congruent;
    ValRange(x.d, x.t, x.s);
    MulMono(g.m.Value(), 1, Pow(g.m.t));
    r := new BigInteger();
    x.CopyTo(r);
    Reduce(g, r);
    ghost var m := g.m.Value();
    CongruentTrans(r.Value() * Pow(g.m.t), x.Value(), a * Pow(g.m.t), m);
    CancelFactor(r.Value(), a, g.m.d, g.m.t, m);
    CongruentUnique(r.Value(), a, m);
  }

  /** R is invertible modulo an odd number. */
  lemma CancelFactor(v: int, a: int, md: Words, t: nat, m: int)
    requires t > 0 && AllDigits(md, 0, t) && md[0] % 2 == 1 && m == Val(md, t, 0) && m > 0
    requires Congruent(v * Pow(t), a * Pow(t), m)
    ensures Congruent(v, a, m)
  {
    hide Congruent, Pow, Part, Val, Pow2;
    PowIsPow2(t);
    Parity(md, t, 0);
    CancelPow2(v, a, DB * t, m);
  }

  /** The lowest digit tells whether a number is even. */
  lemma Parity(d: Words, t: nat, s: int)
    requires t > 0
    ensures Val(d, t, s) % 2 == Get(d, 0) % 2
  {
    TailAll(d, t, s);
    hide Pow, Part, Val, Tail;
    TailLow(d, 0, t, s);
    EvenRadix(Get(d, 0), Tail(d, 1, t, s));
  }

  lemma EvenRadix(g: int, h: int)
    ensures (g + DV * h) % 2 == g % 2
  {
    MulAssoc(2, DV / 2, h);
  }

  /** jsbn.js lines 416 and 500. */
  method MulTo(z: Reducer, x: BigInteger, y: BigInteger, r: BigInteger, ghost a: int, ghost b: int)
    requires z.Valid() && r != z.Modulus() && r != x && r != y
    requires x.Valid() && x.Clamped() && y.Valid() && y.Clamped()
    requires StandsFor(x.Value(), a, z.Factor(), z.Modulus().Value()) && StandsFor(y.Value(), b, z.Factor(), z.Modulus().Value())
    modifies r
    ensures r.Valid() && r.Clamped() && StandsFor(r.Value(), a * b, z.Factor(), z.Modulus().Value())
  {
    hide Part, Pow, Val, Congruent;
    ghost var v, w := x.Value(), y.Value();
    x.MultiplyTo(y, r);
    ReduceProduct(z, r, v, w, a, b);
  }

  /** jsbn.js lines 417 and 497. */
  method SqrTo(z: Reducer, x: BigInteger, r: BigInteger, ghost a: int)
    requires z.Valid() && r != z.Modulus() && r != x && x.Valid() && x.Clamped()
    requires StandsFor(x.Value(), a, z.Factor(), z.Modulus().Value())
    modifies r
    ensures r.Valid() && r.Clamped() && StandsFor(r.Value(), a * a, z.Factor(), z.Modulus().Value())
  {
    hide Part, Pow, Val, Congruent;
    ghost var v := x.Value();
    x.SquareTo(r);
    ReduceProduct(z, r, v, v, a, a);
  }

  /** The call of reduce in both: a product of two reduced numbers becomes a reduced number again. */
  method ReduceProduct(z: Reducer, r: BigInteger, ghost v: int, ghost w: int, ghost a: int, ghost b: int)
    requires z.Valid() && r != z.Modulus() && r.Valid() && r.Clamped() && r.Value() == v * w
    requires StandsFor(v, a, z.Factor(), z.Modulus().Value()) && StandsFor(w, b, z.Factor(), z.Modulus().Value())
    modifies r
    ensures r.Valid() && r.Clamped() && StandsFor(r.Value(), a * b, z.Factor(), z.Modulus().Value())
  {
    hide Part, Pow, Val, Congruent, Remainder;
    ghost var m := z.Modulus().Value();
    ProductBound(v, w, m - 1, m - 1);
    ValRange(r.d, r.t, r.s);
    match z
    case ByDivision(c) =>
      DivRemTo(r, c.m, null, r);
      ClassicProduct(v, w, a, b, m);
    case ByMontgomery(g) =>
      ValRange(g.m.d, g.m.t, 0);
      SmallProduct(v, w, m, Pow(g.m.t));
      Reduce(g, r);
      MontgomeryProduct(r.Value(), v, w, a, b, g.m.d, g.m.t, m);
  }

  lemma SmallProduct(v: int, w: int, m: int, f: int)
    requires 0 <= v < m && 0 <= w < m && m < f
    ensures v * w < m * f
  {
    ProductBound(v, w, m - 1, m - 1);
    MulDistrib(m - 1, m, 1);
    MulDistrib(m, m, 1);
    MulMono(m, m, f);
  }

  lemma ClassicProduct(v: int, w: int, a: int, b: int, m: int)
    requires m > 0 && StandsFor(v, a, 1, m) && StandsFor(w, b, 1, m)
    ensures StandsFor(Remainder(v * w, m), a * b, 1, m)
  {
    ProductBound(v, w, v, w);
    CongruentMul(v, a, w, b, m);
    CongruentMod(v * w, m);
    CongruentTrans((v * w) % m, v * w, a * b, m);
  }

  /** (a R)(b R) / R = (a b) R. */
  lemma MontgomeryProduct(r: int, v: int, w: int, a: int, b: int, md: Words, t: nat, m: int)
    requires t > 0 && AllDigits(md, 0, t) && md[0] % 2 == 1 && m == Val(md, t, 0) && m > 0
    requires StandsFor(v, a, Pow(t), m) && StandsFor(w, b, Pow(t), m)
    requires 0 <= r < m && Congruent(r * Pow(t), v * w, m)
    ensures StandsFor(r, a * b, Pow(t), m)
  {
    hide Pow, Val, Part, Congruent;
    var f := Pow(t);
    CongruentMul(v, a * f, w, b * f, m);
    CongruentTrans(r * f, v * w, (a * f) * (b * f), m);
    assert (a * f) * (b * f) == ((a * b) * f) * f by {
      MulAssoc(a * f, b, f);
      MulAssoc(a, f, b);
      MulAssoc(a, b, f);
    }
    CancelFactor(r, (a * b) * f, md, t, m);
  }

  /** e without its i lowest bits. */
  function BitsAbove(e: nat, i: nat): (h: nat)
    ensures h == e / Pow2(i)
  {
    QuotientIsNat(e, Pow2(i));
    e / Pow2(i)
  }

  lemma QuotientIsNat(e: nat, p: int)
    requires p > 0
    ensures e / p >= 0
  {
    if e / p < 0 {
      MulMono(p, e / p, -1);
    }
  }

  /** jsbn.js lines 517-519: the power for one more bit of e, and the number that is free again. */
  method NextPower(z: Reducer, g: BigInteger, r: BigInteger, r2: BigInteger, e: int, i: nat, ghost xv: int)
    returns (p: BigInteger, spare: BigInteger)
    requires z.Valid() && r != z.Modulus() && r2 != z.Modulus() && r != r2 && r != g && r2 != g && IsUint32(e) && i < 31
    requires g.Valid() && g.Clamped() && StandsFor(g.Value(), xv, z.Factor(), z.Modulus().Value())
    requires r.Valid() && r.Clamped()
    requires StandsFor(r.Value(), IntPow(xv, BitsAbove(e, i + 1)), z.Factor(), z.Modulus().Value())
    modifies r, r2
    ensures (p == r && spare == r2) || (p == r2 && spare == r)
    ensures p.Valid() && p.Clamped()
    ensures StandsFor(p.Value(), IntPow(xv, BitsAbove(e, i)), z.Factor(), z.Modulus().Value())
  {
    hide Part, Pow, Val, IntPow, StandsFor, BitSet, BitsAbove;
    ghost var a := IntPow(xv, BitsAbove(e, i + 1));
    NextBit(e, i, xv);
    SqrTo(z, r, r2, a);
    if BitSet(e, i) {
      MulTo(z, r2, g, r, a * a, xv);
      p, spare := r, r2;
    } else {
      p, spare := r2, r;
    }
  }

  /** jsbn.js line 512: x^e, reduced, by squaring for every bit of e and multiplying for every bit that is set. */
  method Exp(x: BigInteger, e: int, z: Reducer) returns (r: BigInteger)
    requires z.Valid() && x.Valid() && x.Clamped()
    ensures fresh(r) && r.Valid() && r.Clamped()
    ensures r.Value() == if 1 <= e < TWO32 then IntPow(x.Value(), e) % z.Modulus().Value() else 1
  {
    hide Part, Pow, Val, Pow2, IntPow, StandsFor, BitsAbove;
    if e > 0xffff_ffff || e < 1 {
      r := NewFromInt(1);
      return;
    }
    r := new BigInteger();
    var r2 := new BigInteger();
    ghost var xv, m, f := x.Value(), z.Modulus().Value(), z.Factor();
    var g := Convert(z, x);
    var n := NBits(e);
    var i := n - 1;
    g.CopyTo(r);
    LeadingBit(e, n, xv);
    while i > 0
      invariant 0 <= i < 32 && fresh(r) && fresh(r2) && r != r2 && r != g && r2 != g
      invariant z.Valid() && z.Modulus().Value() == m && z.Factor() == f
      invariant g.Valid() && g.Clamped() && StandsFor(g.Value(), xv, f, m)
      invariant r.Valid() && r.Clamped() && StandsFor(r.Value(), IntPow(xv, BitsAbove(e, i)), f, m)
    {
      i := i - 1;
      r, r2 := NextPower(z, g, r, r2, e, i, xv);
    }
    AllBitsAbove(e);
    r := Revert(z, r, IntPow(xv, e));
  }

  lemma AllBitsAbove(e: nat)
    ensures BitsAbove(e, 0) == e
  {
    FloorDiv(e, 1, e, 0);
  }

  lemma LeadingBit(e: int, n: nat, x: int)
    requires 0 < e && n > 0 && Pow2(n - 1) <= e < Pow2(n)
    ensures IntPow(x, BitsAbove(e, n - 1)) == x
    ensures e < TWO32 ==> n <= 32
  {
    assert Pow2(n) == 2 * Pow2(n - 1);
    FloorDiv(e, Pow2(n - 1), 1, e - Pow2(n - 1));
    Pow2Values();
    if n > 32 {
      Pow2Mono(32, n - 1);
    }
    assert IntPow(x, 0) == 1;
  }

  /** One more bit of e doubles the exponent so far and adds the bit. */
  lemma NextBit(e: int, i: nat, x: int)
    requires IsUint32(e) && i < 31
    ensures var a := IntPow(x, BitsAbove(e, i + 1)); IntPow(x, BitsAbove(e, i)) == if BitSet(e, i) then (a * a) * x else a * a
  {
    var p, q := Pow2(i), e / Pow2(i);
    assert Pow2(i + 1) == 2 * p;
    HalfQuotient(e, p, q);
    var h := q / 2;
    IntPowAdd(x, h, h);
    if q % 2 == 1 {
      IntPowAdd(x, h + h, 1);
      assert IntPow(x, 1) == x by { assert IntPow(x, 0) == 1; }
    }
  }

  lemma HalfQuotient(e: int, p: int, q: int)
    requires 0 <= e && 0 < p && q == e / p
    ensures e / (2 * p) == q / 2 && 0 <= q
  {
    var r := e % p;
    assert e == p * q + r;
    if q < 0 {
      MulMono(p, q, -1);
    }
    var h, b := q / 2, q % 2;
    assert p * q == (2 * p) * h + p * b by {
      MulDistrib(p, 2 * h, b);
      MulAssoc(p, 2, h);
    }
    ProductBound(p, b, p, 1);
    FloorDiv(e, 2 * p, h, p * b + r);
  }

  /** jsbn.js line 509. */
  method IsEven(x: BigInteger) returns (b: bool)
    requires x.Valid()
    ensures b <==> x.Value() % 2 == 0
  {
    if x.t > 0 {
      Parity(x.d, x.t, x.s);
      b := Mask(x.d[0], 2) == 0;
    } else {
      ValStart(x.d, x.s);
      b := x.s == 0;
    }
  }

  /** The comment on modPowInt promises x^e mod m for every 0 <= e < 2^32. The result 1 for e = 0 keeps that
      promise for every modulus but 1. */
  lemma ZeroExponent(x: int, e: int, m: int)
    requires 0 <= e < TWO32 && m > 0
    ensures (if 1 <= e < TWO32 then IntPow(x, e) % m else 1) == IntPow(x, e) % m <==> !(e == 0 && m == 1)
  {
    if e == 0 {
      assert IntPow(x, 0) == 1;
      if m > 1 {
        FloorDiv(1, m, 0, 1);
      } else {
        FloorDiv(1, m, 1, 0);
      }
    }
  }

  /** jsbn.js line 525: x^e mod m for 1 <= e < 2^32, whichever reducer is chosen. */
  method ModPowInt(x: BigInteger, e: int, m: BigInteger) returns (r: BigInteger)
    requires x.Valid() && x.Clamped() && m.Valid() && m.Clamped() && m.Value() > 0
    ensures fresh(r) && r.Valid() && r.Clamped()
    ensures r.Value() == if 1 <= e < TWO32 then IntPow(x.Value(), e) % m.Value() else 1
  {
    hide Part, Pow, Val, IntPow;
    var z: Reducer;
    var classic := e < 256;
    if !classic {
      classic := IsEven(m);
    }
    if classic {
      var c := new Classic(m);
      z := ByDivision(c);
    } else {
      ValRange(m.d, m.t, m.s);
      OddHasDigit(m.d, m.t, m.s);
      var g := new Montgomery(m);
      z := ByMontgomery(g);
    }
    r := Exp(x, e, z);
  }

  lemma OddHasDigit(d: Words, t: nat, s: int)
    requires WellFormed(d, t, s) && Val(d, t, s) > 0 && Val(d, t, s) % 2 == 1
    ensures t > 0 && d[0] % 2 == 1 && s == 0
  {
    ValRange(d, t, s);
    if t > 0 {
      Parity(d, t, s);
    } else {
      ValStart(d, s);
    }
  }
}
