/** The BigInteger object of jsbn.js. Digits are written in place, the target of an operation may be
    one of its operands, and entries at or above t are whatever an earlier operation left there. */
module BigIntegers {
  import opened Bits
  import opened Digits
  import opened Engine
  import opened JsNumbers
  import opened Kernels
  import opened Products
  import opened Shifts

  method NewFromInt(x: int) returns (r: BigInteger)
    requires -DV <= x < DV
    ensures fresh(r) && r.Valid() && r.Clamped() && r.Value() == x
  {
    r := new BigInteger();
    r.FromInt(x);
  }

  class BigInteger {
    var d: Words
    var t: nat
    var s: int

    /** The sign word is 0 or -1 and the first t entries are digits. */
    ghost predicate Valid()
      reads this
    {
      WellFormed(d, t, s)
    }

    ghost predicate Clamped()
      reads this
    {
      IsClamped(d, t, s)
    }

    ghost function Value(): int
      reads this
    {
      Val(d, t, s)
    }

    constructor ()
      ensures t == 0 && s == 0
    {
      d, t, s := map[], 0, 0;
    }

    /** jsbn.js line 117: set from a small integer. */
    method FromInt(x: int)
      requires -DV <= x < DV
      modifies this
      ensures Valid() && Clamped() && Value() == x
    {
      t := 1;
      s := if x < 0 then -1 else 0;
      if x > 0 {
        d := d[0 := x];
      } else if x < -1 {
        d := d[0 := x + DV];
      } else {
        t := 0;
      }
      assert Pow(1) == DV * Pow(0);
      assert t == 1 ==> Part(d, 0, 1) == Part(d, 0, 0) + Get(d, 0) * Pow(0);
    }

    /** jsbn.js line 110. */
    method CopyTo(r: BigInteger)
      requires Valid()
      modifies r
      ensures r.Valid() && r.Value() == old(Value()) && r.t == old(t) && r.s == old(s)
      ensures Same(r.d, old(d), 0, r.t)
    {
      var i := t - 1;
      while i >= 0
        invariant -1 <= i < t && t == old(t) && s == old(s)
        invariant forall k :: 0 <= k < t ==> k in d && d[k] == old(d)[k]
        invariant forall k :: i < k < t ==> k in r.d && r.d[k] == old(d)[k]
      {
        r.d := r.d[i := d[i]];
        i := i - 1;
      }
      r.t := t;
      r.s := s;
      PartFrame(r.d, old(d), 0, r.t);
    }

    /** jsbn.js line 168. */
    method Clamp()
      requires Valid()
      modifies `t
      ensures Valid() && Clamped() && Value() == old(Value()) && t <= old(t)
      ensures old(Clamped()) ==> t == old(t)
    {
      var c := Mask(s, DV);
      while t > 0 && d[t - 1] == c
        invariant Valid() && Value() == old(Value()) && t <= old(t)
        invariant old(Clamped()) ==> t == old(t)
      {
        ClampStep(d, t, s);
        t := t - 1;
      }
    }

    /** jsbn.js lines 314-318: turn the carry out of i digits into a sign word and at most one more digit. */
    method Settle(i: nat, c: int)
      requires -2 <= c <= 1 && AllDigits(d, 0, i)
      modifies this
      ensures Valid() && Clamped() && Value() == Val(old(d), i, c)
      ensures forall k :: i <= k && t <= k && k in old(d) ==> k in d && d[k] == old(d)[k]
    {
      s := if c < 0 then -1 else 0;
      t := i;
      if c < -1 {
        ValPut(d, i, c, DV + c, -1);
        d, t := d[i := DV + c], i + 1;
      } else if c > 0 {
        ValPut(d, i, c, c, 0);
        d, t := d[i := c], i + 1;
      }
      Clamp();
    }

    /** jsbn.js lines 298-302: the digits of this from i on, plus the carry c. */
    method CarryUp(i0: nat, c0: int, r: BigInteger) returns (c: int)
      requires i0 <= t && -1 <= c0 <= 1 && AllDigits(r.d, 0, i0) && AllDigits(d, i0, t)
      modifies r`d
      ensures -1 <= c <= 1 && AllDigits(r.d, 0, t)
      ensures Val(r.d, t, c) == Val(old(r.d), i0, c0) + Pow(i0) * Part(old(d), i0, t)
      ensures forall k :: t <= k && k in old(r.d) ==> k in r.d && r.d[k] == old(r.d)[k]
    {
      hide Part, Pow, Val, LowDigit, Carry;
      PartSplit(d, 0, i0, t);
      var i := i0;
      c := c0;
      while i < t
        invariant i0 <= i <= t && -1 <= c <= 1 && AllDigits(r.d, 0, i)
        invariant forall k :: i <= k && k in old(r.d) ==> k in r.d && r.d[k] == old(r.d)[k]
        invariant Val(r.d, i, c) == Val(old(r.d), i0, c0) + Part(old(d), 0, i) - Part(old(d), 0, i0)
      {
        ghost var rd, cin := r.d, c;
        c := c + d[i];
        var w := LowDigit(c);
        r.d := r.d[i := w];
        c := Carry(c);
        ValSub(rd, i, cin, old(d), true, old(d), false, w, c);
        i := i + 1;
      }
    }

    /** jsbn.js lines 307-311: the borrow c, minus the digits of this from i on. */
    method BorrowUp(i0: nat, c0: int, r: BigInteger) returns (c: int)
      requires i0 <= t && -2 <= c0 <= 0 && AllDigits(r.d, 0, i0) && AllDigits(d, i0, t)
      modifies r`d
      ensures -2 <= c <= 0 && AllDigits(r.d, 0, t)
      ensures Val(r.d, t, c) == Val(old(r.d), i0, c0) - Pow(i0) * Part(old(d), i0, t)
      ensures forall k :: t <= k && k in old(r.d) ==> k in r.d && r.d[k] == old(r.d)[k]
    {
      hide Part, Pow, Val, LowDigit, Carry;
      PartSplit(d, 0, i0, t);
      var i := i0;
      c := c0;
      while i < t
        invariant i0 <= i <= t && -2 <= c <= 0 && AllDigits(r.d, 0, i)
        invariant forall k :: i <= k && k in old(r.d) ==> k in r.d && r.d[k] == old(r.d)[k]
        invariant Val(r.d, i, c) == Val(old(r.d), i0, c0) - Part(old(d), 0, i) + Part(old(d), 0, i0)
      {
        ghost var rd, cin := r.d, c;
        c := c - d[i];
        var w := LowDigit(c);
        r.d := r.d[i := w];
        c := Carry(c);
        ValSub(rd, i, cin, old(d), false, old(d), true, w, c);
        i := i + 1;
      }
    }

    /** jsbn.js lines 290-295: the digits that both numbers have. */
    method SubDigits(a: BigInteger, m: nat, r: BigInteger) returns (c: int)
      requires Valid() && a.Valid() && m <= t && m <= a.t
      modifies r`d
      ensures -1 <= c <= 0 && AllDigits(r.d, 0, m)
      ensures forall k :: m <= k && k in old(r.d) ==> k in r.d && r.d[k] == old(r.d)[k]
      ensures Val(r.d, m, c) == Part(old(d), 0, m) - Part(old(a.d), 0, m)
    {
      hide Part, Pow, Val, LowDigit, Carry;
      c := 0;
      var i := 0;
      ValStart(r.d, 0);
      ValStart(d, 0);
      ValStart(a.d, 0);
      while i < m
        invariant 0 <= i <= m && -1 <= c <= 0 && AllDigits(r.d, 0, i)
        invariant forall k :: i <= k && k in old(r.d) ==> k in r.d && r.d[k] == old(r.d)[k]
        invariant Val(r.d, i, c) == Part(old(d), 0, i) - Part(old(a.d), 0, i)
      {
        ghost var rd, cin := r.d, c;
        c := c + (d[i] - a.d[i]);
        var w := LowDigit(c);
        r.d := r.d[i := w];
        c := Carry(c);
        ValSub(rd, i, cin, old(d), true, old(a.d), true, w, c);
        i := i + 1;
      }
    }

    /** jsbn.js line 289: r = this - a, where r may be this or a. */
    method SubTo(a: BigInteger, r: BigInteger)
      requires Valid() && a.Valid()
      modifies r
      ensures r.Valid() && r.Clamped()
      ensures r.Value() == old(Value()) - old(a.Value())
      ensures forall k :: old(t) <= k && old(a.t) <= k && r.t <= k && k in old(r.d) ==> k in r.d && r.d[k] == old(r.d)[k]
    {
      hide Part, Pow, Val, LowDigit, Carry;
      var i := if a.t < t then a.t else t;
      var c := SubDigits(a, i, r);
      ValUnfold(old(d), t, s);
      ValUnfold(old(a.d), a.t, a.s);
      if a.t < t {
        ValPlus(r.d, i, c, a.s);
        PartSplit(old(d), 0, i, t);
        PartFrame(d, old(d), i, t);
        c := CarryUp(i, c - a.s, r);
        ValPlus(r.d, t, c, s);
        c := c + s;
        r.Settle(t, c);
      } else {
        ValPlus(r.d, i, c, s);
        PartSplit(old(a.d), 0, i, a.t);
        PartFrame(a.d, old(a.d), i, a.t);
        c := a.BorrowUp(i, c + s, r);
        ValPlus(r.d, a.t, c, a.s);
        c := c - a.s;
        r.Settle(a.t, c);
      }
    }

    /** The loops of lines 241, 263, 327 and 338: set the n lowest digits to 0. */
    method ZeroFill(n: nat)
      modifies `d
      ensures forall k :: 0 <= k < n ==> k in d && d[k] == 0
      ensures forall k :: n <= k && k in old(d) ==> k in d && d[k] == old(d)[k]
    {
      var i := n - 1;
      while i >= 0
        invariant -1 <= i < n
        invariant forall k :: n <= k && k in old(d) ==> k in d && d[k] == old(d)[k]
        invariant forall k :: i < k < n ==> k in d && d[k] == 0
      {
        d := d[i := 0];
        i := i - 1;
      }
    }

    /** jsbn.js line 204. */
    method Negate() returns (r: BigInteger)
      requires Valid()
      ensures fresh(r) && r.Valid() && r.Clamped() && r.Value() == -Value()
    {
      r := new BigInteger();
      var zero := NewFromInt(0);
      zero.SubTo(this, r);
    }

    /** `BigInteger.ZERO.subTo(r,r)` in lines 164, 331, 392 and 397. */
    method NegateInPlace()
      requires Valid()
      modifies this
      ensures Valid() && Clamped() && Value() == -old(Value())
    {
      var zero := NewFromInt(0);
      zero.SubTo(this, this);
    }

    /** jsbn.js line 207: |this|, which is this object itself unless it is negative. */
    method Abs() returns (r: BigInteger)
      requires Valid()
      ensures r.Valid() && r.s == 0 && r.Value() == if Value() < 0 then -Value() else Value()
      ensures if s < 0 then fresh(r) && r.Clamped() else r == this
    {
      ValRange(d, t, s);
      if s < 0 {
        r := Negate();
        ValRange(r.d, r.t, r.s);
      } else {
        r := this;
      }
    }

    /** jsbn.js line 210. */
    method CompareTo(a: BigInteger) returns (r: int)
      requires Valid() && a.Valid() && ((Clamped() && a.Clamped()) || (s == a.s && t == a.t))
      ensures r > 0 <==> Value() > a.Value()
      ensures r < 0 <==> Value() < a.Value()
    {
      ValRange(d, t, s);
      ValRange(a.d, a.t, a.s);
      r := s - a.s;
      if r != 0 { return; }
      var i := t;
      r := i - a.t;
      if r != 0 {
        if t > a.t {
          ClampedRange(d, t, s);
          PowMono(a.t, t - 1);
        } else {
          ClampedRange(a.d, a.t, a.s);
          PowMono(t, a.t - 1);
        }
        r := if s < 0 then -r else r;
        return;
      }
      hide Part, Pow;
      while i > 0
        invariant 0 <= i <= t && Same(d, a.d, i, t)
      {
        i := i - 1;
        r := d[i] - a.d[i];
        if r != 0 {
          FirstDifference(d, a.d, i, t, s);
          return;
        }
      }
      PartFrame(d, a.d, 0, t);
      ValUnfold(d, t, s);
      ValUnfold(a.d, t, s);
      r := 0;
    }

    /** jsbn.js line 232: the number of bits without copies of the sign. */
    method BitLength() returns (n: nat)
      requires Valid() && Clamped()
      ensures n == BitLen(WithoutSign(Value()))
    {
      if t <= 0 {
        assert Part(d, 0, 0) == 0 && Pow(0) == 1 && Pow2(0) == 1;
        return 0;
      }
      hide Part, Pow, Pow2, Val, BitLen;
      TopDigitRange(d, t, s);
      var r := NBits(DigitWithoutSign(d[t - 1], s));
      TopDigitBits(DigitWithoutSign(d[t - 1], s), t - 1, WithoutSign(Value()), r);
      n := DB * (t - 1) + r;
      BitLenIs(WithoutSign(Value()), n);
    }

    /** jsbn.js line 238: r = this * DV^n. A negative n drops digits: divRemTo gets there with a dividend of 0. */
    method DLShiftTo(n: int, r: BigInteger)
      requires Valid() && t + n >= 0 && (n >= 0 || r != this)
      modifies r
      ensures r.Valid() && r.t == old(t) + n && r.s == old(s)
      ensures n >= 0 ==> r.Value() == Pow(n) * old(Value())
      ensures forall k :: 0 <= k < n ==> Get(r.d, k) == 0
      ensures forall k :: n <= k && 0 <= k < r.t ==> Get(r.d, k) == Get(old(d), k - n)
    {
      hide Part, Pow, Val;
      var i := t - 1;
      while i >= 0
        invariant -1 <= i < t && t == old(t) && s == old(s)
        invariant forall k :: 0 <= k <= i ==> k in d && d[k] == old(d)[k]
        invariant forall k :: i + n < k < t + n ==> k in r.d && k - n in old(d) && r.d[k] == old(d)[k - n]
      {
        r.d := r.d[i + n := d[i]];
        i := i - 1;
      }
      if n > 0 {
        r.ZeroFill(n);
      }
      r.t := t + n;
      r.s := s;
      if n >= 0 {
        DLShiftValue(old(d), r.d, n, old(t), s);
      }
    }

    /** jsbn.js line 248: the digits from n on, n places lower. */
    method DRShiftDigits(n: nat, r: BigInteger)
      requires Valid()
      modifies r`d
      ensures MovedDown(r.d, old(d), n, old(t) - n)
    {
      hide MovedDown;
      EmptyMove(r.d, d, n, 0);
      var i := n;
      while i < t
        invariant n <= i && (i <= t || t < n)
        invariant forall k :: i <= k < t ==> k in d && d[k] == old(d)[k]
        invariant MovedDown(r.d, old(d), n, i - n)
      {
        MovedDownStep(r.d, old(d), n, i - n);
        r.d := r.d[i - n := d[i]];
        i := i + 1;
      }
      if t < n {
        EmptyMove(r.d, old(d), n, t - n);
      }
    }

    /** jsbn.js line 247: r = floor(this / DV^n). */
    method DRShiftTo(n: nat, r: BigInteger)
      requires Valid()
      modifies r
      ensures r.Valid() && r.Value() == old(Value()) / Pow(n) && r.s == old(s)
      ensures r.t == if old(t) >= n then old(t) - n else 0
      ensures old(Clamped()) ==> r.Clamped()
      ensures forall k :: 0 <= k < r.t ==> Get(r.d, k) == Get(old(d), k + n)
    {
      hide Part, Pow, Val, Tail, MovedDown;
      DRShiftDigits(n, r);
      r.t := if t - n >= 0 then t - n else 0;
      r.s := s;
      if old(t) >= n {
        MovedDownDigits(r.d, old(d), n, r.t);
        TailShift(r.d, old(d), r.t, n, s);
        TailAll(r.d, r.t, s);
        DropDigits(old(d), n, old(t), s);
      } else {
        DropAllDigits(old(d), n, old(t), s);
        ValStart(r.d, s);
      }
    }

    /** jsbn.js lines 260-261: digit i goes ds + 1 places up, split in two, and its lower part waits for the next one. */
    method LShiftDigit(i: nat, bs: nat, ds: nat, r: BigInteger, c: int, ghost td: Words) returns (c': int)
      requires bs < DB && i < t && i in d && IsDigit(d[i]) && d[i] == Get(td, i)
      requires AllDigits(r.d, i + ds + 2, t + ds + 1) && IsMultiple(c, Pow2(bs)) && 0 <= c <= DV - Pow2(bs)
      requires LShifted(r.d, i + ds + 2, t + ds + 1, td, i + 1, t, s, Pow2(bs), c)
      modifies r`d
      ensures AllDigits(r.d, i + ds + 1, t + ds + 1) && IsMultiple(c', Pow2(bs)) && 0 <= c' <= DV - Pow2(bs)
      ensures LShifted(r.d, i + ds + 1, t + ds + 1, td, i, t, s, Pow2(bs), c')
      ensures forall j :: j < i + ds + 1 && j in old(r.d) ==> j in r.d && r.d[j] == old(r.d)[j]
    {
      var cbs := DB - bs;
      ghost var k, m := Pow2(bs), Pow2(cbs);
      ShiftBounds(bs);
      hide Pow2, Pow, Part, Tail, Val, LShifted, Mask, Shr, Shl, Or, ShlFits, IsMultiple, Halves;
      ShlOne(m);
      var bm := Shl(1, Pow2(cbs)) - 1;
      DigitHalves(d[i], k, m);
      var hi, lo := Shr(d[i], Pow2(cbs)), Mask(d[i], bm + 1);
      LShiftStep(r.d, i + ds + 1, t + ds + 1, td, i, t, s, k, m, c, hi, lo);
      r.d := r.d[i + ds + 1 := Or(c, hi, Pow2(bs))];
      c' := Shl(lo, Pow2(bs));
    }

    /** jsbn.js lines 255-262: the digits of this * 2^bs above digit ds of r, and the digit still to go there. */
    method LShiftDigits(bs: nat, ds: nat, r: BigInteger) returns (c: int)
      requires Valid() && bs < DB
      modifies r`d
      ensures IsDigit(c) && AllDigits(r.d, ds + 1, t + ds + 1)
      ensures LShifted(r.d, ds + 1, t + ds + 1, old(d), 0, t, s, Pow2(bs), c)
    {
      ghost var k := Pow2(bs);
      ShiftBounds(bs);
      hide Pow2, Pow, Part, Tail, Val, LShifted, Mask, Shr, Shl, Or, ShlFits, IsMultiple, Halves;
      SignShift(s, k, Pow2(DB - bs));
      c := Mask(Shl(s, Pow2(bs)), DV);
      var i := t - 1;
      LShiftStart(r.d, t + ds + 1, d, t, s, k, c);
      while i >= 0
        invariant -1 <= i < t
        invariant forall j :: 0 <= j <= i ==> j in d && d[j] == old(d)[j]
        invariant AllDigits(r.d, i + ds + 2, t + ds + 1)
        invariant IsMultiple(c, k) && 0 <= c <= DV - k
        invariant LShifted(r.d, i + ds + 2, t + ds + 1, old(d), i + 1, t, s, k, c)
      {
        c := LShiftDigit(i, bs, ds, r, c, old(d));
        i := i - 1;
      }
    }

    /** jsbn.js line 254: r = this * 2^n. */
    method LShiftTo(n: nat, r: BigInteger)
      requires Valid()
      modifies r
      ensures r.Valid() && r.Clamped() && r.Value() == Pow2(n) * old(Value())
      ensures var k := old(t) + n / DB + 1; WellFormed(r.d, k, r.s) && Val(r.d, k, r.s) == Pow2(n) * old(Value())
    {
      hide Pow2, Pow, Part, Tail, Val, LShifted;
      var bs := n % DB;
      var ds := n / DB;
      var c := LShiftDigits(bs, ds, r);
      ghost var high := r.d;
      r.ZeroFill(ds);
      r.d := r.d[ds := c];
      r.t := t + ds + 1;
      r.s := s;
      LShiftValue(old(d), high, r.d, n, ds, old(t), s, c);
      r.Clamp();
    }

    /** jsbn.js lines 280-281: digit i of this gives its low bits to the digit before, its high bits stay. */
    method RShiftDigit(i: nat, bs: nat, ds: nat, r: BigInteger, ghost td: Words)
      requires bs < DB && ds < i && i in d && IsDigit(d[i]) && d[i] == Get(td, i)
      requires AllDigits(r.d, 0, i - ds) && r.d[i - ds - 1] < Pow2(DB - bs)
      requires RShifted(r.d, i - ds, td, ds, Pow2(bs))
      modifies r`d
      ensures AllDigits(r.d, 0, i + 1 - ds) && r.d[i - ds] < Pow2(DB - bs)
      ensures RShifted(r.d, i + 1 - ds, td, ds, Pow2(bs))
      ensures forall j :: i < j && j in old(r.d) ==> j in r.d && r.d[j] == old(r.d)[j]
    {
      var cbs := DB - bs;
      ghost var k, m := Pow2(bs), Pow2(cbs);
      ShiftBounds(bs);
      hide Pow2, Pow, Part, RShifted, Mask, Shr, Shl, Or, ShlFits, IsMultiple, Halves;
      ShlOne(k);
      var bm := Shl(1, Pow2(bs)) - 1;
      DigitHalves(d[i], m, k);
      ghost var hi, lo := Shr(d[i], k), Mask(d[i], k);
      r.d := r.d[i - ds - 1 := Or(Shl(Mask(d[i], bm + 1), Pow2(cbs)), r.d[i - ds - 1], Pow2(cbs))];
      r.d := r.d[i - ds := Shr(d[i], Pow2(bs))];
      RShiftStep(old(r.d), i - ds, td, ds, k, m, hi, lo, r.d);
    }

    /** jsbn.js lines 278-282: the digits from ds on, shifted right by bs bits. */
    method RShiftDigits(bs: nat, ds: nat, r: BigInteger)
      requires Valid() && bs < DB && ds < t
      modifies r`d
      ensures AllDigits(r.d, 0, t - ds) && r.d[t - ds - 1] < Pow2(DB - bs)
      ensures RShifted(r.d, t - ds, old(d), ds, Pow2(bs))
    {
      hide Pow2, RShifted, Shr, Halves, Part, Pow;
      ShiftBounds(bs);
      DigitHalves(d[ds], Pow2(DB - bs), Pow2(bs));
      r.d := r.d[0 := Shr(d[ds], Pow2(bs))];
      RShiftStart(r.d, old(d), ds, Pow2(bs));
      var i := ds + 1;
      while i < t
        invariant ds < i <= t
        invariant forall j :: i <= j < t ==> j in d && d[j] == old(d)[j]
        invariant AllDigits(r.d, 0, i - ds) && r.d[i - ds - 1] < Pow2(DB - bs)
        invariant RShifted(r.d, i - ds, old(d), ds, Pow2(bs))
      {
        RShiftDigit(i, bs, ds, r, old(d));
        i := i + 1;
      }
    }

    /** jsbn.js line 271: r = floor(this / 2^n). */
    method RShiftTo(n: nat, r: BigInteger)
      requires Valid()
      modifies r
      ensures r.Valid() && r.Clamped() && r.Value() == old(Value()) / Pow2(n)
    {
      hide Pow2, Pow, Part, RShifted, Mask, Shl, Or, ShlFits, IsMultiple, Halves;
      r.s := s;
      var ds := n / DB;
      if ds >= t {
        DropAllBits(d, t, s, n);
        r.t := 0;
        ValStart(r.d, s);
        return;
      }
      hide Val;
      var bs := n % DB;
      var cbs := DB - bs;
      RShiftDigits(bs, ds, r);
      ghost var x := if s == 0 then 0 else DV - Pow2(cbs);
      RShiftValue(old(d), t, s, r.d, n, ds, Pow2(bs), Pow2(cbs), x);
      ShiftBounds(bs);
      SignBits(s, Pow2(bs), Pow2(cbs));
      Pow2Zero();
      ShlOne(Pow2(bs));
      var bm := Shl(1, Pow2(bs)) - 1;
      if bs > 0 {
        r.d := r.d[t - ds - 1 := Or(Shl(Mask(s, bm + 1), Pow2(cbs)), r.d[t - ds - 1], Pow2(cbs))];
      } else {
        assert TopFilled(r.d, t - ds, x) == r.d;
      }
      r.t := t - ds;
      r.Clamp();
    }

    /** What am1, am2 and am3 share: w[j..j+n) += x * this[i..i+n) + c, and the carry out of it. */
    ghost predicate AmDomain(i: nat, x: int, w: BigInteger, j: nat, c: int, n: nat)
      reads this, w
    {
      w != this && AllDigits(d, i, i + n) && AllDigits(w.d, j, j + n) && 0 <= x < 2 * DV && 0 <= c < 3 * DV
    }

    twostate predicate AmResult(i: nat, x: int, w: BigInteger, j: nat, c: int, n: nat, r: int)
      reads this, w
    {
      && MulAdded(w.d, old(w.d), j, old(d), i, n, x, c, r)
      && AllDigits(w.d, j, j + n)
      && 0 <= r && (r <= x || r <= c)
      && w.d.Keys == old(w.d).Keys
      && forall k :: k in w.d && !(j <= k < j + n) ==> w.d[k] == old(w.d)[k]
    }

    /** jsbn.js line 33. */
    method Am1(i0: nat, x: int, w: BigInteger, j0: nat, c0: int, n: nat) returns (c: int)
      requires ENGINE == Kernel.Am1
      requires AmDomain(i0, x, w, j0, c0, n)
      requires IsSafe((x + 1) * DM + c0)
      modifies w`d
      ensures AmResult(i0, x, w, j0, c0, n, c)
    {
      c := c0;
      ghost var top := if c0 <= x then x else c0;
      hide Part, Pow, MulAdded;
      AmStart(w.d, j0, d, i0, x, c);
      var i, j := i0, j0;
      while i < i0 + n
        invariant i0 <= i <= i0 + n && j - j0 == i - i0
        invariant 0 <= c <= top && IsSafe((x + 1) * DM + c)
        invariant w.d.Keys == old(w.d).Keys
        invariant forall k :: k in w.d && !(j0 <= k < j) ==> w.d[k] == old(w.d)[k]
        invariant AllDigits(w.d, j0, j)
        invariant MulAdded(w.d, old(w.d), j0, old(d), i0, i - i0, x, c0, c)
      {
        AmCarryBound(x, d[i], w.d[j], c, top);
        ghost var wd, cin := w.d, c;
        var v := x * d[i] + w.d[j] + c;
        c := v / 0x400_0000;
        w.d := w.d[j := Mask(v, 0x400_0000)];
        AmStep(wd, old(w.d), j0, old(d), i0, i - i0, x, c0, cin, w.d[j], c);
        i, j := i + 1, j + 1;
      }
    }

    /** jsbn.js lines 47-52: one digit of the product, with the multiplier in two halves. */
    static method Am2Digit(x: int, xl: int, xh: int, y: int, wj: int, c: int) returns (wj': int, c': int)
      requires ENGINE == Kernel.Am2 && 0 <= x < 2 * DV && 0 <= c < 3 * DV && IsDigit(y) && IsDigit(wj)
      requires xl == Mask(x, 0x8000) && xh == Shr(x, 0x8000)
      ensures IsDigit(wj') && wj' + DV * c' == x * y + wj + c
    {
      var l, h := Mask(y, 0x8000), Shr(y, 0x8000);
      AmHalves(0x8000, x, xl, xh, y, l, h, xh * l + h * xl);
      AmHalfBounds(0x8000, xl, xh, l, h);
      var m := xh * l + h * xl;
      l := xl * l + Shl(Mask(m, 0x8000), 0x8000) + wj + Mask(c, 0x4000_0000);
      c' := UShr(l, 0x4000_0000) + UShr(m, 0x8000) + xh * h + UShr(c, 0x4000_0000);
      wj' := Mask(l, 0x4000_0000);
    }

    /** jsbn.js line 44. */
    method Am2(i0: nat, x: int, w: BigInteger, j0: nat, c0: int, n: nat) returns (c: int)
      requires ENGINE == Kernel.Am2
      requires AmDomain(i0, x, w, j0, c0, n)
      modifies w`d
      ensures AmResult(i0, x, w, j0, c0, n, c)
    {
      c := c0;
      ghost var top := if c0 <= x then x else c0;
      hide Part, Pow, MulAdded;
      AmStart(w.d, j0, d, i0, x, c);
      var i, j := i0, j0;
      var xl, xh := Mask(x, 0x8000), Shr(x, 0x8000);
      while i < i0 + n
        invariant i0 <= i <= i0 + n && j - j0 == i - i0
        invariant 0 <= c <= top
        invariant w.d.Keys == old(w.d).Keys
        invariant forall k :: k in w.d && !(j0 <= k < j) ==> w.d[k] == old(w.d)[k]
        invariant AllDigits(w.d, j0, j)
        invariant MulAdded(w.d, old(w.d), j0, old(d), i0, i - i0, x, c0, c)
      {
        AmCarryBound(x, d[i], w.d[j], c, top);
        ghost var wd, cin := w.d, c;
        var wj;
        wj, c := Am2Digit(x, xl, xh, d[i], w.d[j], c);
        w.d := w.d[j := wj];
        AmStep(wd, old(w.d), j0, old(d), i0, i - i0, x, c0, cin, w.d[j], c);
        i, j := i + 1, j + 1;
      }
    }

    /** jsbn.js lines 61-66: one digit of the product, with the multiplier in two halves. */
    static method Am3Digit(x: int, xl: int, xh: int, y: int, wj: int, c: int) returns (wj': int, c': int)
      requires ENGINE == Kernel.Am3 && 0 <= x < 2 * DV && 0 <= c < 3 * DV && IsDigit(y) && IsDigit(wj)
      requires xl == Mask(x, 0x4000) && xh == Shr(x, 0x4000)
      ensures IsDigit(wj') && wj' + DV * c' == x * y + wj + c
    {
      var l, h := Mask(y, 0x4000), Shr(y, 0x4000);
      AmHalves(0x4000, x, xl, xh, y, l, h, xh * l + h * xl);
      AmHalfBounds(0x4000, xl, xh, l, h);
      var m := xh * l + h * xl;
      l := xl * l + Shl(Mask(m, 0x4000), 0x4000) + wj + c;
      c' := Shr(l, 0x1000_0000) + Shr(m, 0x4000) + xh * h;
      wj' := Mask(l, 0x1000_0000);
    }

    /** jsbn.js line 58. */
    method Am3(i0: nat, x: int, w: BigInteger, j0: nat, c0: int, n: nat) returns (c: int)
      requires ENGINE == Kernel.Am3
      requires AmDomain(i0, x, w, j0, c0, n)
      modifies w`d
      ensures AmResult(i0, x, w, j0, c0, n, c)
    {
      c := c0;
      ghost var top := if c0 <= x then x else c0;
      hide Part, Pow, MulAdded;
      AmStart(w.d, j0, d, i0, x, c);
      var i, j := i0, j0;
      var xl, xh := Mask(x, 0x4000), Shr(x, 0x4000);
      while i < i0 + n
        invariant i0 <= i <= i0 + n && j - j0 == i - i0
        invariant 0 <= c <= top
        invariant w.d.Keys == old(w.d).Keys
        invariant forall k :: k in w.d && !(j0 <= k < j) ==> w.d[k] == old(w.d)[k]
        invariant AllDigits(w.d, j0, j)
        invariant MulAdded(w.d, old(w.d), j0, old(d), i0, i - i0, x, c0, c)
      {
        AmCarryBound(x, d[i], w.d[j], c, top);
        ghost var wd, cin := w.d, c;
        var wj;
        wj, c := Am3Digit(x, xl, xh, d[i], w.d[j], c);
        w.d := w.d[j := wj];
        AmStep(wd, old(w.d), j0, old(d), i0, i - i0, x, c0, cin, w.d[j], c);
        i, j := i + 1, j + 1;
      }
    }

    /** The kernel chosen at load time. */
    method Am(i: nat, x: int, w: BigInteger, j: nat, c: int, n: nat) returns (r: int)
      requires AmDomain(i, x, w, j, c, n)
      requires AmSafe(x, c)
      modifies w`d
      ensures AmResult(i, x, w, j, c, n, r)
    {
      match ENGINE
      case Am1 => r := Am1(i, x, w, j, c, n);
      case Am2 => r := Am2(i, x, w, j, c, n);
      case Am3 => r := Am3(i, x, w, j, c, n);
    }

    /** jsbn.js line 329: the row of digit i of y. */
    method MultiplyRow(i: nat, y: BigInteger, r: BigInteger)
      requires Valid() && y.Valid() && r != this && r != y && i < y.t
      requires AllDigits(r.d, 0, i + t) && ProductOf(r.d, d, t, y.d, i)
      modifies r`d
      ensures AllDigits(r.d, 0, i + 1 + t) && ProductOf(r.d, d, t, y.d, i + 1)
    {
      hide Part, Pow, MulAdded, ProductOf, AmSafe;
      ghost var rd := r.d;
      AmSafeWhen(y.d[i], 0);
      var c := Am(0, y.d[i], r, i, 0, t);
      ProductStep(rd, r.d, d, t, y.d, i, c);
      r.d := r.d[i + t := c];
    }

    /** jsbn.js lines 325-330: r = |this| * |y|, digit by digit of y. */
    method MultiplyDigits(y: BigInteger, r: BigInteger)
      requires Valid() && y.Valid() && r != this && r != y
      modifies r
      ensures r.Valid() && r.Clamped() && r.Value() == Val(d, t, 0) * Val(y.d, y.t, 0)
    {
      ghost var xd, xt, yd, yt := d, t, y.d, y.t;
      hide Part, Pow, Val, MulAdded, ProductOf, AmSafe;
      r.t := t + y.t;
      r.ZeroFill(t);
      var i := 0;
      ProductStart(r.d, xd, xt, yd);
      while i < y.t
        invariant 0 <= i <= yt && r.t == xt + yt
        invariant d == xd && t == xt && y.d == yd && y.t == yt
        invariant AllDigits(r.d, 0, i + xt)
        invariant ProductOf(r.d, xd, xt, yd, i)
      {
        MultiplyRow(i, y, r);
        i := i + 1;
      }
      ProductEnd(r.d, xd, xt, yd, yt);
      r.s := 0;
      r.Clamp();
    }

    /** jsbn.js line 323: r = this * a. */
    method MultiplyTo(a: BigInteger, r: BigInteger)
      requires Valid() && a.Valid() && r != this && r != a
      modifies r
      ensures r.Valid() && r.Clamped() && r.Value() == Value() * a.Value()
    {
      ValRange(d, t, s);
      ValRange(a.d, a.t, a.s);
      var x := Abs();
      var y := a.Abs();
      SignedProduct(Value(), a.Value(), x.Value(), y.Value());
      x.MultiplyDigits(y, r);
      if s != a.s {
        r.NegateInPlace();
      }
    }

    /** jsbn.js lines 340-341: the products of row i of the square, all but their last carry. */
    method SquareProducts(i: nat, r: BigInteger) returns (c2: int)
      requires Valid() && r != this && i < t && AllDigits(r.d, 2 * i, i + t)
      modifies r`d
      ensures AllDigits(r.d, 2 * i, i + t) && 0 <= c2 <= 2 * d[i]
      ensures RowAdded(r.d, old(r.d), d, t, i, c2)
      ensures forall k :: k in old(r.d) && !(2 * i <= k < i + t) ==> k in r.d && r.d[k] == old(r.d)[k]
    {
      hide Part, Pow, MulAdded, AmSafe, AddedAt, RowAdded;
      AmSafeWhen(d[i], 0);
      var c := Am(i, d[i], r, 2 * i, 0, 1);
      ghost var w1 := r.d;
      MulAddedOne(w1, old(r.d), 2 * i, d, i, d[i], c, 2 * t);
      AmSafeWhen(2 * d[i], c);
      c2 := Am(i + 1, 2 * d[i], r, 2 * i + 1, c, t - i - 1);
      MulAddedAt(r.d, w1, 2 * i + 1, d, i + 1, t - i - 1, 2 * d[i], c, c2, 2 * t);
      RowProducts(old(r.d), w1, r.d, d, t, i, c, c2);
    }

    /** jsbn.js lines 341-344: digit n becomes v, and what is too much for it becomes a 1 in the digit above. */
    method PlaceWithCarry(n: nat, v: int)
      modifies `d
      ensures d == if v < DV then old(d)[n := v] else old(d)[n := v - DV][n + 1 := 1]
    {
      d := d[n := v];
      if d[n] >= DV {
        d := d[n := d[n] - DV];
        d := d[n + 1 := 1];
      }
    }

    /** jsbn.js lines 339-344: row i of the square, where digit i + t of r holds at most a carry of 1 so far. */
    method SquareRow(i: nat, r: BigInteger)
      requires Valid() && r != this && i + 1 < t && AllDigits(r.d, 0, 2 * t)
      requires r.d[i + t] <= 1 && (forall k :: i + t < k < 2 * t ==> r.d[k] == 0) && SquareOf(r.d, d, t, i)
      modifies r`d
      ensures AllDigits(r.d, 0, 2 * t)
      ensures r.d[i + 1 + t] <= 1 && (forall k :: i + 1 + t < k < 2 * t ==> r.d[k] == 0) && SquareOf(r.d, d, t, i + 1)
    {
      hide Part, Pow, SquareOf, AddedAt, RowAdded;
      var top := r.d[i + t];
      var c2 := SquareProducts(i, r);
      ghost var wd := r.d;
      r.PlaceWithCarry(i + t, top + c2);
      CarryAdded(r.d, wd, i + t, c2, 2 * t);
      RowCarry(old(r.d), wd, r.d, d, t, i, c2, if top + c2 < DV then i + t + 1 else i + t + 2);
    }

    /** jsbn.js lines 336-348: r = |this|^2. */
    method SquareDigits(r: BigInteger)
      requires Valid() && r != this
      modifies r
      ensures r.Valid() && r.Clamped() && r.Value() == Val(d, t, 0) * Val(d, t, 0)
    {
      ghost var xd, xt := d, t;
      hide Part, Pow, SquareOf, AddedAt, RowAdded, MulAdded;
      r.t := 2 * t;
      r.ZeroFill(2 * t);
      SquareStart(r.d, xd, xt);
      var i := 0;
      while i < t - 1
        invariant 0 <= i && (i < xt || i == xt == 0) && r.t == 2 * xt && d == xd && t == xt
        invariant AllDigits(r.d, 0, 2 * xt) && SquareOf(r.d, xd, xt, i)
        invariant forall k :: i + xt < k < 2 * xt ==> r.d[k] == 0
        invariant xt > 0 ==> r.d[i + xt] <= 1
      {
        SquareRow(i, r);
        i := i + 1;
      }
      if r.t > 0 {
        SquareLast(r);
      } else {
        SquareEnd(r.d, xd, xt);
      }
      r.s := 0;
      r.Clamp();
    }

    /** jsbn.js line 346: the square of the top digit; its carry fits into the top digit of the result. */
    method SquareLast(r: BigInteger)
      requires Valid() && r != this && t > 0 && AllDigits(r.d, 0, 2 * t) && SquareOf(r.d, d, t, t - 1)
      modifies r`d
      ensures AllDigits(r.d, 0, 2 * t) && Val(r.d, 2 * t, 0) == Val(d, t, 0) * Val(d, t, 0)
    {
      hide Pow, Part, SquareOf, AddedAt, RowAdded, MulAdded, AmSafe;
      var i := t - 1;
      var top := r.d[2 * t - 1];
      var c := SquareProducts(i, r);
      ghost var wd := r.d;
      r.d := r.d[2 * t - 1 := top + c];
      OneDigitAdded(r.d, wd, 2 * t - 1, c);
      RowCarry(old(r.d), wd, r.d, d, t, i, c, 2 * t);
      SquareEnd(r.d, d, t);
      SquareFits(r.d, d, t);
    }

    /** jsbn.js line 335: r = this^2. */
    method SquareTo(r: BigInteger)
      requires Valid() && r != this
      modifies r
      ensures r.Valid() && r.Clamped() && r.Value() == Value() * Value()
    {
      ValRange(d, t, s);
      var x := Abs();
      SignedProduct(Value(), Value(), x.Value(), x.Value());
      x.SquareDigits(r);
    }
  }
}
