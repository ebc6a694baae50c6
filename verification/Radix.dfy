/** fromString and toString of jsbn.js for the radices that are powers of two: digits of k bits in words of DB bits. */
module Radix {
  import opened Arith
  import opened BigIntegers
  import opened ByteNumbers
  import opened Digits
  import opened Engine
  import opened JsNumbers
  import opened Shifts

  /** jsbn.js line 103. */
  function Int2Char(n: int): char
    requires 0 <= n < 36
  {
    if n < 10 then ('0' as int + n) as char else ('a' as int + n - 10) as char
  }

  /** jsbn.js line 104: the value of a digit or letter, -1 for any other character. */
  function IntAt(c: char): int {
    if '0' <= c <= '9' then c as int - '0' as int
    else if 'a' <= c <= 'z' then c as int - 'a' as int + 10
    else if 'A' <= c <= 'Z' then c as int - 'A' as int + 10
    else -1
  }

  predicate IsHexDigit(c: char) { 0 <= IntAt(c) < 16 }

  predicate AllHex(s: string) { forall i :: 0 <= i < |s| ==> IsHexDigit(s[i]) }

  /** The digits in order, in both cases. */
  const DIGITS: string := "0123456789abcdefghijklmnopqrstuvwxyz"
  const CAPITALS: string := "0123456789ABCDEFGHIJKLMNOPQRSTUVWXYZ"

  /** Character n of the tables, in terms of its code. */
  lemma SmallChar(n: int)
    requires 0 <= n < 36
    ensures DIGITS[n] as int == n + if n < 10 then 48 else 87
  {
  }

  lemma CapitalChar(n: int)
    requires 0 <= n < 36
    ensures CAPITALS[n] as int == n + if n < 10 then 48 else 55
  {
  }

  /** Digit n is written in lower case and read in either. */
  lemma DigitChars(n: int)
    requires 0 <= n < 36
    ensures Int2Char(n) == DIGITS[n] && IntAt(DIGITS[n]) == n && IntAt(CAPITALS[n]) == n
  {
    hide DIGITS, CAPITALS;
    SmallChar(n);
    CapitalChar(n);
  }

  /** No other character is a digit. */
  lemma OtherChars(c: char)
    ensures -1 <= IntAt(c) < 36 && (IntAt(c) >= 0 ==> c == DIGITS[IntAt(c)] || c == CAPITALS[IntAt(c)])
  {
    hide DIGITS, CAPITALS;
    if IntAt(c) >= 0 {
      SmallChar(IntAt(c));
      CapitalChar(IntAt(c));
    }
  }

  lemma CharRoundTrip(n: int)
    requires 0 <= n < 36
    ensures IntAt(Int2Char(n)) == n
  {
  }

  /** The number of digits in s. */
  function CountDigits(s: string): nat {
    if s == [] then 0 else (if IntAt(s[0]) < 0 then 0 else 1) + CountDigits(s[1..])
  }

  /** The number that the digits of s write in base 2^k, whatever stands between them. */
  function Number(s: string, k: nat): int {
    if s == [] then 0
    else if IntAt(s[0]) < 0 then Number(s[1..], k)
    else IntAt(s[0]) * Pow2(k * CountDigits(s[1..])) + Number(s[1..], k)
  }

  lemma NumberUnfold(s: string, k: nat)
    requires s != []
    ensures IntAt(s[0]) < 0 ==> CountDigits(s) == CountDigits(s[1..]) && Number(s, k) == Number(s[1..], k)
    ensures IntAt(s[0]) >= 0 ==> CountDigits(s) == 1 + CountDigits(s[1..])
    ensures IntAt(s[0]) >= 0 ==> Number(s, k) == IntAt(s[0]) * Pow2(k * CountDigits(s[1..])) + Number(s[1..], k)
  {
  }

  lemma NoDigits(k: nat)
    ensures CountDigits([]) == 0 && Number([], k) == 0
  {
  }

  /** The digits of b follow those of a. */
  lemma {:induction false} NumberJoin(a: string, b: string, k: nat)
    ensures CountDigits(a + b) == CountDigits(a) + CountDigits(b)
    ensures Number(a + b, k) == Number(a, k) * Pow2(k * CountDigits(b)) + Number(b, k)
  {
    hide Number, CountDigits, IntAt, Pow2;
    NoDigits(k);
    if a == [] {
      assert a + b == b;
    } else {
      assert (a + b)[1..] == a[1..] + b;
      NumberUnfold(a, k);
      NumberUnfold(a + b, k);
      NumberJoin(a[1..], b, k);
      var m, n := CountDigits(a[1..]), CountDigits(b);
      Pow2Add(k * m, k * n);
      MulDistrib(k, m, n);
      AppendArith(IntAt(a[0]), Pow2(k * m), Pow2(k * n), Number(a[1..], k), Number(b, k));
    }
  }

  /** What a number is: each further digit multiplies what stands before it by the radix, and other characters leave it
      as it is. */
  lemma NumberGrows(s: string, c: char, k: nat)
    ensures Number([], k) == 0
    ensures Number(s + [c], k) == if IntAt(c) < 0 then Number(s, k) else Number(s, k) * Pow2(k) + IntAt(c)
  {
    hide Number, CountDigits, IntAt, Pow2;
    NoDigits(k);
    NumberJoin(s, [c], k);
    NumberUnfold([c], k);
    assert [c][1..] == [];
    assert k * 0 == 0 && k * 1 == k;
    Pow2Values();
  }

  /** A minus sign counts exactly if no digit stands before it. */
  lemma {:induction false} MinusIs(s: string)
    ensures HasMinus(s) <==> exists i: nat :: i < |s| && s[i] == '-' && forall j: nat :: j <= i ==> IntAt(s[j]) < 0
  {
    if s != [] {
      MinusIs(s[1..]);
      if i: nat :| i < |s[1..]| && s[1..][i] == '-' && forall j: nat :: j <= i ==> IntAt(s[1..][j]) < 0 {
        assert s[i + 1] == s[1..][i];
        assert IntAt(s[0]) < 0 ==> forall j: nat :: j <= i + 1 ==> IntAt(s[j]) < 0 by {
          assert forall j: nat :: 0 < j <= i + 1 ==> s[j] == s[1..][j - 1];
        }
      }
      if i: nat :| i < |s| && s[i] == '-' && forall j: nat :: j <= i ==> IntAt(s[j]) < 0 {
        if i > 0 {
          assert s[1..][i - 1] == '-' && forall j: nat :: j <= i - 1 ==> s[1..][j] == s[j + 1];
        }
      }
    }
  }

  /** A minus sign stands before the first digit. */
  predicate HasMinus(s: string) { s != [] && IntAt(s[0]) < 0 && (s[0] == '-' || HasMinus(s[1..])) }

  /** Every digit of s is a digit of base 2^k. */
  ghost predicate InRadix(s: string, k: nat) { forall i :: 0 <= i < |s| ==> IntAt(s[i]) < Pow2(k) }

  /** The number of bits in w words. */
  function WordBits(w: nat): nat { DB * w }

  lemma WordBitsNext(w: nat)
    ensures WordBits(w + 1) == WordBits(w) + DB
  {
  }

  /** The words hold v in `bits` bits, sh of them in the last word unless that is full. */
  ghost predicate Packed(d: Words, t: nat, sh: nat, bits: nat, v: int) {
    && AllDigits(d, 0, t) && sh < DB && Part(d, 0, t) == v
    && (if sh == 0 then bits == WordBits(t) else t > 0 && bits == WordBits(t - 1) + sh && d[t - 1] < Pow2(sh))
  }

  /** jsbn.js lines 148-157: x goes above the bits already there. */
  method PutBits(r: BigInteger, x: int, k: nat, sh: nat, ghost bits: nat, ghost v: int) returns (sh': nat)
    requires 0 < k <= 8 && 0 <= x < Pow2(k) && sh < DB && Packed(r.d, r.t, sh, bits, v)
    modifies r`d, r`t
    ensures sh' < DB && Packed(r.d, r.t, sh', bits + k, v + x * Pow2(bits))
  {
    hide Part, Pow, Pow2, Packed;
    if sh == 0 {
      SmallDigit(x, k);
      NewWord(r.d, r.t, k, bits, v, x);
      r.d := r.d[r.t := x];
      r.t := r.t + 1;
    } else if sh + k > DB {
      PutStraddling(r, x, k, sh, bits, v);
    } else {
      PutAbove(r, x, k, sh, bits, v);
    }
    sh' := sh + k;
    if sh' >= DB {
      sh' := sh' - DB;
    }
  }

  /** jsbn.js lines 151-152. */
  method PutStraddling(r: BigInteger, x: int, k: nat, sh: nat, ghost bits: nat, ghost v: int)
    requires 0 < sh < DB < sh + k && k <= 8 && 0 <= x < Pow2(k) && Packed(r.d, r.t, sh, bits, v)
    modifies r`d, r`t
    ensures Packed(r.d, r.t, sh + k - DB, bits + k, v + x * Pow2(bits))
  {
    hide Part, Pow, Pow2, Packed, Or, Shl, Shr, Mask, IsMultiple, ShlFits, WordBits;
    Straddle(r.d, r.t, sh, k, bits, v, x);
    r.d := r.d[r.t - 1 := Or(Shl(Mask(x, Pow2(DB - sh)), Pow2(sh)), r.d[r.t - 1], Pow2(sh))];
    r.d := r.d[r.t := Shr(x, Pow2(DB - sh))];
    r.t := r.t + 1;
  }

  /** jsbn.js line 155. */
  method PutAbove(r: BigInteger, x: int, k: nat, sh: nat, ghost bits: nat, ghost v: int)
    requires 0 < sh && 0 < k && sh + k <= DB && 0 <= x < Pow2(k) && Packed(r.d, r.t, sh, bits, v)
    modifies r`d
    ensures Packed(r.d, r.t, if sh + k == DB then 0 else sh + k, bits + k, v + x * Pow2(bits))
  {
    hide Part, Pow, Pow2, Packed, Or, Shl, IsMultiple, ShlFits, WordBits;
    TopUp(r.d, r.t, sh, k, bits, v, x);
    r.d := r.d[r.t - 1 := Or(Shl(x, Pow2(sh)), r.d[r.t - 1], Pow2(sh))];
  }

  lemma SmallDigit(x: int, k: nat)
    requires k <= 8 && 0 <= x < Pow2(k)
    ensures IsDigit(x) && x < 0x100
  {
    Pow2Mono(k, 8);
    Pow2Values();
  }

  /** Bit sh of word w is bit WordBits(w) + sh of the number. */
  lemma PlaceValue(w: nat, sh: nat, x: int)
    ensures (x * Pow2(sh)) * Pow(w) == x * Pow2(WordBits(w) + sh)
  {
    hide Pow, Pow2;
    PowIsPow2(w);
    Pow2Add(DB * w, sh);
    MulAssoc(x, Pow2(sh), Pow(w));
  }

  /** x starts a new word. */
  lemma NewWord(d: Words, t: nat, k: nat, bits: nat, v: int, x: int)
    requires 0 < k <= 8 && 0 <= x < Pow2(k) && IsDigit(x) && Packed(d, t, 0, bits, v)
    ensures Packed(d[t := x], t + 1, k, bits + k, v + x * Pow2(bits))
  {
    hide Part, Pow, Pow2, WordBits;
    PartTop(d[t := x], 0, t);
    PartFrame(d, d[t := x], 0, t);
    WordStart(t, x);
  }

  lemma WordStart(w: nat, x: int)
    ensures x * Pow(w) == x * Pow2(WordBits(w))
  {
    PowIsPow2(w);
    hide Pow, Pow2;
  }

  /** All of x fits above the bits of the last word. */
  lemma TopUp(d: Words, t: nat, sh: nat, k: nat, bits: nat, v: int, x: int)
    requires 0 < sh && 0 < k && sh + k <= DB && 0 <= x < Pow2(k) && Packed(d, t, sh, bits, v)
    ensures t > 0 && t - 1 in d && 0 <= d[t - 1] < Pow2(sh)
    ensures ShlFits(x, Pow2(sh)) && IsMultiple(Shl(x, Pow2(sh)), Pow2(sh))
    ensures var e := d[t - 1 := Shl(x, Pow2(sh)) + d[t - 1]];
      Packed(e, t, if sh + k == DB then 0 else sh + k, bits + k, v + x * Pow2(bits))
  {
    hide Part, Pow, Pow2, WordBits, Shl, ShlFits, IsMultiple, Packed;
    PackedTop(d, t, sh, bits, v);
    Pow2Add(k, sh);
    assert k + sh == sh + k;
    Pow2Mono(sh + k, DB);
    PowIsPow2One();
    FieldAbove(x, Pow2(k), Pow2(sh));
    TopUpValue(d, t, sh, k, bits, v, x);
  }

  lemma PackedTop(d: Words, t: nat, sh: nat, bits: nat, v: int)
    requires Packed(d, t, sh, bits, v) && sh > 0
    ensures t > 0 && t - 1 in d && 0 <= d[t - 1] < Pow2(sh)
  {
    hide Part, Pow, Pow2;
  }

  lemma TopUpValue(d: Words, t: nat, sh: nat, k: nat, bits: nat, v: int, x: int)
    requires 0 < sh && 0 < k && sh + k <= DB && Packed(d, t, sh, bits, v)
    requires 0 <= x * Pow2(sh) <= Pow2(sh + k) - Pow2(sh) && Pow2(sh + k) <= DV
    ensures Packed(d[t - 1 := x * Pow2(sh) + d[t - 1]], t, if sh + k == DB then 0 else sh + k, bits + k, v + x * Pow2(bits))
  {
    hide Part, Pow, Pow2, WordBits;
    TopFilledValue(d, t, x * Pow2(sh));
    assert d[t - 1 := x * Pow2(sh) + d[t - 1]] == TopFilled(d, t, x * Pow2(sh));
    PlaceValue(t - 1, sh, x);
    WordBitsNext(t - 1);
  }

  /** A field x < n moved above the bits below p. */
  lemma FieldAbove(x: int, n: int, p: int)
    requires 0 <= x < n && 0 < p && n * p <= DV
    ensures 0 <= x * p <= n * p - p && ShlFits(x, p) && IsMultiple(Shl(x, p), p) && Shl(x, p) == x * p
  {
    ProductBound(x, p, n - 1, p);
    MulDistrib(p, n, 1);
    ModMultiple(x, p);
  }

  /** x is split: its low bits complete the last word, the others start a new one. */
  lemma Straddle(d: Words, t: nat, sh: nat, k: nat, bits: nat, v: int, x: int)
    requires 0 < sh < DB && sh + k > DB && k <= 8 && 0 <= x < Pow2(k) && Packed(d, t, sh, bits, v)
    ensures t > 0 && t - 1 in d && 0 <= d[t - 1] < Pow2(sh) && IsInt32(x) && 0 < Pow2(DB - sh) <= TWO31
    ensures ShlFits(Mask(x, Pow2(DB - sh)), Pow2(sh)) && IsMultiple(Shl(Mask(x, Pow2(DB - sh)), Pow2(sh)), Pow2(sh))
    ensures var e := d[t - 1 := Shl(Mask(x, Pow2(DB - sh)), Pow2(sh)) + d[t - 1]][t := Shr(x, Pow2(DB - sh))];
      Packed(e, t + 1, sh + k - DB, bits + k, v + x * Pow2(bits))
  {
    hide Part, Pow, Pow2, WordBits, Mask, Shr, Shl, ShlFits, IsMultiple, Packed;
    var c := DB - sh;
    var m, p := Pow2(c), Pow2(sh);
    SmallDigit(x, k);
    ShiftBounds(sh);
    Pow2Add(c, k - c);
    HighField(x, m, Pow2(k - c));
    PackedTop(d, t, sh, bits, v);
    FieldAbove(Mask(x, m), m, p);
    StraddleValue(d, t, sh, k, bits, v, x, Mask(x, m), Shr(x, m));
  }

  lemma StraddleValue(d: Words, t: nat, sh: nat, k: nat, bits: nat, v: int, x: int, lo: int, hi: int)
    requires 0 < sh < DB < sh + k && k <= 8 && Packed(d, t, sh, bits, v)
    requires x == Pow2(DB - sh) * hi + lo && 0 <= hi < Pow2(k - (DB - sh)) && 0 <= lo * Pow2(sh) <= DV - Pow2(sh)
    ensures Packed(d[t - 1 := lo * Pow2(sh) + d[t - 1]][t := hi], t + 1, sh + k - DB, bits + k, v + x * Pow2(bits))
  {
    hide Part, Pow, Pow2, WordBits;
    var c, p := DB - sh, Pow2(sh);
    var f := TopFilled(d, t, lo * p);
    var e := f[t := hi];
    assert e == d[t - 1 := lo * p + d[t - 1]][t := hi];
    TopFilledValue(d, t, lo * p);
    PartFrame(f, e, 0, t);
    PartTop(e, 0, t);
    PlaceValue(t - 1, sh, lo);
    WordStart(t, hi);
    WordBitsNext(t - 1);
    Pow2Add(c, bits);
    assert c + bits == WordBits(t);
    FieldSum(hi, Pow2(c), lo, Pow2(bits));
    Pow2Mono(k - c, 8);
    Pow2Values();
  }

  lemma FieldSum(hi: int, m: int, lo: int, b: int)
    ensures (m * hi + lo) * b == hi * (m * b) + lo * b
  {
    MulDistrib(b, m * hi, lo);
    MulAssoc(hi, m, b);
  }

  lemma HighField(x: int, m: int, n: int)
    requires 0 <= x < m * n && 0 < m <= TWO31 && 0 < n && IsInt32(x)
    ensures 0 <= Shr(x, m) < n && 0 <= Mask(x, m) < m && x == m * Shr(x, m) + Mask(x, m)
  {
    if x / m >= n {
      MulMono(m, n, x / m);
    }
  }

  /** The radices that fromString and toString treat as k bits a digit. */
  predicate IsRadix(b: int) { b == 2 || b == 4 || b == 8 || b == 16 || b == 32 }

  /** jsbn.js lines 131-136 and 177-181. */
  function DigitBits(b: int): (k: nat)
    requires IsRadix(b)
    ensures 0 < k <= 5
  {
    if b == 16 then 4 else if b == 8 then 3 else if b == 2 then 1 else if b == 32 then 5 else 2
  }

  lemma RadixIsPow2(b: int)
    requires IsRadix(b)
    ensures Pow2(DigitBits(b)) == b
  {
    Pow2Values();
    assert Pow2(5) == 2 * Pow2(4);
  }

  /** jsbn.js line 129 for a string. */
  method FromString(r: BigInteger, s: string, b: int)
    requires IsRadix(b) && InRadix(s, DigitBits(b))
    modifies r
    ensures r.Valid() && r.Clamped()
    ensures r.Value() == if HasMinus(s) then -Number(s, DigitBits(b)) else Number(s, DigitBits(b))
  {
    hide Part, Pow, Val, Pow2, Packed;
    var k := DigitBits(b);
    r.t := 0;
    r.s := 0;
    var i, mi, sh := |s|, false, 0;
    PackedEmpty(r.d);
    while i > 0
      invariant 0 <= i <= |s| && 0 <= sh < DB && r.s == 0 && mi == HasMinus(s[i..])
      invariant Packed(r.d, r.t, sh, k * CountDigits(s[i..]), Number(s[i..], k))
    {
      i := i - 1;
      var x := IntAt(s[i]);
      assert s[i..] == [s[i]] + s[i + 1..];
      if x < 0 {
        if s[i] == '-' {
          mi := true;
        }
      } else {
        mi := false;
        MulDistrib(k, CountDigits(s[i + 1..]), 1);
        sh := PutBits(r, x, k, sh, k * CountDigits(s[i + 1..]), Number(s[i + 1..], k));
      }
    }
    assert s[0..] == s;
    PackedValue(r.d, r.t, sh, k * CountDigits(s), Number(s, k));
    r.Clamp();
    if mi {
      r.NegateInPlace();
    }
  }

  lemma PackedEmpty(d: Words)
    ensures Packed(d, 0, 0, 0, 0)
  {
  }

  lemma PackedValue(d: Words, t: nat, sh: nat, bits: nat, v: int)
    requires Packed(d, t, sh, bits, v)
    ensures WellFormed(d, t, 0) && Val(d, t, 0) == v
  {
    hide Pow, Part;
    ValUnfold(d, t, 0);
  }

  /** The top bit of the first byte is the sign. */
  predicate IsNegative(s: seq<int>) { s != [] && s[0] % 0x100 >= 0x80 }

  /** What the bytes are as two's complement: their number modulo 2^(8n), in the range that n bytes have. */
  lemma TwosComplement(s: seq<int>)
    requires s != []
    ensures var v := ByteNumber(s) - if IsNegative(s) then Pow2(8 * |s|) else 0;
      -Pow2(8 * |s| - 1) <= v < Pow2(8 * |s| - 1) && (v - ByteNumber(s)) % Pow2(8 * |s|) == 0
  {
    hide ByteNumber, Pow2;
    var n := |s|;
    ByteNumberFirst(s);
    ByteNumberBound(s[1..]);
    Pow2Values();
    Pow2Add(8 * (n - 1), 8);
    Pow2Add(1, 8 * n - 1);
    assert 8 * (n - 1) + 8 == 8 * n;
    SignedRange(s[0] % 0x100, Pow2(8 * (n - 1)), ByteNumber(s[1..]));
    FloorDiv(0, Pow2(8 * n), 0, 0);
    FloorDiv(-Pow2(8 * n), Pow2(8 * n), -1, 0);
  }

  lemma SignedRange(x: int, p: int, low: int)
    requires 0 <= x < 0x100 && 0 <= low < p
    ensures x < 0x80 ==> 0 <= x * p + low < 0x80 * p
    ensures x >= 0x80 ==> -0x80 * p <= x * p + low - 0x100 * p < 0
  {
    if x >= 0x80 {
      MulMono(p, 0x80, x);
      MulMono(p, x, 0xFF);
    } else {
      MulMono(p, 0, x);
      MulMono(p, x, 0x7F);
    }
  }

  /** jsbn.js line 129 for a byte array: the bytes are read as two's complement. */
  method FromBytes(r: BigInteger, s: seq<int>)
    requires forall i :: 0 <= i < |s| ==> IsInt32(s[i])
    modifies r
    ensures r.Valid() && r.Clamped()
    ensures r.Value() == ByteNumber(s) - if IsNegative(s) then Pow2(8 * |s|) else 0
  {
    Pow2Values();
    hide Part, Pow, Val, Pow2, Packed;
    r.t := 0;
    r.s := 0;
    var i, sh := |s|, 0;
    PackedEmpty(r.d);
    while i > 0
      invariant 0 <= i <= |s| && 0 <= sh < DB && r.s == 0
      invariant Packed(r.d, r.t, sh, 8 * (|s| - i), ByteNumber(s[i..]))
    {
      i := i - 1;
      assert s[i..] == [s[i]] + s[i + 1..];
      sh := PutBits(r, Mask(s[i], 0x100), 8, sh, 8 * (|s| - i - 1), ByteNumber(s[i + 1..]));
    }
    assert s[0..] == s;
    if |s| > 0 && Mask(s[0], 0x100) >= 0x80 {
      r.s := -1;
      SignWord(r.d, r.t, sh, 8 * |s|, ByteNumber(s));
      if sh > 0 {
        hide Or, Shl, ShlFits, IsMultiple;
        ShlOne(Pow2(DB - sh));
        r.d := r.d[r.t - 1 := Or(Shl(Shl(1, Pow2(DB - sh)) - 1, Pow2(sh)), r.d[r.t - 1], Pow2(sh))];
      }
    } else {
      PackedValue(r.d, r.t, sh, 8 * |s|, ByteNumber(s));
    }
    r.Clamp();
  }

  /** jsbn.js lines 159-162: ones above the sh bits of the last word, and a sign word, take 2^bits away. */
  lemma SignWord(d: Words, t: nat, sh: nat, bits: nat, v: int)
    requires Packed(d, t, sh, bits, v)
    ensures sh < DB
    ensures sh == 0 ==> WellFormed(d, t, -1) && Val(d, t, -1) == v - Pow2(bits)
    ensures sh > 0 ==>
      var x := Pow2(DB - sh) - 1;
      t > 0 && t - 1 in d && 0 <= d[t - 1] < Pow2(sh) && 0 < Pow2(DB - sh) < TWO31
      && ShlFits(x, Pow2(sh)) && IsMultiple(Shl(x, Pow2(sh)), Pow2(sh))
      && var e := d[t - 1 := Shl(x, Pow2(sh)) + d[t - 1]];
        WellFormed(e, t, -1) && Val(e, t, -1) == v - Pow2(bits)
  {
    hide Part, Pow, Pow2, WordBits;
    if sh == 0 {
      WordStart(t, 1);
      ValUnfold(d, t, -1);
    } else {
      var c, p := DB - sh, Pow2(sh);
      var x := Pow2(c) - 1;
      ShiftBounds(sh);
      FieldAbove(x, Pow2(c), p);
      TopFilledValue(d, t, x * p);
      var e := d[t - 1 := Shl(x, p) + d[t - 1]];
      assert e == TopFilled(d, t, x * p);
      ValUnfold(e, t, -1);
      PlaceValue(t - 1, sh, x);
      PlaceValue(t - 1, sh, 1);
      WordBitsNext(t - 1);
      WordStart(t, 1);
      Pow2Add(c, bits);
      MulDistrib(Pow2(bits), Pow2(c), 1);
    }
  }

  ghost predicate IsLowerDigit(c: char, k: nat) { 0 <= IntAt(c) < Pow2(k) && !('A' <= c <= 'Z') }

  /** r writes v in base 2^k with the digits 0-9 and a-v, without leading zeros. */
  ghost predicate Writes(r: string, v: int, k: nat) {
    && r != [] && (r[0] == '0' ==> r == "0") && (forall i :: 0 <= i < |r| ==> IsLowerDigit(r[i], k))
    && Number(r, k) == v
  }

  /** The text toString promises for v. */
  ghost predicate IsText(r: string, v: int, k: nat) {
    if v < 0 then r != [] && r[0] == '-' && Writes(r[1..], -v, k) else Writes(r, v, k)
  }

  lemma {:induction false} AllAreDigits(s: string)
    requires forall i :: 0 <= i < |s| ==> IntAt(s[i]) >= 0
    ensures CountDigits(s) == |s|
  {
    if s != [] {
      AllAreDigits(s[1..]);
    }
  }

  lemma NumberCons(s: string, k: nat)
    requires s != [] && forall i :: 0 <= i < |s| ==> IntAt(s[i]) >= 0
    ensures Number(s, k) == IntAt(s[0]) * Pow2(k * (|s| - 1)) + Number(s[1..], k)
  {
    hide Pow2;
    AllAreDigits(s[1..]);
  }

  lemma AppendArith(x: int, p: int, q: int, n: int, c: int)
    ensures (x * p + n) * q + c == x * (p * q) + (n * q + c)
  {
    MulDistrib(q, x * p, n);
    MulAssoc(x, p, q);
  }

  /** What toString has written when the digits above bit n are done: h is the number without its n lowest bits. */
  ghost predicate Written(r: string, m: bool, h: int, k: nat) {
    if m then h > 0 && r != [] && r[0] != '0' && Writes(r, h, k) else r == [] && h == 0
  }

  lemma WriteDigit(r: string, m: bool, h: int, k: nat, x: int)
    requires 0 < k <= 5 && Written(r, m, h, k) && 0 <= x < Pow2(k) && x < 36
    ensures var m', h' := m || x > 0, h * Pow2(k) + x; Written(if m' then r + [Int2Char(x)] else r, m', h', k)
  {
    CharRoundTrip(x);
    hide Pow2;
    if m || x > 0 {
      NumberGrows(r, Int2Char(x), k);
      ProductBound(h, Pow2(k), h, Pow2(k));
      if m {
        MulMono(h, 1, Pow2(k));
      } else {
        assert r + [Int2Char(x)] == [Int2Char(x)] && Number([], k) == 0;
      }
    }
  }

  /** The k bits below bit n are the next digit. */
  lemma NextDigit(v: int, n: nat, k: nat)
    requires k <= n
    ensures v / Pow2(n - k) == (v / Pow2(n)) * Pow2(k) + (v / Pow2(n - k)) % Pow2(k)
  {
    Pow2Add(n - k, k);
    hide Pow2;
    NestedDiv(v, Pow2(n - k), Pow2(k));
  }

  /** Above bit q of word i come its other bits, then the words above it. */
  lemma BitsFrom(d: Words, t: nat, i: nat, q: nat)
    requires i < t && q < DB && AllDigits(d, 0, t)
    ensures Val(d, t, 0) / Pow2(WordBits(i) + q) == d[i] / Pow2(q) + Pow2(DB - q) * Tail(d, i + 1, t, 0)
  {
    hide Part, Pow, Pow2, Val, Tail;
    DropDigits(d, i, t, 0);
    TailLow(d, i, t, 0);
    PowIsPow2(i);
    Pow2Add(DB * i, q);
    NestedDiv(Val(d, t, 0), Pow(i), Pow2(q));
    ShiftBounds(q);
    WithoutLowBits(d[i], Tail(d, i + 1, t, 0), Pow2(q), Pow2(DB - q));
  }

  lemma WithoutLowBits(g: int, above: int, m: int, c: int)
    requires m > 0 && m * c == DV
    ensures (g + DV * above) / m == g / m + c * above
  {
    MulDistrib(m, g / m, c * above);
    MulAssoc(m, c, above);
    FloorDiv(g + DV * above, m, g / m + c * above, g % m);
  }

  /** A digit inside word i. */
  lemma InnerDigit(d: Words, t: nat, i: nat, q: nat, k: nat)
    requires i < t && 0 < k && q + k <= DB && AllDigits(d, 0, t)
    ensures (Val(d, t, 0) / Pow2(WordBits(i) + q)) % Pow2(k) == (d[i] / Pow2(q)) % Pow2(k)
  {
    hide Part, Pow, Pow2, Val, Tail;
    BitsFrom(d, t, i, q);
    Pow2Add(k, DB - q - k);
    MulAssoc(Pow2(k), Pow2(DB - q - k), Tail(d, i + 1, t, 0));
    ModDropsMultiple(d[i] / Pow2(q), Pow2(DB - q - k) * Tail(d, i + 1, t, 0), Pow2(k));
  }

  lemma ModDropsMultiple(a: int, c: int, m: int)
    requires m > 0
    ensures (a + m * c) % m == a % m
  {
    MulDistrib(m, a / m, c);
    FloorDiv(a + m * c, m, a / m + c, a % m);
  }

  /** A digit whose p high bits are in word i and whose other bits are at the top of word i - 1. */
  lemma StraddledDigit(d: Words, t: nat, i: nat, p: nat, k: nat)
    requires 0 < i < t && 0 < p < k < DB && AllDigits(d, 0, t)
    ensures (Val(d, t, 0) / Pow2(WordBits(i - 1) + p + DB - k)) % Pow2(k)
      == (d[i] % Pow2(p)) * Pow2(k - p) + d[i - 1] / Pow2(p + DB - k)
    ensures 0 <= d[i - 1] / Pow2(p + DB - k) < Pow2(k - p)
  {
    hide Part, Pow, Pow2, Val, Tail;
    var q := p + DB - k;
    BitsFrom(d, t, i - 1, q);
    TailLow(d, i, t, 0);
    Pow2Add(k - p, p);
    Pow2Add(p, DB - p);
    PowIsPow2One();
    Pow2Add(q, DB - q);
    DigitQuotient(d[i - 1], Pow2(q), Pow2(DB - q));
    MulAssoc(Pow2(p), Pow2(DB - p), Tail(d, i + 1, t, 0));
    ModDropsMultiple(d[i], Pow2(DB - p) * Tail(d, i + 1, t, 0), Pow2(p));
    ModOfSum(d[i - 1] / Pow2(q), Pow2(k - p), Tail(d, i, t, 0), Pow2(p));
  }

  lemma DigitQuotient(x: int, a: int, b: int)
    requires IsDigit(x) && 0 < a && 0 < b && a * b == DV
    ensures 0 <= x / a < b
  {
    if x / a >= b {
      MulMono(a, b, x / a);
    }
  }

  /** The bits above the first full digit. */
  lemma TopDigit(d: Words, t: nat, p: nat)
    requires 0 < t && 0 < p <= DB && AllDigits(d, 0, t)
    ensures Val(d, t, 0) / Pow2(WordBits(t - 1) + p) == if p < DB then d[t - 1] / Pow2(p) else 0
  {
    hide Part, Pow, Pow2, Val, Tail;
    if p < DB {
      BitsFrom(d, t, t - 1, p);
      TailEmpty(d, t, 0);
    } else {
      WordBitsNext(t - 1);
      PowIsPow2(t);
      DropAllDigits(d, t, t, 0);
    }
  }

  /** The number of bits below bit p of word i; word -1 has none. */
  function BitsBelow(i: int, p: nat): nat { if i < 0 then 0 else WordBits(i) + p }

  /** jsbn.js lines 188-195: the next k bits below bit p of word i. */
  method TakeDigit(x: BigInteger, i: nat, p: nat, k: nat) returns (x': int, i': int, p': nat)
    requires x.Valid() && x.s == 0 && i < x.t && 0 < p <= DB && 0 < k <= 5 && (p < k ==> i > 0)
    ensures -1 <= i' < x.t && 0 < p' <= DB && BitsBelow(i', p') + k == BitsBelow(i, p)
    ensures x' == (x.Value() / Pow2(BitsBelow(i', p'))) % Pow2(k)
  {
    DigitBounds(x.d[i], p, k);
    hide Part, Pow, Val, Pow2, WordBits, Mask, Shr, Shl, Or, ShlFits, IsMultiple;
    if p < k {
      StraddledDigit(x.d, x.t, i, p, k);
      WordBitsNext(i - 1);
      x' := Shl(Mask(x.d[i], Pow2(p)), Pow2(k - p));
      i' := i - 1;
      p' := p + DB - k;
      ShrIsDiv(x.d[i'], Pow2(p'));
      x' := Or(x', Shr(x.d[i'], Pow2(p')), Pow2(k - p));
    } else {
      i', p' := i, p - k;
      InnerDigit(x.d, x.t, i, p', k);
      x' := MaskedShr(x.d[i'], Pow2(p'), Pow2(k));
      if p' <= 0 {
        p' := p' + DB;
        i' := i' - 1;
        if i' >= 0 {
          WordBitsNext(i');
        } else {
          NoWords();
        }
      }
    }
  }

  lemma NoWords()
    ensures WordBits(0) == 0
  {
  }

  lemma ShrIsDiv(x: int, m: int)
    requires IsInt32(x) && 0 < m
    ensures Shr(x, m) == x / m
  {
  }

  /** `(x >> p) & km` */
  function MaskedShr(x: int, p: int, m: int): (r: int)
    requires IsDigit(x) && 0 < p && 0 < m <= TWO31
    ensures r == (x / p) % m
  {
    DigitShr(x, p);
    Mask(Shr(x, p), m)
  }

  lemma DigitShr(x: int, p: int)
    requires IsDigit(x) && 0 < p
    ensures 0 <= x / p <= x
  {
    if x / p > x {
      MulMono(p, x + 1, x / p);
      MulMono(x + 1, 1, p);
    }
  }

  lemma DigitBounds(x: int, p: nat, k: nat)
    requires IsDigit(x) && 0 < p <= DB && 0 < k <= 5
    ensures Pow2(k) <= 0x20
    ensures p < k ==> Pow2(p) <= TWO31 && ShlFits(Mask(x, Pow2(p)), Pow2(k - p))
    ensures p < k ==> IsMultiple(Shl(Mask(x, Pow2(p)), Pow2(k - p)), Pow2(k - p))
    ensures p < k ==> Shl(Mask(x, Pow2(p)), Pow2(k - p)) == (x % Pow2(p)) * Pow2(k - p)
  {
    Pow2Mono(k, 5);
    Pow2Values();
    assert Pow2(5) == 2 * Pow2(4);
    if p < k {
      Pow2Add(p, k - p);
      hide Pow2;
      FieldAbove(x % Pow2(p), Pow2(p), Pow2(k - p));
    }
  }

  /** jsbn.js lines 183-199: m tells whether a digit other than 0 was found. */
  method WriteDigits(x: BigInteger, k: nat) returns (m: bool, r: string)
    requires x.Valid() && x.s == 0 && 0 < k <= 5
    ensures Written(r, m, x.Value(), k)
  {
    m, r := false, "";
    var i: int := x.t;
    hide Part, Pow, Val, Pow2, WordBits, Written, Number, BitsBelow, IsMultiple, StartBit;
    var p := StartBit(x.t, k);
    if i > 0 {
      FirstBits(x.t, k);
      TopDigit(x.d, x.t, p);
      i := i - 1;
      if p < DB {
        PartialDigit(x.d[i], p, k);
        var d := Shr(x.d[i], Pow2(p));
        EmptyText(k);
        WriteDigit("", false, 0, k, d);
        if d > 0 {
          m := true;
          r := [Int2Char(d)];
          assert "" + r == r;
        }
      } else {
        EmptyText(k);
      }
      m, r := WriteRest(x, i, p, k, m, r);
    } else {
      EmptyText(k);
      ValStart(x.d, 0);
    }
  }

  /** jsbn.js lines 187-198. */
  method WriteRest(x: BigInteger, i0: nat, p0: nat, k: nat, m0: bool, r0: string) returns (m: bool, r: string)
    requires x.Valid() && x.s == 0 && 0 < k <= 5 && i0 < x.t && 0 < p0 <= DB && IsMultiple(BitsBelow(i0, p0), k)
    requires Written(r0, m0, x.Value() / Pow2(BitsBelow(i0, p0)), k)
    ensures Written(r, m, x.Value(), k)
  {
    ghost var v := x.Value();
    hide Part, Pow, Val, Pow2, WordBits, Written, Number, IsMultiple, BitsBelow;
    m, r := m0, r0;
    var i: int, p := i0, p0;
    while i >= 0
      invariant -1 <= i < x.t && 0 < p <= DB && IsMultiple(BitsBelow(i, p), k)
      invariant Written(r, m, v / Pow2(BitsBelow(i, p)), k)
      decreases BitsBelow(i, p)
    {
      EnoughBits(i, p, k);
      ghost var n := BitsBelow(i, p);
      NextDigit(v, n, k);
      NextMultiple(n, k);
      DigitBounds(x.d[i], p, k);
      var d;
      d, i, p := TakeDigit(x, i, p, k);
      WriteDigit(r, m, v / Pow2(n), k, d);
      if d > 0 {
        m := true;
      }
      if m {
        r := r + [Int2Char(d)];
      }
    }
    AllWritten(v, p);
  }

  lemma AllWritten(v: int, p: nat)
    ensures v / Pow2(BitsBelow(-1, p)) == v
  {
    Pow2Zero();
  }

  lemma EmptyText(k: nat)
    ensures Written("", false, 0, k)
  {
  }

  /** jsbn.js line 184. */
  function StartBit(t: nat, k: nat): int
    requires k > 0
  {
    DB - (t * DB) % k
  }

  /** The first full digit ends at a multiple of k bits. */
  lemma FirstBits(t: nat, k: nat)
    requires t > 0 && 0 < k <= 5
    ensures var p := StartBit(t, k); 0 < p <= DB && DB - p < k
    ensures IsMultiple(BitsBelow(t - 1, StartBit(t, k)), k)
    ensures BitsBelow(t - 1, StartBit(t, k)) == WordBits(t - 1) + StartBit(t, k)
  {
    var w := t * DB;
    assert WordBits(t - 1) + StartBit(t, k) == w - w % k;
    FloorDiv(w - w % k, k, w / k, 0);
  }

  lemma PartialDigit(x: int, p: nat, k: nat)
    requires IsDigit(x) && 0 < p < DB && DB - p < k <= 5
    ensures 0 <= x / Pow2(p) < Pow2(k) && Pow2(k) <= 0x20
  {
    hide Pow2;
    Pow2Add(p, DB - p);
    PowIsPow2One();
    Pow2Mono(DB - p, k);
    Pow2Mono(k, 5);
    Pow2Values();
    DigitQuotient(x, Pow2(p), Pow2(DB - p));
  }

  /** Bits remain in whole digits, so a digit that starts in word 0 ends there. */
  lemma EnoughBits(i: nat, p: nat, k: nat)
    requires 0 < p && 0 < k && IsMultiple(BitsBelow(i, p), k)
    ensures p < k ==> i > 0
    ensures BitsBelow(i, p) >= k
  {
    var n := BitsBelow(i, p);
    if n < k {
      FloorDiv(n, k, 0, n);
    }
    if i == 0 {
      NoWords();
    }
  }

  lemma NextMultiple(n: nat, k: nat)
    requires IsMultiple(n, k) && n >= k
    ensures IsMultiple(n - k, k)
  {
    MulDistrib(k, n / k, 1);
    FloorDiv(n - k, k, n / k - 1, 0);
  }

  /** jsbn.js line 174. */
  method ToString(x: BigInteger, b: int) returns (r: string)
    requires IsRadix(b) && x.Valid() && x.Clamped()
    ensures IsText(r, x.Value(), DigitBits(b))
    decreases if x.s < 0 then 1 else 0
  {
    hide Part, Pow, Val, Pow2, Number;
    ValRange(x.d, x.t, x.s);
    if x.s < 0 {
      var y := x.Negate();
      ValRange(y.d, y.t, y.s);
      r := ToString(y, b);
      assert ("-" + r)[1..] == r;
      r := "-" + r;
      return;
    }
    var m := false;
    m, r := WriteDigits(x, DigitBits(b));
    if !m {
      ZeroText(DigitBits(b));
      r := "0";
    }
  }

  lemma ZeroText(k: nat)
    ensures Writes("0", 0, k)
  {
    assert "0"[1..] == "";
  }

  /** Reading a text back: what toString promises is exactly what fromString needs. */
  lemma TextReadsBack(r: string, v: int, k: nat)
    requires 0 < k <= 5 && IsText(r, v, k)
    ensures InRadix(r, k) && v == if HasMinus(r) then -Number(r, k) else Number(r, k)
  {
    if v < 0 {
      assert r == ['-'] + r[1..];
      assert forall i :: 0 < i < |r| ==> r[i] == r[1..][i - 1];
    }
  }

  /** fromString(toString(x,b),b) is x, for negative numbers as well. */
  method RoundTrip(x: BigInteger, b: int) returns (r: BigInteger)
    requires IsRadix(b) && x.Valid() && x.Clamped()
    ensures fresh(r) && r.Valid() && r.Clamped() && r.Value() == x.Value()
  {
    var text := ToString(x, b);
    TextReadsBack(text, x.Value(), DigitBits(b));
    r := new BigInteger();
    FromString(r, text, b);
  }
}
