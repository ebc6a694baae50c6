/** invDigit of jsbn.js: the inverse of an odd digit, lifted from 2 bits to 4, 8, 16 and then to all of them. */
module InverseDigit {
  import opened Arith
  import opened JsNumbers
  import opened Modular

  /** JavaScript's `a % b`: the remainder has the sign of a. */
  function JsRem(a: int, b: int): int
    requires b > 0
  {
    if a < 0 then -((-a) % b) else a % b
  }

  lemma JsRemCongruent(a: int, b: int)
    requires b > 0
    ensures Congruent(JsRem(a, b), a, b) && -b < JsRem(a, b) < b
  {
    if a < 0 {
      CongruentBy(JsRem(a, b), a, b, (-a) / b);
    } else {
      CongruentMod(a, b);
    }
  }

  lemma JsRemSign(a: int, b: int)
    requires b > 0
    ensures (a >= 0 ==> JsRem(a, b) >= 0) && (a <= 0 ==> JsRem(a, b) <= 0)
  {
    if a == 0 {
      FloorDiv(0, b, 0, 0);
    }
  }

  /** If x * y is 1 modulo m, then y * (2 - x * y) inverts x modulo m^2, and so modulo any divisor n of m^2. */
  lemma Lift(x: int, y: int, m: int, n: int, c: int)
    requires n > 0 && m * m == n * c && Congruent(x * y, 1, m)
    ensures Congruent(x * (y * (2 - x * y)), 1, n)
  {
    var k := Multiplier(x * y, 1, m);
    var u := k * m;
    assert x * (y * (2 - x * y)) == (x * y) * (2 - x * y) by { MulAssoc(x, y, 2 - x * y); }
    assert (1 + u) * (1 - u) == 1 - u * u;
    assert u * u == (k * k) * (m * m);
    MulAssoc(k * k, n, c);
    assert u * u == ((k * k) * c) * n;
    CongruentBy(x * (y * (2 - x * y)), 1, n, -((k * k) * c));
  }

  /** One lifting step as the code takes it, with x and the product already reduced. */
  lemma LiftStep(x: int, y: int, p: int, y': int, m: int, n: int, c: int)
    requires n > 0 && m * m == n * c && Congruent(x * y, 1, m)
    requires Congruent(p, x * y, n) && Congruent(y', y * (2 - p), n)
    ensures Congruent(x * y', 1, n)
  {
    Lift(x, y, m, n, c);
    var k := Multiplier(p, x * y, n);
    CongruentBy(2 - p, 2 - x * y, n, -k);
    CongruentBy(y, y, n, 0);
    CongruentBy(x, x, n, 0);
    CongruentMul(y, y, 2 - p, 2 - x * y, n);
    CongruentTrans(y', y * (2 - p), y * (2 - x * y), n);
    CongruentMul(x, x, y', y * (2 - x * y), n);
    CongruentTrans(x * y', x * (y * (2 - x * y)), 1, n);
  }

  /** `(x & (n - 1)) * y` is x * y modulo n. */
  lemma MaskedProduct(x: int, y: int, n: int)
    requires n > 0
    ensures Congruent((x % n) * y, x * y, n)
  {
    CongruentMod(x, n);
    CongruentBy(y, y, n, 0);
    CongruentMul(x % n, x, y, y, n);
  }

  lemma ProductSafe(y: int, p: int)
    requires 0 <= y < 0x1_0000 && 0 <= p <= TWO32
    ensures IsSafe(y * (2 - p))
  {
    ProductBound(y, p, 0xffff, TWO32);
    MulDistrib(y, 2, p);
  }

  /** `(y*(2-(x&(n-1))*y))&(n-1)`, lines 440 and 441. */
  function LiftMasked(x: int, y: int, n: int): (r: int)
    requires IsSafe(x) && 0 <= y < 0x100 && 0 < n <= 0x100
    ensures 0 <= r < n
  {
    ProductBound(Mask(x, n), y, 0x100, 0x100);
    ProductSafe(y, Mask(x, n) * y);
    Mask(y * (2 - Mask(x, n) * y), n)
  }

  lemma MaskedStep(x: int, y: int, m: int, n: int)
    requires IsSafe(x) && 0 <= y < 0x100 && 0 < n <= 0x100 && m * m == n && Congruent(x * y, 1, m)
    ensures Congruent(x * LiftMasked(x, y, n), 1, n)
  {
    MaskedProduct(x, y, n);
    CongruentMod(y * (2 - (x % n) * y), n);
    LiftStep(x, y, (x % n) * y, LiftMasked(x, y, n), m, n, 1);
  }

  /** `(y*(2-(((x&0xffff)*y)&0xffff)))&0xffff`, line 442. */
  function LiftWord(x: int, y: int): (r: int)
    requires IsSafe(x) && 0 <= y < 0x100
    ensures 0 <= r < 0x1_0000
  {
    ProductBound(Mask(x, 0x1_0000), y, 0x1_0000, 0x100);
    ProductSafe(y, Mask(Mask(x, 0x1_0000) * y, 0x1_0000));
    Mask(y * (2 - Mask(Mask(x, 0x1_0000) * y, 0x1_0000)), 0x1_0000)
  }

  lemma WordStep(x: int, y: int)
    requires IsSafe(x) && 0 <= y < 0x100 && Congruent(x * y, 1, 0x100)
    ensures Congruent(x * LiftWord(x, y), 1, 0x1_0000)
  {
    var n := 0x1_0000;
    var p := ((x % n) * y) % n;
    MaskedProduct(x, y, n);
    CongruentMod((x % n) * y, n);
    CongruentTrans(p, (x % n) * y, x * y, n);
    CongruentMod(y * (2 - p), n);
    LiftStep(x, y, p, (y * (2 - p)) % n, 0x100, n, 1);
  }

  /** `(y*(2-x*y%this.DV))%this.DV`, line 445: both products are exact. */
  function LiftLast(x: int, y: int, dv: int): int
    requires 0 <= x < dv <= TWO32 && 0 <= y < 0x1_0000
    ensures IsSafe(x * y) && IsSafe(y * (2 - JsRem(x * y, dv)))
  {
    ProductBound(x, y, TWO32, 0xffff);
    ProductSafe(y, JsRem(x * y, dv));
    JsRem(y * (2 - JsRem(x * y, dv)), dv)
  }

  lemma LastStep(x: int, y: int, dv: int, c: int)
    requires 0 <= x < dv <= TWO32 && 0 <= y < 0x1_0000 && dv * c == TWO32 && Congruent(x * y, 1, 0x1_0000)
    ensures Congruent(x * LiftLast(x, y, dv), 1, dv) && -dv < LiftLast(x, y, dv) < dv
  {
    var p := JsRem(x * y, dv);
    JsRemCongruent(x * y, dv);
    JsRemCongruent(y * (2 - p), dv);
    LiftStep(x, y, p, JsRem(y * (2 - p), dv), 0x1_0000, dv, c);
  }

  lemma OddSquare(x: int)
    requires x % 2 == 1
    ensures Congruent(x * (x % 4), 1, 4)
  {
    var h := x / 4;
    if x % 4 == 1 {
      CongruentBy(x * 1, 1, 4, h);
    } else {
      CongruentBy(x * 3, 1, 4, 3 * h + 2);
    }
  }

  /** jsbn.js lines 437-447 for a digit x of db bits, 16 < db <= 32: x * z is -1 modulo 2^db. */
  method InverseOf(x: int, db: nat) returns (z: int)
    requires 16 < db <= 32 && 0 <= x < Pow2(db)
    ensures x % 2 == 0 ==> z == 0
    ensures x % 2 == 1 ==> 0 < z < Pow2(db) && Congruent(x * z, -1, Pow2(db))
  {
    hide Pow2, Congruent, LiftMasked, LiftWord, LiftLast;
    Pow2Values();
    Pow2Mono(db, 32);
    Pow2Mono(8, db);
    Pow2Add(db, 32 - db);
    if Mask(x, 2) == 0 {
      return 0;
    }
    OddSquare(x);
    var dv := Pow2(db);
    var y := Mask(x, 4);
    MaskedStep(x, y, 4, 0x10);
    y := LiftMasked(x, y, 0x10);
    MaskedStep(x, y, 0x10, 0x100);
    y := LiftMasked(x, y, 0x100);
    WordStep(x, y);
    y := LiftWord(x, y);
    LastStep(x, y, dv, Pow2(32 - db));
    y := LiftLast(x, y, dv);
    z := if y > 0 then dv - y else -y;
    NegativeInverse(x, y, dv);
  }

  lemma NegativeInverse(x: int, y: int, dv: int)
    requires dv > 1 && -dv < y < dv && Congruent(x * y, 1, dv)
    ensures var z := if y > 0 then dv - y else -y; 0 < z < dv && Congruent(x * z, -1, dv)
  {
    var k := Multiplier(x * y, 1, dv);
    if y > 0 {
      MulDistrib(x, dv, y);
      MulDistrib(dv, x, k);
      CongruentBy(x * (dv - y), -1, dv, x - k);
    } else {
      if y == 0 {
        FloorDiv(-1, dv, -1, dv - 1);
        assert false;
      }
      CongruentBy(x * -y, -1, dv, -k);
    }
  }
}
