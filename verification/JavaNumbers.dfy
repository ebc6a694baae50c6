/** Java's fixed-width signed integers, over the mathematical integers. */
module JavaNumbers {
  import opened Arith

  const LONGS: int := 0x1_0000_0000_0000_0000
  const INTS: int := 0x1_0000_0000
  const SHORTS: int := 0x1_0000
  const BYTES: int := 0x100

  /** The cast to a signed type with m values: only the low bits stay. */
  function Cast(x: int, m: int): (r: int)
    requires m > 0 && m % 2 == 0
    ensures Fits(r, m)
  {
    (x + m / 2) % m - m / 2
  }

  predicate Fits(x: int, m: int)
    requires m > 0
  {
    -(m / 2) <= x < m / 2
  }

  /** The same bits read without a sign, `x & 0xFF...F`. */
  function Bits(x: int, m: int): (r: int)
    requires m > 0
    ensures 0 <= r < m
  {
    x % m
  }

  lemma CastKeepsBits(x: int, m: int)
    requires m > 0 && m % 2 == 0
    ensures Bits(Cast(x, m), m) == Bits(x, m)
  {
    var h := m / 2;
    var q, r := (x + h) / m, (x + h) % m;
    assert x + h == m * q + r;
    MulDistrib(m, q, x / m);
    DivModUnique(m, (r - h) % m, (r - h) / m + q, x % m, x / m) by {
      MulDistrib(m, (r - h) / m, q);
    }
  }

  lemma CastOfBits(x: int, m: int)
    requires m > 0 && m % 2 == 0 && Fits(x, m)
    ensures Cast(Bits(x, m), m) == x && Cast(x, m) == x
    ensures Bits(x, m) == if x < 0 then x + m else x
  {
    var h := m / 2;
    if x < 0 {
      FloorDiv(x, m, -1, x + m);
      FloorDiv(x + m + h, m, 1, x + h);
    } else {
      FloorDiv(x, m, 0, x);
    }
    FloorDiv(x + h, m, 0, x + h);
  }

  /** A cast looks at the low bits only. */
  lemma CastSame(x: int, y: int, m: int)
    requires m > 0 && m % 2 == 0 && Bits(x, m) == Bits(y, m)
    ensures Cast(x, m) == Cast(y, m)
  {
    CastKeepsBits(x, m);
    CastKeepsBits(y, m);
    hide Cast;
    CastOfBits(Cast(x, m), m);
    CastOfBits(Cast(y, m), m);
  }

  /** A field of m values above the low bits below p is the same in a number and in its cast, which keeps the field. */
  lemma FieldOfCast(x: int, n: int, p: int, m: int, r: int)
    requires n > 0 && n % 2 == 0 && p > 0 && m > 0 && r > 0 && p * (m * r) == n
    ensures Cast(x, n) / p % m == x / p % m
  {
    var c := Cast(x, n);
    CastKeepsBits(x, n);
    hide Cast;
    var d := c / n - x / n;
    MulDistrib(n, c / n, x / n);
    assert c == x + n * d;
    FieldShift(x, c, n, d, p, m, r);
  }

  lemma FieldShift(x: int, c: int, n: int, d: int, p: int, m: int, r: int)
    requires p > 0 && m > 0 && r > 0 && p * (m * r) == n && c == x + n * d
    ensures c / p % m == x / p % m
  {
    var q, low := x / p, x % p;
    var e := (m * r) * d;
    MulAssoc(p, m * r, d);
    MulDistrib(p, q, e);
    FloorDiv(c, p, q + e, low);
    MulAssoc(m, r, d);
    var h, l := q / m, q % m;
    MulDistrib(m, h, r * d);
    FloorDiv(q + e, m, h + r * d, l);
  }
}
