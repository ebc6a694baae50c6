/** The bit length of a word. */
module Bits {
  import opened Arith
  import opened JsNumbers

  /** n has r - 1 bits below the bits x. */
  ghost predicate HighBits(n: int, x: int, r: nat) {
    1 <= r && 0 <= x && x * Pow2(r - 1) <= n < (x + 1) * Pow2(r - 1)
  }

  /** Dropping k of the bits x. */
  lemma NBitsStep(n: int, x: int, r: nat, k: nat, m: int, y: int)
    requires HighBits(n, x, r) && m == Pow2(k) && 0 <= y && m * y <= x < m * y + m
    ensures HighBits(n, y, r + k)
  {
    Pow2Add(k, r - 1);
    assert k + (r - 1) == r + k - 1;
    DropBits(n, x, Pow2(r - 1), m, y, Pow2(r + k - 1));
    hide Pow2;
  }

  lemma DropBits(n: int, x: int, p: int, m: int, y: int, mp: int)
    requires 0 < p && mp == m * p && x * p <= n < (x + 1) * p
    requires m * y <= x < m * y + m
    ensures y * mp <= n < (y + 1) * mp
  {
    MulDistrib(m, y, 1);
    MulMono(p, m * y, x);
    MulMono(p, x + 1, m * (y + 1));
    MulAssoc(y, m, p);
    MulAssoc(y + 1, m, p);
  }

  /** jsbn.js line 221: the bit length, with 1 for zero. */
  method NBits(n: int) returns (r: nat)
    requires IsUint32(n)
    ensures 1 <= r && n < Pow2(r)
    ensures if n == 0 then r == 1 else Pow2(r - 1) <= n
  {
    hide Pow2, HighBits;
    Pow2Values();
    AllBits(n);
    var x := n;
    r := 1;
    var t := UShr(x, 0x1_0000);
    if t != 0 { NBitsStep(n, x, r, 16, 0x1_0000, t); x := t; r := r + 16; }
    assert HighBits(n, x, r) && x < 0x1_0000;
    t := Shr(x, 0x100);
    if t != 0 { NBitsStep(n, x, r, 8, 0x100, t); x := t; r := r + 8; }
    assert HighBits(n, x, r) && x < 0x100;
    t := Shr(x, 0x10);
    if t != 0 { NBitsStep(n, x, r, 4, 0x10, t); x := t; r := r + 4; }
    assert HighBits(n, x, r) && x < 0x10;
    t := Shr(x, 4);
    if t != 0 { NBitsStep(n, x, r, 2, 4, t); x := t; r := r + 2; }
    assert HighBits(n, x, r) && x < 4;
    t := Shr(x, 2);
    if t != 0 { NBitsStep(n, x, r, 1, 2, t); x := t; r := r + 1; }
    OneHighBit(n, x, r);
  }

  lemma AllBits(n: nat)
    ensures HighBits(n, n, 1)
  {
    Pow2Values();
  }

  lemma OneHighBit(n: int, x: int, r: nat)
    requires HighBits(n, x, r) && 0 <= x <= 1
    ensures n < Pow2(r) && (x == 1 ==> Pow2(r - 1) <= n) && (x == 0 ==> n < Pow2(r - 1))
  {
  }
}
