/** The arithmetic inside the multiply-accumulate kernels am1, am2 and am3. */
module Kernels {
  import opened Arith
  import opened Digits
  import opened Engine
  import opened JsNumbers

  /** The carry out of one digit is at most the multiplier or the carry in. */
  lemma AmCarryBound(x: int, ti: int, wj: int, c: int, top: int)
    requires 0 <= x <= top && 0 <= c <= top && IsDigit(ti) && IsDigit(wj)
    ensures 0 <= x * ti + wj + c <= (x + 1) * DM + c
    ensures x * ti + wj + c < DV * (top + 1)
  {
    MulMono(x, 0, ti);
    MulMono(x, ti, DM);
    MulDistrib(DM, x, 1);
    MulMono(DM, x, top);
    MulDistrib(top, DV, 1);
    MulDistrib(DV, top, 1);
  }

  /** w[j..j+n) := w[j..j+n) + x * t[i..i+n) + c0, with carry c out of it. */
  ghost predicate MulAdded(wd: Words, od: Words, j: int, td: Words, i: int, n: nat, x: int, c0: int, c: int) {
    Part(wd, j, j + n) + c * Pow(n) == Part(od, j, j + n) + x * Part(td, i, i + n) + c0
  }

  lemma AmStart(d: Words, j: int, td: Words, i: int, x: int, c: int)
    ensures MulAdded(d, d, j, td, i, 0, x, c, c)
  {
  }

  lemma AmStep(wd: Words, od: Words, j: int, td: Words, i: int, n: nat, x: int, c0: int, c: int, wj: int, c': int)
    requires MulAdded(wd, od, j, td, i, n, x, c0, c)
    requires wj + DV * c' == x * Get(td, i + n) + Get(od, j + n) + c
    ensures MulAdded(wd[j + n := wj], od, j, td, i, n + 1, x, c0, c')
  {
    PartFrame(wd, wd[j + n := wj], j, j + n);
    PartTop(wd[j + n := wj], j, j + n);
    PartTop(od, j, j + n);
    PartTop(td, i, i + n);
    MulAddStep(DV, Pow(n), x, Part(wd, j, j + n), Part(od, j, j + n), Part(td, i, i + n), c0, c,
      Get(od, j + n), Get(td, i + n), wj, c');
    assert Pow(n + 1) == DV * Pow(n);
    hide *;
  }

  /** Both factors split in halves of k = sqrt DV: the four partial products, regrouped. */
  lemma AmHalves(k: int, x: int, xl: int, xh: int, y: int, l: int, h: int, m: int)
    requires x == xl + k * xh && y == l + k * h && m == xh * l + h * xl
    ensures x * y == xl * l + k * m + k * k * (xh * h)
  {
    MulDistrib(x, l, k * h);
    MulDistrib(l, xl, k * xh);
    MulDistrib(k * h, xl, k * xh);
    MulDistrib(k, xh * l, h * xl);
    MulAssoc(k, xh, l);
    MulAssoc(k, h, xl);
    assert (k * h) * (k * xh) == k * k * (xh * h);
  }

  /** Bounds on the partial products of halves. */
  lemma AmHalfBounds(k: int, xl: int, xh: int, l: int, h: int)
    requires 0 < k && 0 <= xl < k && 0 <= xh < 2 * k && 0 <= l < k && 0 <= h < k
    ensures 0 <= xl * l <= (k - 1) * (k - 1)
    ensures 0 <= xh * l <= (2 * k - 1) * (k - 1)
    ensures 0 <= h * xl <= (k - 1) * (k - 1)
    ensures 0 <= xh * h <= (2 * k - 1) * (k - 1)
  {
    ProductBound(xl, l, k - 1, k - 1);
    ProductBound(xh, l, 2 * k - 1, k - 1);
    ProductBound(h, xl, k - 1, k - 1);
    ProductBound(xh, h, 2 * k - 1, k - 1);
  }

  /** What am1 needs besides its operand bounds; am2 and am3 need nothing more. */
  ghost predicate AmSafe(x: int, c: int) { ENGINE == Kernel.Am1 ==> IsSafe((x + 1) * DM + c) }

  /** A digit, or a doubled digit, is small enough a multiplier for am. */
  lemma AmSafeWhen(x: int, c: int)
    requires 0 <= c <= x < 2 * DV - 1 && c <= DM
    ensures AmSafe(x, c)
  {
    ProductBound(x + 1, DM, 2 * DV - 1, DM);
  }

  /** Every product that am1 may form is a number JavaScript holds exactly. */
  ghost predicate Am1Fits(x: int, c: int) {
    forall ti, wj :: IsDigit(ti) && IsDigit(wj) ==> IsSafe(x * ti + wj + c)
  }

  /** The operand bounds that jsbn.js lines 27-32 state for am1 do not by themselves keep it below 2^53. They do
      except for the two largest multipliers, and for those exactly when the carry in stays below these limits. */
  lemma Am1Limit(x: int, c: int)
    requires ENGINE == Kernel.Am1 && 0 <= x < 2 * DV && 0 <= c < 3 * DV
    ensures Am1Fits(x, c) <==> !(x == 2 * DV - 1 && c >= 2 * DV) && !(x == 2 * DV - 2 && c == 3 * DV - 1)
    ensures Am1Fits(x, c) <==> AmSafe(x, c)
  {
    if AmSafe(x, c) {
      forall ti, wj | IsDigit(ti) && IsDigit(wj)
        ensures IsSafe(x * ti + wj + c)
      {
        AmCarryBound(x, ti, wj, c, if x < c then c else x);
      }
    } else {
      assert IsDigit(DM) && !IsSafe(x * DM + DM + c);
    }
  }

  /** The largest operands within the stated bounds. */
  lemma Am1Overflow()
    requires ENGINE == Kernel.Am1
    ensures (2 * DV - 1) * DM + DM + (3 * DV - 1) == TWO53 + DV - 1
    ensures !Am1Fits(2 * DV - 1, 3 * DV - 1)
  {
    Am1Limit(2 * DV - 1, 3 * DV - 1);
  }
}
