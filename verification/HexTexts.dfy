/** Hexadecimal text of a fixed length. */
module HexTexts {
  import opened Arith
  import opened JsNumbers
  import opened Radix

  /** The k low hexadecimal digits of x. */
  function HexText(x: int, k: nat): (s: string)
    ensures |s| == k
    decreases k
  {
    if k == 0 then [] else HexText(x / 0x10, k - 1) + [Int2Char(x % 0x10)]
  }

  lemma HexLast(x: int, k: nat)
    ensures HexText(x, k + 1) == HexText(x / 0x10, k) + [Int2Char(x % 0x10)]
    ensures x % Pow2(4 * (k + 1)) == (x / 0x10) % Pow2(4 * k) * 0x10 + x % 0x10
    ensures HexText(x, 0) == [] && Pow2(0) == 1 && Number([], 4) == 0
  {
    Pow2Add(4, 4 * k);
    Pow2Values();
    assert 4 * (k + 1) == 4 + 4 * k;
    hide Pow2;
    ModOfSum(x % 0x10, 0x10, x / 0x10, Pow2(4 * k));
  }

  /** The digits write the low bits of x. */
  lemma {:induction false} HexReads(x: int, k: nat)
    ensures AllHex(HexText(x, k)) && Number(HexText(x, k), 4) == x % Pow2(4 * k)
    decreases k
  {
    hide Pow2, Number, HexText;
    if k == 0 {
      HexLast(x, 0);
    } else {
      HexLast(x, k - 1);
      HexReads(x / 0x10, k - 1);
      CharRoundTrip(x % 0x10);
      NumberGrows(HexText(x / 0x10, k - 1), Int2Char(x % 0x10), 4);
      Pow2Values();
      assert forall i :: 0 <= i < k - 1 ==> HexText(x, k)[i] == HexText(x / 0x10, k - 1)[i];
    }
  }

  lemma {:induction false} HexOfLowBits(x: int, k: nat)
    ensures HexText(x % Pow2(4 * k), k) == HexText(x, k)
    decreases k
  {
    if k > 0 {
      HexLast(x, k - 1);
      HexLast(x % Pow2(4 * k), k - 1);
      hide HexText, Pow2;
      HexOfLowBits(x / 0x10, k - 1);
      LowDigits(x, k);
    }
  }

  lemma LowDigits(x: int, k: nat)
    requires k > 0
    ensures (x % Pow2(4 * k)) % 0x10 == x % 0x10 && (x % Pow2(4 * k)) / 0x10 == (x / 0x10) % Pow2(4 * (k - 1))
  {
    HexLast(x, k - 1);
    hide HexText, Pow2;
    FloorDiv(x % Pow2(4 * k), 0x10, (x / 0x10) % Pow2(4 * (k - 1)), x % 0x10);
  }

  lemma {:induction false} HexLower(x: int, k: nat)
    ensures CountDigits(HexText(x, k)) == k && forall i :: 0 <= i < k ==> IsLowerDigit(HexText(x, k)[i], 4)
    decreases k
  {
    hide Number;
    if k > 0 {
      HexLower(x / 0x10, k - 1);
      CharRoundTrip(x % 0x10);
      Pow2Values();
      hide Pow2;
      AllAreDigits(HexText(x, k));
    }
  }

  /** u without its k lowest digits. */
  function WithoutLow(u: int, k: nat): int { if k == 0 then u else WithoutLow(u, k - 1) / 16 }

  lemma {:induction false} WithoutLowFirst(u: int, k: nat)
    ensures WithoutLow(u, k + 1) == WithoutLow(u / 16, k)
  {
    if k > 0 {
      WithoutLowFirst(u, k - 1);
    }
  }

  /** The digits from the right. */
  lemma {:induction false} HexDigitAt(x: int, k: nat, i: nat)
    requires i < k
    ensures HexText(x, k)[k - 1 - i] == Int2Char(WithoutLow(x, i) % 0x10)
    decreases k
  {
    hide Int2Char;
    if i > 0 {
      WithoutLowFirst(x, i - 1);
      HexDigitAt(x / 0x10, k - 1, i - 1);
    }
  }

  lemma TwoHexDigits(x: int)
    ensures HexText(x, 2) == [Int2Char(x / 16 % 16), Int2Char(x % 16)]
  {
    hide Int2Char;
    assert HexText(x / 16 / 16, 0) == [];
    assert HexText(x / 16, 1) == [] + [Int2Char(x / 16 % 16)];
  }
}
