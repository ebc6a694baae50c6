/** org.maxkey.util.UUIDGenerator: identifiers from a counter that all objects share, the process, the network card
    and the clock. */
module CounterUuids {
  import opened Arith
  import opened ByteNumbers
  import opened HexTexts
  import opened JavaNumbers
  import opened JsNumbers
  import opened Options
  import opened Radix
  import opened Uuids
  import opened UuidText

  const INCREMENT: int := 198491317

  /** The counter after k more steps, with Java's wrap-around. */
  function CounterAfter(start: int, step: int, k: nat): (c: int)
    ensures Fits(c, INTS)
  {
    Cast(start + k * step, INTS)
  }

  lemma CastStep(x: int, step: int)
    ensures Cast(Cast(x, INTS) + step, INTS) == Cast(x + step, INTS)
  {
    CastKeepsBits(x, INTS);
    hide Cast, Bits;
    SumBits(Cast(x, INTS), x, step);
    CastSame(Cast(x, INTS) + step, x + step, INTS);
  }

  lemma OneStep(start: int, step: int, k: nat)
    ensures Cast(CounterAfter(start, step, k) + step, INTS) == CounterAfter(start, step, k + 1)
  {
    hide Cast;
    CastStep(start + k * step, step);
    MulDistrib(step, k, 1);
  }

  lemma SumBits(c: int, x: int, y: int)
    requires Bits(c, INTS) == Bits(x, INTS)
    ensures Bits(c + y, INTS) == Bits(x + y, INTS)
  {
    var d := c / INTS - x / INTS;
    assert c == x + INTS * d;
    FloorDiv(c + y, INTS, (x + y) / INTS + d, (x + y) % INTS);
  }

  /** The inverse of INCREMENT modulo 2^32: INCREMENT is odd. */
  const INVERSE: int := 3127333277

  lemma FactorCancels(n: int, step: int, m: int)
    requires (step == INCREMENT || step == 1) && n * step == INTS * m
    ensures n % INTS == 0
  {
    if step == INCREMENT {
      assert INCREMENT * INVERSE == INTS * 144529273 + 1;
      assert n == INTS * (INVERSE * m - 144529273 * n);
      FloorDiv(n, INTS, INVERSE * m - 144529273 * n, 0);
    } else {
      FloorDiv(n, INTS, m, 0);
    }
  }

  /** With both steps that the class uses, INCREMENT and 1, the counter returns to a value after 2^32 steps and not
      before: any 2^32 consecutive ids draw different counters. */
  lemma CountersAgree(start: int, step: int, i: nat, j: nat)
    requires step == INCREMENT || step == 1
    ensures CounterAfter(start, step, i) == CounterAfter(start, step, j) <==> (j - i) % INTS == 0
  {
    var x, y := start + i * step, start + j * step;
    CastKeepsBits(x, INTS);
    CastKeepsBits(y, INTS);
    hide Cast;
    MulDistrib(step, j, i);
    if CounterAfter(start, step, i) == CounterAfter(start, step, j) {
      FactorCancels(j - i, step, y / INTS - x / INTS);
    }
    if (j - i) % INTS == 0 {
      var q := (j - i) / INTS;
      MulAssoc(INTS, q, step);
      FloorDiv(y, INTS, x / INTS + q * step, x % INTS);
      CastSame(x, y, INTS);
    }
  }

  /** `(count & mask) >> 4k`, where the mask covers one hexadecimal digit: digit k of the counter. */
  function Nibble(count: int, k: nat): (d: int)
    ensures 0 <= d < 16
  {
    WithoutLow(Bits(count, INTS), k) % 16
  }

  /** `hi | lo` where lo has been shifted down with its sign: a negative lo has all higher bits set. */
  function OrSigned(hi: int, lo: int): int
    requires IsMultiple(hi, 16) && 0 <= hi < 0x100 && -8 <= lo < 8
  {
    if lo < 0 then lo else hi + lo
  }

  /** `(byte) ((high << 4) | low)` */
  function PairByte(high: int, low: int): (b: int)
    requires 0 <= high < 16 && 0 <= low < 16
    ensures Fits(b, BYTES)
  {
    Cast(Or(16 * high, low, 16), BYTES)
  }

  /** The last byte, where the shift has kept the sign of its low digit: that sign tells the two cases apart. */
  function LastByte(six: int, seven: int): (b: int)
    requires 0 <= six < 16 && 0 <= seven < 16
    ensures Fits(b, BYTES)
  {
    Cast(OrSigned(16 * six, Cast(seven, 16)), BYTES)
  }

  /** UUIDGenerator.java lines 44-47: the digits in reverse order, except that the shift in line 47 is arithmetic. */
  function ReversedBytes(count: int): (b: seq<int>)
    ensures |b| == 4 && AreBytes(b)
  {
    [PairByte(Nibble(count, 0), Nibble(count, 1)), PairByte(Nibble(count, 2), Nibble(count, 3)),
     PairByte(Nibble(count, 4), Nibble(count, 5)), LastByte(Nibble(count, 6), Nibble(count, 7))]
  }

  lemma Digits(count: int)
    ensures var u := Bits(count, INTS);
      u == Nibble(count, 0) + 16 * WithoutLow(u, 1) && WithoutLow(u, 1) == Nibble(count, 1) + 16 * WithoutLow(u, 2)
      && WithoutLow(u, 2) == Nibble(count, 2) + 16 * WithoutLow(u, 3)
      && WithoutLow(u, 3) == Nibble(count, 3) + 16 * WithoutLow(u, 4)
      && WithoutLow(u, 4) == Nibble(count, 4) + 16 * WithoutLow(u, 5)
      && WithoutLow(u, 5) == Nibble(count, 5) + 16 * WithoutLow(u, 6)
      && WithoutLow(u, 6) == Nibble(count, 6) + 16 * Nibble(count, 7)
    ensures Nibble(count, 7) >= 8 <==> Bits(count, INTS) >= TWO31
  {
    var u := Bits(count, INTS);
    assert WithoutLow(u, 0) == u;
    WithoutLowStep(u, 0);
    WithoutLowStep(u, 1);
    WithoutLowStep(u, 2);
    WithoutLowStep(u, 3);
    WithoutLowStep(u, 4);
    WithoutLowStep(u, 5);
    WithoutLowStep(u, 6);
    WithoutLowStep(u, 7);
    hide WithoutLow;
  }

  lemma WithoutLowStep(u: int, k: nat)
    requires WithoutLow(u, k) >= 0
    ensures WithoutLow(u, k) == WithoutLow(u, k) % 16 + 16 * WithoutLow(u, k + 1) && WithoutLow(u, k + 1) >= 0
  {
  }

  /** c and d agree in all digits but digit 6, bits 24 to 27. */
  predicate SameButDigit6(c: int, d: int) {
    && Nibble(c, 0) == Nibble(d, 0) && Nibble(c, 1) == Nibble(d, 1) && Nibble(c, 2) == Nibble(d, 2)
    && Nibble(c, 3) == Nibble(d, 3) && Nibble(c, 4) == Nibble(d, 4) && Nibble(c, 5) == Nibble(d, 5)
    && Nibble(c, 7) == Nibble(d, 7)
  }

  lemma NibblesDetermine(c: int, d: int)
    requires Fits(c, INTS) && Fits(d, INTS)
    ensures c == d <==> SameButDigit6(c, d) && Nibble(c, 6) == Nibble(d, 6)
  {
    Digits(c);
    Digits(d);
    CastOfBits(c, INTS);
    CastOfBits(d, INTS);
    hide Nibble, WithoutLow, Cast, Bits;
  }

  lemma PairOfDigits(a: int, b: int, c: int, d: int)
    requires 0 <= a < 16 && 0 <= b < 16 && 0 <= c < 16 && 0 <= d < 16
    ensures PairByte(a, b) == PairByte(c, d) <==> a == c && b == d
  {
    ByteCast(16 * a + b);
    ByteCast(16 * c + d);
    hide Cast;
  }

  lemma LastBytes(a: int, b: int, c: int, d: int)
    requires 0 <= a < 16 && 0 <= b < 16 && 0 <= c < 16 && 0 <= d < 16
    ensures LastByte(a, b) == LastByte(c, d) <==> b == d && (b >= 8 || a == c)
  {
    hide LastByte;
    LastByteIs(a, b);
    LastByteIs(c, d);
  }

  lemma LastByteIs(six: int, seven: int)
    requires 0 <= six < 16 && 0 <= seven < 16
    ensures LastByte(six, seven) ==
      if seven >= 8 then seven - 16 else if six >= 8 then 16 * six + seven - 256 else 16 * six + seven
  {
    hide Cast, IsMultiple;
    NibbleCast(seven);
    SixteenTimes(six);
    ByteCast(if seven >= 8 then seven - 16 else 16 * six + seven);
  }

  lemma SixteenTimes(six: int)
    ensures IsMultiple(16 * six, 16)
  {
  }

  lemma NibbleCast(x: int)
    requires 0 <= x < 16
    ensures Cast(x, 16) == if x >= 8 then x - 16 else x
  {
  }

  lemma ByteCast(v: int)
    requires -128 <= v < 256
    ensures Cast(v, BYTES) == if v >= 128 then v - 256 else v
  {
  }

  /** In the variable mode two counters have the same four bytes exactly if they are equal, or both negative and
      different in nothing but bits 24 to 27: the shift in line 47 fills those bits with copies of the sign. */
  lemma ReversedCollide(c: int, d: int)
    requires Fits(c, INTS) && Fits(d, INTS)
    ensures ReversedBytes(c) == ReversedBytes(d) <==> c == d || (c < 0 && d < 0 && SameButDigit6(c, d))
  {
    hide Nibble, PairByte, LastByte;
    PairOfDigits(Nibble(c, 0), Nibble(c, 1), Nibble(d, 0), Nibble(d, 1));
    PairOfDigits(Nibble(c, 2), Nibble(c, 3), Nibble(d, 2), Nibble(d, 3));
    PairOfDigits(Nibble(c, 4), Nibble(c, 5), Nibble(d, 4), Nibble(d, 5));
    LastBytes(Nibble(c, 6), Nibble(c, 7), Nibble(d, 6), Nibble(d, 7));
    NibblesDetermine(c, d);
    SignNibble(c);
    SignNibble(d);
    FourAgree(ReversedBytes(c), ReversedBytes(d));
  }

  /** In the variable mode the eight hexadecimal digits of the counter are reversed; the last digit but one of a negative
      counter is 'f' instead of its own. */
  lemma ReversedText(c: int)
    requires Fits(c, INTS)
    ensures var r, s := NodeText(ReversedBytes(c), 4), HexText(c, 8);
      forall k :: 0 <= k < 8 ==> r[k] == if k == 6 && c < 0 then 'f' else s[7 - k]
  {
    hide HexText, NodeText, Nibble, ReversedBytes, Int2Char;
    var b := ReversedBytes(c);
    DigitsOfCounter(c);
    DigitsOfReversed(c);
    FifteenIsF();
    FourTexts(b);
    TwoHexDigits(b[0]);
    TwoHexDigits(b[1]);
    TwoHexDigits(b[2]);
    TwoHexDigits(b[3]);
  }

  lemma DigitsOfReversed(c: int)
    requires Fits(c, INTS)
    ensures var b := ReversedBytes(c);
      && b[0] / 16 % 16 == Nibble(c, 0) && b[0] % 16 == Nibble(c, 1)
      && b[1] / 16 % 16 == Nibble(c, 2) && b[1] % 16 == Nibble(c, 3)
      && b[2] / 16 % 16 == Nibble(c, 4) && b[2] % 16 == Nibble(c, 5)
      && b[3] / 16 % 16 == (if c < 0 then 15 else Nibble(c, 6)) && b[3] % 16 == Nibble(c, 7)
  {
    hide Nibble, PairByte, LastByte;
    SignNibble(c);
    PairIs(Nibble(c, 0), Nibble(c, 1));
    PairIs(Nibble(c, 2), Nibble(c, 3));
    PairIs(Nibble(c, 4), Nibble(c, 5));
    LastIs(Nibble(c, 6), Nibble(c, 7));
  }

  lemma LastIs(six: int, seven: int)
    requires 0 <= six < 16 && 0 <= seven < 16
    ensures LastByte(six, seven) / 16 % 16 == (if seven >= 8 then 15 else six) && LastByte(six, seven) % 16 == seven
  {
    hide LastByte;
    LastByteIs(six, seven);
  }

  lemma FifteenIsF()
    ensures Int2Char(15) == 'f'
  {
  }

  lemma FourTexts(b: seq<int>)
    requires |b| == 4
    ensures NodeText(b, 4) == HexText(b[0], 2) + HexText(b[1], 2) + HexText(b[2], 2) + HexText(b[3], 2)
  {
    hide HexText;
    assert NodeText(b, 1) == NodeText(b, 0) + HexText(b[0], 2) == HexText(b[0], 2);
    assert NodeText(b, 2) == NodeText(b, 1) + HexText(b[1], 2);
    assert NodeText(b, 3) == NodeText(b, 2) + HexText(b[2], 2);
  }

  lemma PairIs(high: int, low: int)
    requires 0 <= high < 16 && 0 <= low < 16
    ensures PairByte(high, low) / 16 % 16 == high && PairByte(high, low) % 16 == low
  {
    ByteCast(16 * high + low);
    hide Cast;
  }

  /** The digits of the counter, as they stand in its text. */
  lemma DigitsOfCounter(c: int)
    ensures forall k :: 0 <= k < 8 ==> HexText(c, 8)[7 - k] == Int2Char(Nibble(c, k))
  {
    hide HexText, Int2Char, Pow2, WithoutLow;
    Pow2Values();
    HexOfLowBits(c, 8);
    forall k | 0 <= k < 8
      ensures HexText(c, 8)[7 - k] == Int2Char(Nibble(c, k))
    {
      HexDigitAt(Bits(c, INTS), 8, k);
    }
  }

  lemma FourAgree(x: seq<int>, y: seq<int>)
    requires |x| == 4 && |y| == 4
    ensures x == y <==> x[0] == y[0] && x[1] == y[1] && x[2] == y[2] && x[3] == y[3]
  {
  }

  lemma SignNibble(c: int)
    requires Fits(c, INTS)
    ensures c < 0 <==> Nibble(c, 7) >= 8
  {
    Digits(c);
    CastOfBits(c, INTS);
  }

  /** An example of two different counters. */
  lemma ReversedCollideExample()
    ensures ReversedBytes(-1) == ReversedBytes(-0x100_0001)
  {
    ReversedCollide(-1, -0x100_0001);
    NibblesOf(-1, 0xFFFF_FFFF);
    NibblesOf(-0x100_0001, 0xFEFF_FFFF);
  }

  lemma NibblesOf(c: int, u: int)
    requires Bits(c, INTS) == u && (u == 0xFFFF_FFFF || u == 0xFEFF_FFFF)
    ensures Nibble(c, 0) == 15 && Nibble(c, 1) == 15 && Nibble(c, 2) == 15 && Nibble(c, 3) == 15
    ensures Nibble(c, 4) == 15 && Nibble(c, 5) == 15 && Nibble(c, 7) == 15
  {
    Digits(c);
  }

  /** In the sequential mode the four bytes are the counter. */
  lemma SequentialAgree(c: int, d: int)
    requires Fits(c, INTS) && Fits(d, INTS)
    ensures IntBytes(c, 4) == IntBytes(d, 4) <==> c == d
  {
    hide IntBytes, Pow2;
    Pow2Values();
    BytesRead(c, 4);
    BytesRead(d, 4);
    CastOfBits(c, INTS);
    CastOfBits(d, INTS);
  }

  lemma FourBytes(x: int)
    ensures IntBytes(x, 4) == [Cast(x / 0x100_0000, BYTES), Cast(x / 0x1_0000, BYTES), Cast(x / 0x100, BYTES), Cast(x, BYTES)]
  {
    hide Cast, IntBytes, ByteNumber;
    NestedDiv(x, 0x100, 0x100);
    NestedDiv(x, 0x1_0000, 0x100);
    BytesLast(x, 3);
    BytesLast(x / 0x100, 2);
    BytesLast(x / 0x1_0000, 1);
    BytesLast(x / 0x100_0000, 0);
    NoBytes(x / 0x100_0000 / 0x100);
  }

  lemma TwoBytes(x: int)
    ensures IntBytes(x, 2) == [Cast(x / 0x100, BYTES), Cast(x, BYTES)]
  {
    hide Cast, IntBytes, ByteNumber;
    BytesLast(x, 1);
    BytesLast(x / 0x100, 0);
    NoBytes(x / 0x100 / 0x100);
  }

  lemma SixBytes(x: int)
    ensures IntBytes(x, 6) == [Cast(x / 0x100_0000_0000, BYTES), Cast(x / 0x1_0000_0000, BYTES)] + IntBytes(x, 4)
  {
    hide Cast, IntBytes, ByteNumber;
    FourBytes(x);
    NestedDiv(x, 0x100, 0x100);
    NestedDiv(x, 0x1_0000, 0x100);
    NestedDiv(x, 0x100_0000, 0x100);
    NestedDiv(x, 0x1_0000_0000, 0x100);
    BytesLast(x, 5);
    BytesLast(x / 0x100, 4);
    BytesLast(x / 0x1_0000, 3);
    BytesLast(x / 0x100_0000, 2);
    BytesLast(x / 0x1_0000_0000, 1);
    BytesLast(x / 0x100_0000_0000, 0);
    NoBytes(x / 0x100_0000_0000 / 0x100);
  }

  /** Version 'b' in the high digit, a digit of the card's address in the low one. */
  function VersionByte(m: int): (b: int)
    ensures Fits(b, BYTES) && Bits(b, BYTES) == 0xB0 + m % 16
  {
    -80 + m % 16
  }

  /** The 16 bytes of an id. */
  function ContentOf(count: int, sequential: bool, pid: int, mac: seq<int>, time: int): (c: seq<int>)
    requires IsNode(mac)
    ensures |c| == 16 && AreBytes(c)
  {
    (if sequential then IntBytes(count, 4) else ReversedBytes(count))
    + IntBytes(pid, 2) + [VersionByte(mac[2]), mac[3], mac[4], mac[5]] + IntBytes(time, 6)
  }

  /** What all objects of the class share. */
  class Shared {
    var counter: int
    var sequential: bool
    const pid: int
    const mac: seq<int>

    constructor (counter: int, pid: int, mac: seq<int>)
      ensures this.counter == counter && !sequential && this.pid == pid && this.mac == mac
    {
      this.counter := counter;
      this.sequential := false;
      this.pid := pid;
      this.mac := mac;
    }

    /** UUIDGenerator.java lines 39-57: the counter takes a step and goes into the first four bytes. */
    method PutCounter(content: array<int>)
      requires content.Length == 16 && Fits(counter, INTS)
      modifies `counter, content
      ensures counter == Cast(old(counter) + (if sequential then 1 else INCREMENT), INTS)
      ensures content[..4] == if sequential then IntBytes(counter, 4) else ReversedBytes(counter)
    {
      hide Cast, IntBytes, ReversedBytes;
      if !sequential {
        counter := Cast(counter + INCREMENT, INTS);
        var b := ReversedBytes(counter);
        content[0], content[1], content[2], content[3] := b[0], b[1], b[2], b[3];
        assert content[..4] == b;
      } else {
        counter := Cast(counter + 1, INTS);
        FourBytes(counter);
        content[0] := Cast(counter / 0x100_0000, BYTES);
        content[1] := Cast(counter / 0x1_0000, BYTES);
        content[2] := Cast(counter / 0x100, BYTES);
        content[3] := Cast(counter, BYTES);
      }
    }

    /** UUIDGenerator.java lines 60-61 and 73-78. */
    method PutNumbers(content: array<int>, time: int)
      requires content.Length == 16
      modifies content
      ensures content[..4] == old(content[..4]) && content[4..6] == IntBytes(pid, 2) && content[10..16] == IntBytes(time, 6)
    {
      hide Cast, IntBytes;
      TwoBytes(pid);
      content[4] := Cast(pid / 0x100, BYTES);
      content[5] := Cast(pid, BYTES);
      SixBytes(time);
      FourBytes(time);
      content[10] := Cast(time / 0x100_0000_0000, BYTES);
      content[11] := Cast(time / 0x1_0000_0000, BYTES);
      content[12] := Cast(time / 0x100_0000, BYTES);
      content[13] := Cast(time / 0x1_0000, BYTES);
      content[14] := Cast(time / 0x100, BYTES);
      content[15] := Cast(time, BYTES);
    }

    /** UUIDGenerator.java line 35: the content of a new id. */
    method Generate(time: int) returns (content: array<int>)
      requires IsNode(mac) && Fits(counter, INTS)
      modifies `counter
      ensures counter == Cast(old(counter) + (if sequential then 1 else INCREMENT), INTS)
      ensures fresh(content) && content[..] == ContentOf(counter, sequential, pid, mac, time)
    {
      hide Cast, IntBytes, ReversedBytes;
      content := new int[16];
      PutCounter(content);
      PutNumbers(content, time);
      ghost var first, id, last := content[..4], content[4..6], content[10..16];
      content[6] := VersionByte(mac[2]);
      content[7] := mac[3];
      content[8] := mac[4];
      content[9] := mac[5];
      assert content[..4] == first && content[4..6] == id && content[10..16] == last;
      assert content[6..10] == [VersionByte(mac[2]), mac[3], mac[4], mac[5]];
      assert content[..] == content[..4] + content[4..6] + content[6..10] + content[10..16];
    }
  }

  /** Two counters of one mode that get the same four bytes. */
  predicate SameCount(c: int, d: int, sequential: bool) {
    c == d || (!sequential && c < 0 && d < 0 && SameButDigit6(c, d))
  }

  lemma TimeBytesAgree(x: int, y: int)
    ensures IntBytes(x, 6) == IntBytes(y, 6) <==> x % 0x1_0000_0000_0000 == y % 0x1_0000_0000_0000
  {
    hide IntBytes, Pow2;
    Pow2Values();
    Pow2Add(32, 16);
    BytesRead(x, 6);
    BytesRead(y, 6);
    if x % 0x1_0000_0000_0000 == y % 0x1_0000_0000_0000 {
      BytesDetermined(y, IntBytes(x, 6));
    }
  }

  /** Two ids of one mode, process and card agree exactly if their times agree in 48 bits and their counters get the
      same four bytes. */
  lemma ContentsAgree(c: int, d: int, sequential: bool, pid: int, mac: seq<int>, time: int, time': int)
    requires Fits(c, INTS) && Fits(d, INTS) && IsNode(mac)
    ensures ContentOf(c, sequential, pid, mac, time) == ContentOf(d, sequential, pid, mac, time') <==>
      time % 0x1_0000_0000_0000 == time' % 0x1_0000_0000_0000 && SameCount(c, d, sequential)
  {
    hide IntBytes, ReversedBytes, SameButDigit6, ContentOf;
    FirstAndLastBytes(c, sequential, pid, mac, time);
    FirstAndLastBytes(d, sequential, pid, mac, time');
    TimeBytesAgree(time, time');
    PartsAgree(if sequential then IntBytes(c, 4) else ReversedBytes(c), if sequential then IntBytes(d, 4) else ReversedBytes(d),
      IntBytes(pid, 2) + [VersionByte(mac[2]), mac[3], mac[4], mac[5]], IntBytes(time, 6), IntBytes(time', 6));
    if sequential {
      SequentialAgree(c, d);
    } else {
      ReversedCollide(c, d);
    }
  }

  /** Among any 2^32 consecutive ids of one mode no two agree, whatever the clock shows: always in the sequential mode,
      and in the variable mode unless both counters are negative and differ in nothing but digit 6. */
  lemma IdsAgree(start: int, sequential: bool, i: nat, j: nat, pid: int, mac: seq<int>, time: int, time': int)
    requires IsNode(mac) && 0 < j - i < INTS
    ensures var step := if sequential then 1 else INCREMENT;
      var c, d := CounterAfter(start, step, i), CounterAfter(start, step, j);
      ContentOf(c, sequential, pid, mac, time) == ContentOf(d, sequential, pid, mac, time') <==>
        !sequential && c < 0 && d < 0 && SameButDigit6(c, d) && time % 0x1_0000_0000_0000 == time' % 0x1_0000_0000_0000
  {
    hide CounterAfter, ContentOf, SameButDigit6, IsNode, Cast;
    var step := if sequential then 1 else INCREMENT;
    CountersAgree(start, step, i, j);
    FloorDiv(j - i, INTS, 0, j - i);
    ContentsAgree(CounterAfter(start, step, i), CounterAfter(start, step, j), sequential, pid, mac, time, time');
  }

  lemma PartsAgree(a: seq<int>, a': seq<int>, m: seq<int>, b: seq<int>, b': seq<int>)
    requires |a| == |a'| && |b| == |b'|
    ensures a + m + b == a' + m + b' <==> a == a' && b == b'
  {
    var s, s' := a + m + b, a' + m + b';
    assert s[..|a|] == a && s'[..|a|] == a';
    assert s[|a| + |m|..] == b && s'[|a| + |m|..] == b';
  }

  lemma FirstAndLastBytes(count: int, sequential: bool, pid: int, mac: seq<int>, time: int)
    requires IsNode(mac)
    ensures ContentOf(count, sequential, pid, mac, time) ==
      (if sequential then IntBytes(count, 4) else ReversedBytes(count))
      + (IntBytes(pid, 2) + [VersionByte(mac[2]), mac[3], mac[4], mac[5]]) + IntBytes(time, 6)
  {
    hide IntBytes, ReversedBytes, VersionByte;
  }

  /** What stands where in an id: the counter, the process, the version and the card, the time. */
  lemma ContentParts(count: int, sequential: bool, pid: int, mac: seq<int>, time: int)
    requires IsNode(mac)
    ensures var c := ContentOf(count, sequential, pid, mac, time);
      && c[..4] == (if sequential then IntBytes(count, 4) else ReversedBytes(count))
      && (sequential ==> ByteNumber(c[..4]) == Bits(count, INTS)) && ByteNumber(c[4..6]) == pid % 0x1_0000
      && Bits(c[6], BYTES) == 0xB0 + mac[2] % 16 && c[7..10] == mac[3..] && ByteNumber(c[10..]) == time % 0x1_0000_0000_0000
  {
    hide Cast, IntBytes, ReversedBytes, ByteNumber, Pow2;
    var c := ContentOf(count, sequential, pid, mac, time);
    assert c[4..6] == IntBytes(pid, 2) && c[10..] == IntBytes(time, 6) && c[6] == VersionByte(mac[2]);
    assert c[7..10] == mac[3..];
    Pow2Values();
    Pow2Add(32, 16);
    BytesRead(count, 4);
    BytesRead(pid, 2);
    BytesRead(time, 6);
  }

  /** UUIDGenerator.java line 244. */
  function GetVersion(c: seq<int>): char
    requires |c| == 16
  {
    Int2Char(Bits(c[6], BYTES) / 16)
  }

  /** UUIDGenerator.java line 252: -1 for another version. */
  function GetProcessId(c: seq<int>): int
    requires |c| == 16
  {
    if GetVersion(c) != 'b' then -1 else ByteNumber(c[4..6])
  }

  /** UUIDGenerator.java line 263: None for another version. */
  function GetTimestamp(c: seq<int>): Option<int>
    requires |c| == 16
  {
    if GetVersion(c) != 'b' then None else Some(ByteNumber(c[10..]))
  }

  /** UUIDGenerator.java line 283. */
  function GetMacFragment(c: seq<int>): Option<seq<int>>
    requires |c| == 16
  {
    if GetVersion(c) != 'b' then None else Some([0, 0, Bits(c[6], BYTES) % 16, c[7], c[8], c[9]])
  }

  /** The getters return what the id was made of, as far as its bytes go. */
  lemma GettersReturn(count: int, sequential: bool, pid: int, mac: seq<int>, time: int)
    requires IsNode(mac)
    ensures var c := ContentOf(count, sequential, pid, mac, time);
      GetVersion(c) == 'b' && GetProcessId(c) == pid % 0x1_0000 && GetTimestamp(c) == Some(time % 0x1_0000_0000_0000)
      && GetMacFragment(c) == Some([0, 0, mac[2] % 16, mac[3], mac[4], mac[5]])
  {
    hide Cast, IntBytes, ReversedBytes, ByteNumber, Pow2;
    var c := ContentOf(count, sequential, pid, mac, time);
    assert c[4..6] == IntBytes(pid, 2) && c[10..] == IntBytes(time, 6) && c[6] == VersionByte(mac[2]);
    Pow2Values();
    Pow2Add(32, 16);
    BytesRead(pid, 2);
    BytesRead(time, 6);
  }

  /** UUIDGenerator.java line 196. */
  function IdText(c: seq<int>): (s: string)
    requires |c| == 16
    ensures |s| == 36
  {
    NodeText(c[0..4], 4) + "-" + NodeText(c[4..6], 2) + "-" + NodeText(c[6..8], 2) + "-"
    + NodeText(c[8..10], 2) + "-" + NodeText(c[10..16], 6)
  }

  /** The text of an id is that of a UUID with its bytes. */
  lemma IdTextIs(c: seq<int>)
    requires |c| == 16 && AreBytes(c)
    ensures IsUuidText(IdText(c), c)
  {
    hide NodeText, WritesBytes, IsLowerDigit, Number, ByteNumber;
    NodeWrites(c[0..4], 4);
    NodeWrites(c[4..6], 2);
    NodeWrites(c[6..8], 2);
    NodeWrites(c[8..10], 2);
    NodeWrites(c[10..16], 6);
    assert c[0..4][..4] == c[0..4] && c[4..6][..2] == c[4..6] && c[6..8][..2] == c[6..8] && c[8..10][..2] == c[8..10];
    assert c[10..16][..6] == c[10..16];
    PartsWrite(NodeText(c[0..4], 4), c[0..4], NodeText(c[4..6], 2), c[4..6], NodeText(c[6..8], 2), c[6..8],
      NodeText(c[8..10], 2), c[8..10], NodeText(c[10..16], 6), c[10..16]);
    assert c[0..4] + c[4..6] + c[6..8] + c[8..10] + c[10..16] == c;
    BothWrite(IdText(c), c);
    NodeLower(c[0..4], 4);
    NodeLower(c[4..6], 2);
    NodeLower(c[6..8], 2);
    NodeLower(c[8..10], 2);
    NodeLower(c[10..16], 6);
  }

  /** Java's String.trim. */
  function Trim(s: string): string {
    if s != [] && s[0] <= ' ' then Trim(s[1..])
    else if s != [] && s[|s| - 1] <= ' ' then Trim(s[..|s| - 1])
    else s
  }

  ghost predicate IsBlank(s: string) { forall i :: 0 <= i < |s| ==> s[i] <= ' ' }

  lemma BlankJoin(a: string, b: string)
    requires IsBlank(a) && IsBlank(b)
    ensures IsBlank(a + b)
  {
  }

  lemma PartsJoin(x: string, b: string, t: string, a: string)
    ensures x + (b + t + a) == (x + b) + t + a && (b + t + a) + x == b + t + (a + x)
  {
  }

  lemma TrimStep(s: string)
    requires s != "" && (s[0] <= ' ' || s[|s| - 1] <= ' ')
    ensures if s[0] <= ' ' then Trim(s) == Trim(s[1..]) else Trim(s) == Trim(s[..|s| - 1])
  {
  }

  lemma TrimNothing(s: string)
    requires s == "" || (s[0] > ' ' && s[|s| - 1] > ' ')
    ensures Trim(s) == s && s == "" + s + "" && IsBlank("")
  {
  }

  lemma Ends(s: string)
    requires s != ""
    ensures s == [s[0]] + s[1..] && s == s[..|s| - 1] + [s[|s| - 1]]
    ensures (s[0] <= ' ' ==> IsBlank([s[0]])) && (s[|s| - 1] <= ' ' ==> IsBlank([s[|s| - 1]]))
  {
  }

  /** What is cut off on both sides is white space, and what remains neither begins nor ends with it. */
  lemma {:induction false} TrimIs(s: string) returns (before: string, after: string)
    ensures s == before + Trim(s) + after && IsBlank(before) && IsBlank(after)
    ensures Trim(s) != "" ==> Trim(s)[0] > ' ' && Trim(s)[|Trim(s)| - 1] > ' '
    decreases |s|
  {
    hide Trim, IsBlank;
    if s != "" && (s[0] <= ' ' || s[|s| - 1] <= ' ') {
      TrimStep(s);
      Ends(s);
      if s[0] <= ' ' {
        var b;
        b, after := TrimIs(s[1..]);
        before := [s[0]] + b;
        BlankJoin([s[0]], b);
        PartsJoin([s[0]], b, Trim(s), after);
      } else {
        var last, a := [s[|s| - 1]], "";
        before, a := TrimIs(s[..|s| - 1]);
        after := a + last;
        BlankJoin(a, last);
        PartsJoin(last, before, Trim(s), a);
      }
    } else {
      before, after := "", "";
      TrimNothing(s);
    }
  }

  /** Where the two digits of byte i stand. What stands between the groups is never looked at. */
  function Place(i: nat): nat { 2 * i + if i < 4 then 0 else if i < 6 then 1 else if i < 8 then 2 else if i < 10 then 3 else 4 }

  /** UUIDGenerator.java line 181. */
  function MapToByte(a: char, b: char): Option<int> {
    if IsHexDigit(a) && IsHexDigit(b) then Some(Cast(16 * IntAt(a) + IntAt(b), BYTES)) else None
  }

  /** The first k bytes of the text, UUIDGenerator.java lines 101-116. */
  function ReadBytes(s: string, k: nat): (r: Option<seq<int>>)
    requires |s| == 36 && k <= 16
    ensures r.Some? ==> |r.value| == k
  {
    if k == 0 then Some([])
    else
      var before, b := ReadBytes(s, k - 1), MapToByte(s[Place(k - 1)], s[Place(k - 1) + 1]);
      if before.Some? && b.Some? then Some(before.value + [b.value]) else None
  }

  /** UUIDGenerator.java line 92: None for its RuntimeException. */
  function ReadId(id: string): Option<seq<int>> {
    var s := Trim(id);
    if |s| == 36 then ReadBytes(s, 16) else None
  }

  /** The 32 characters that are read. */
  function Digits32(s: string): (d: string)
    requires |s| == 36
    ensures |d| == 32
  {
    s[0..8] + s[9..13] + s[14..18] + s[19..23] + s[24..36]
  }

  lemma PlaceIs(s: string, k: nat)
    requires |s| == 36 && k < 16
    ensures Digits32(s)[2 * k] == s[Place(k)] && Digits32(s)[2 * k + 1] == s[Place(k) + 1]
  {
  }

  lemma PairWrites(a: char, b: char)
    requires MapToByte(a, b).Some?
    ensures WritesBytes([a, b], [MapToByte(a, b).value])
  {
    hide Number, CountDigits, ByteNumber, Cast, IntAt, Pow2;
    Pow2Values();
    NoDigits(4);
    AllAreDigits([a, b]);
    NumberGrows([], a, 4);
    NumberGrows([a], b, 4);
    assert [] + [a] == [a] && [a] + [b] == [a, b];
    var x := 16 * IntAt(a) + IntAt(b);
    CastKeepsBits(x, BYTES);
    ByteNumberFirst([Cast(x, BYTES)]);
    assert [Cast(x, BYTES)][1..] == [];
    FloorDiv(x, BYTES, 0, x);
  }

  /** What is read is what the digits write, of either case. */
  lemma {:induction false} ReadWrites(s: string, k: nat)
    requires |s| == 36 && k <= 16
    ensures ReadBytes(s, k).Some? <==> AllHex(Digits32(s)[..2 * k])
    ensures ReadBytes(s, k).Some? ==> WritesBytes(Digits32(s)[..2 * k], ReadBytes(s, k).value)
  {
    hide MapToByte, WritesBytes, Digits32, IntAt;
    var d := Digits32(s);
    if k == 0 {
      NoneWritten();
      assert d[..0] == "";
    } else {
      ReadWrites(s, k - 1);
      PlaceIs(s, k - 1);
      var a, b := d[2 * k - 2], d[2 * k - 1];
      assert d[..2 * k] == d[..2 * k - 2] + [a, b];
      MapReads(a, b);
      assert AllHex(d[..2 * k]) <==> AllHex(d[..2 * k - 2]) && IsHexDigit(a) && IsHexDigit(b);
      if ReadBytes(s, k).Some? {
        PairWrites(a, b);
        WritesJoin(d[..2 * k - 2], ReadBytes(s, k - 1).value, [a, b], [MapToByte(a, b).value]);
      }
    }
  }

  lemma MapReads(a: char, b: char)
    ensures MapToByte(a, b).Some? <==> IsHexDigit(a) && IsHexDigit(b)
  {
  }

  /** Which texts are read, and as what: 36 characters without the white space around them, hexadecimal digits except in
      the four places of the hyphens, where anything may stand. */
  lemma ReadIdWrites(id: string)
    ensures var s := Trim(id); ReadId(id).Some? <==> |s| == 36 && AllHex(Digits32(s))
    ensures ReadId(id).Some? ==> Number(Digits32(Trim(id)), 4) == ByteNumber(ReadId(id).value) && |ReadId(id).value| == 16
  {
    hide Trim, ReadBytes, Digits32, WritesBytes, IntAt;
    var s := Trim(id);
    if |s| == 36 {
      ReadWrites(s, 16);
      assert Digits32(s)[..2 * 16] == Digits32(s);
      if ReadId(id).Some? {
        BothWrite(Digits32(s), ReadId(id).value);
      }
    }
  }

  lemma HexPair(x: int)
    requires Fits(x, BYTES)
    ensures var s := HexText(x, 2); MapToByte(s[0], s[1]) == Some(x) && s[0] > ' ' && s[1] > ' '
  {
    hide HexText, Cast;
    TwoHexDigits(x);
    CharRoundTrip(x / 16 % 16);
    CharRoundTrip(x % 16);
    LowByteOf(x);
    CastOfBits(x, BYTES);
    CastSame(16 * (x / 16 % 16) + x % 16, x, BYTES);
  }

  lemma LowByteOf(x: int)
    ensures Bits(16 * (x / 16 % 16) + x % 16, BYTES) == Bits(x, BYTES)
  {
    FloorDiv(x, 0x100, x / 16 / 16, 16 * (x / 16 % 16) + x % 16);
    FloorDiv(16 * (x / 16 % 16) + x % 16, 0x100, 0, 16 * (x / 16 % 16) + x % 16);
  }

  /** Byte i of the group that begins at byte `from` and at character `at`. */
  lemma GroupByte(c: seq<int>, s: string, from: nat, to: nat, at: nat, i: nat)
    requires |c| == 16 && AreBytes(c) && from <= i < to <= 16 && at + 2 * (to - from) <= |s|
    requires s[at..at + 2 * (to - from)] == NodeText(c[from..to], to - from)
    ensures MapToByte(s[at + 2 * (i - from)], s[at + 2 * (i - from) + 1]) == Some(c[i])
    ensures s[at + 2 * (i - from)] > ' ' && s[at + 2 * (i - from) + 1] > ' '
  {
    hide NodeText, MapToByte, HexText;
    NodeByteAt(c[from..to], to - from, i - from);
    HexPair(c[i]);
    var t, k := s[at..at + 2 * (to - from)], 2 * (i - from);
    assert t[k] == t[k..k + 2][0] && t[k + 1] == t[k..k + 2][1];
  }

  lemma IdParts(c: seq<int>)
    requires |c| == 16
    ensures var s := IdText(c);
      s[0..8] == NodeText(c[0..4], 4) && s[9..13] == NodeText(c[4..6], 2) && s[14..18] == NodeText(c[6..8], 2)
      && s[19..23] == NodeText(c[8..10], 2) && s[24..36] == NodeText(c[10..16], 6)
  {
    hide NodeText;
  }

  lemma BytePlace(c: seq<int>, i: nat)
    requires |c| == 16 && AreBytes(c) && i < 16
    ensures var s, k := IdText(c), Place(i);
      MapToByte(s[k], s[k + 1]) == Some(c[i]) && s[k] > ' ' && s[k + 1] > ' '
  {
    hide IdText, NodeText, MapToByte;
    var s := IdText(c);
    IdParts(c);
    var from := if i < 4 then 0 else if i < 6 then 4 else if i < 8 then 6 else if i < 10 then 8 else 10;
    var to := if i < 4 then 4 else if i < 6 then 6 else if i < 8 then 8 else if i < 10 then 10 else 16;
    GroupByte(c, s, from, to, Place(from), i);
  }

  lemma {:induction false} BytesAreRead(c: seq<int>, k: nat)
    requires |c| == 16 && AreBytes(c) && k <= 16
    ensures ReadBytes(IdText(c), k) == Some(c[..k])
  {
    hide IdText, MapToByte;
    if k > 0 {
      BytesAreRead(c, k - 1);
      BytePlace(c, k - 1);
      assert c[..k] == c[..k - 1] + [c[k - 1]];
    }
  }

  /** Reading the text restores all 16 bytes. */
  lemma IdRoundTrip(c: seq<int>)
    requires |c| == 16 && AreBytes(c)
    ensures ReadId(IdText(c)) == Some(c)
  {
    hide IdText, ReadBytes, MapToByte;
    BytePlace(c, 0);
    BytePlace(c, 15);
    BytesAreRead(c, 16);
    assert Trim(IdText(c)) == IdText(c);
    assert c[..16] == c;
  }
}
