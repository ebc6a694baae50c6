/** The text form of a UUID and the constructor that reads it. */
module UuidText {
  import opened Arith
  import opened ByteNumbers
  import opened HexTexts
  import opened JavaNumbers
  import opened JsNumbers
  import opened Options
  import opened Radix
  import opened Uuids

  /** The text of the bytes in node[..k]. */
  function NodeText(node: seq<int>, k: nat): (s: string)
    requires k <= |node|
    ensures |s| == 2 * k
  {
    if k == 0 then [] else NodeText(node, k - 1) + HexText(node[k - 1], 2)
  }

  /** UUID.java lines 278-300. */
  function TextOf(f: Fields): (s: string)
    requires f.Valid()
    ensures |s| == 36
  {
    HexText(f.timeLow, 8) + "-" + HexText(f.timeMid, 4) + "-" + HexText(f.timeHiAndVersion, 4) + "-"
    + HexText(f.clockSeqHi, 2) + HexText(f.clockSeqLow, 2) + "-" + NodeText(f.node, 6)
  }

  /** Java's Integer.parseInt(s, 16): None for its NumberFormatException. */
  function ParseInt(s: string): Option<int> {
    if s == [] then None
    else
      var t := if s[0] == '-' || s[0] == '+' then s[1..] else s;
      if t == [] || !AllHex(t) then None
      else
        var v := if s[0] == '-' then -Number(t, 4) else Number(t, 4);
        if Fits(v, INTS) then Some(v) else None
  }

  /** UUID.java line 267. */
  function ParseHex(s: string): Option<int>
    requires s != []
  {
    if s[0] == '-' then None else ParseInt(s)
  }

  /** A field of a type with m values. */
  function ParseField(s: string, m: int): (v: Option<int>)
    requires s != [] && m > 0 && m % 2 == 0
    ensures v.Some? ==> Fits(v.value, m)
  {
    var v := ParseHex(s);
    if v.Some? then Some(Cast(v.value, m)) else None
  }

  /** The k first bytes of the node, UUID.java lines 132-134. */
  function ParseNode(s: string, k: nat): (r: Option<seq<int>>)
    requires |s| == 36 && k <= 6
    ensures r.Some? ==> |r.value| == k
  {
    if k == 0 then Some([])
    else
      var before, b := ParseNode(s, k - 1), ParseField(s[2 * k + 22..2 * k + 24], BYTES);
      if before.Some? && b.Some? then Some(before.value + [b.value]) else None
  }

  /** UUID.java lines 116-135: None for any of its exceptions. */
  function ParseFields(s: string): Option<Fields> {
    if |s| != 36 || s[8] != '-' || s[13] != '-' || s[18] != '-' || s[23] != '-' then None
    else
      var low, mid, hi := ParseField(s[0..8], INTS), ParseField(s[9..13], SHORTS), ParseField(s[14..18], SHORTS);
      var seqHi, seqLow := ParseField(s[19..21], BYTES), ParseField(s[21..23], BYTES);
      var node := ParseNode(s, 6);
      if low.Some? && mid.Some? && hi.Some? && seqHi.Some? && seqLow.Some? && node.Some? then
        Some(Fields(low.value, mid.value, hi.value, seqHi.value, seqLow.value, node.value))
      else None
  }

  /** The digits of s are those of the bytes b. */
  ghost predicate WritesBytes(s: string, b: seq<int>) { CountDigits(s) == 2 * |b| && Number(s, 4) == ByteNumber(b) }

  lemma WritesJoin(s: string, b: seq<int>, t: string, c: seq<int>)
    requires WritesBytes(s, b) && WritesBytes(t, c)
    ensures WritesBytes(s + t, b + c)
  {
    hide Number, CountDigits, ByteNumber, Pow2;
    NumberJoin(s, t, 4);
    ByteNumberJoin(b, c);
    assert 4 * (2 * |c|) == 8 * |c|;
  }

  lemma HexWrites(x: int, k: nat)
    ensures WritesBytes(HexText(x, 2 * k), IntBytes(x, k))
  {
    hide Number, CountDigits, ByteNumber, Pow2, HexText, IntBytes;
    HexReads(x, 2 * k);
    HexLower(x, 2 * k);
    BytesRead(x, k);
    assert 4 * (2 * k) == 8 * k;
  }

  lemma HyphenWrites()
    ensures WritesBytes("-", [])
  {
    hide Pow2;
    assert "-"[1..] == "";
  }

  lemma OneByte(x: int)
    requires Fits(x, BYTES)
    ensures IntBytes(x, 1) == [x]
  {
    hide Cast, IntBytes, ByteNumber;
    CastOfBits(x, BYTES);
    NoBytes(x / 0x100);
    BytesLast(x, 0);
    assert [] + [x] == [x];
  }

  lemma ByteWrites(x: int)
    requires Fits(x, BYTES)
    ensures WritesBytes(HexText(x, 2), [x])
  {
    hide WritesBytes, HexText, IntBytes;
    HexWrites(x, 1);
    OneByte(x);
    assert 2 * 1 == 2;
  }

  lemma {:induction false} NodeWrites(node: seq<int>, k: nat)
    requires AreBytes(node) && k <= |node|
    ensures WritesBytes(NodeText(node, k), node[..k])
  {
    hide HexText;
    if k == 0 {
      NoDigits(4);
      ByteNumberFirst([]);
    } else {
      hide WritesBytes;
      NodeWrites(node, k - 1);
      ByteWrites(node[k - 1]);
      WritesJoin(NodeText(node, k - 1), node[..k - 1], HexText(node[k - 1], 2), [node[k - 1]]);
      assert node[..k] == node[..k - 1] + [node[k - 1]];
    }
  }

  /** The text that section 3 of RFC 4122 asks for: the 16 bytes in order, two lower-case digits each, and hyphens after
      bytes 4, 6, 8 and 10. */
  ghost predicate IsUuidText(s: string, b: seq<int>) {
    && |s| == 36 && s[8] == '-' && s[13] == '-' && s[18] == '-' && s[23] == '-'
    && (forall i :: 0 <= i < 36 && i != 8 && i != 13 && i != 18 && i != 23 ==> IsLowerDigit(s[i], 4))
    && Number(s, 4) == ByteNumber(b)
  }

  lemma {:induction false} NodeLower(node: seq<int>, k: nat)
    requires k <= |node|
    ensures forall i :: 0 <= i < 2 * k ==> IsLowerDigit(NodeText(node, k)[i], 4)
  {
    hide HexText, IsLowerDigit;
    if k > 0 {
      NodeLower(node, k - 1);
      HexLower(node[k - 1], 2);
    }
  }

  /** The parts of a text, with hyphens between them. */
  lemma PartsWrite(low: string, a: seq<int>, mid: string, b: seq<int>, hi: string, c: seq<int>, last: string, d: seq<int>,
      node: string, e: seq<int>)
    requires WritesBytes(low, a) && WritesBytes(mid, b) && WritesBytes(hi, c) && WritesBytes(last, d) && WritesBytes(node, e)
    ensures WritesBytes(low + "-" + mid + "-" + hi + "-" + last + "-" + node, a + b + c + d + e)
  {
    hide WritesBytes;
    HyphenWrites();
    WritesJoin(low, a, "-", []);
    WritesJoin(low + "-", a + [], mid, b);
    WritesJoin(low + "-" + mid, a + [] + b, "-", []);
    WritesJoin(low + "-" + mid + "-", a + [] + b + [], hi, c);
    WritesJoin(low + "-" + mid + "-" + hi, a + [] + b + [] + c, "-", []);
    WritesJoin(low + "-" + mid + "-" + hi + "-", a + [] + b + [] + c + [], last, d);
    WritesJoin(low + "-" + mid + "-" + hi + "-" + last, a + [] + b + [] + c + [] + d, "-", []);
    WritesJoin(low + "-" + mid + "-" + hi + "-" + last + "-", a + [] + b + [] + c + [] + d + [], node, e);
    assert a + [] + b + [] + c + [] + d + [] + e == a + b + c + d + e;
  }

  lemma TextDigits(f: Fields)
    requires f.Valid()
    ensures WritesBytes(TextOf(f), BytesOf(f))
  {
    hide WritesBytes, HexText, NodeText, IntBytes, Cast;
    HexWrites(f.timeLow, 4);
    HexWrites(f.timeMid, 2);
    HexWrites(f.timeHiAndVersion, 2);
    ByteWrites(f.clockSeqHi);
    ByteWrites(f.clockSeqLow);
    NodeWrites(f.node, 6);
    assert f.node[..6] == f.node;
    var sh, sl := HexText(f.clockSeqHi, 2), HexText(f.clockSeqLow, 2);
    WritesJoin(sh, [f.clockSeqHi], sl, [f.clockSeqLow]);
    PartsWrite(HexText(f.timeLow, 8), IntBytes(f.timeLow, 4), HexText(f.timeMid, 4), IntBytes(f.timeMid, 2),
      HexText(f.timeHiAndVersion, 4), IntBytes(f.timeHiAndVersion, 2), sh + sl, [f.clockSeqHi] + [f.clockSeqLow],
      NodeText(f.node, 6), f.node);
    assert [f.clockSeqHi] + [f.clockSeqLow] == [f.clockSeqHi, f.clockSeqLow];
    var text := HexText(f.timeLow, 8) + "-" + HexText(f.timeMid, 4) + "-" + HexText(f.timeHiAndVersion, 4) + "-";
    assert text + (sh + sl) + "-" + NodeText(f.node, 6) == text + sh + sl + "-" + NodeText(f.node, 6);
  }

  lemma TextIs(f: Fields)
    requires f.Valid()
    ensures IsUuidText(TextOf(f), BytesOf(f))
  {
    TextDigits(f);
    hide IsLowerDigit, HexText, NodeText, Number, ByteNumber, CountDigits, BytesOf;
    HexLower(f.timeLow, 8);
    HexLower(f.timeMid, 4);
    HexLower(f.timeHiAndVersion, 4);
    HexLower(f.clockSeqHi, 2);
    HexLower(f.clockSeqLow, 2);
    NodeLower(f.node, 6);
  }

  /** A hexadecimal digit everywhere, or a plus sign and then a hexadecimal digit everywhere. */
  predicate IsField(s: string) {
    s != [] && forall i :: 0 <= i < |s| ==> IsHexDigit(s[i]) || (i == 0 && s[i] == '+' && |s| > 1)
  }

  /** What a field may be: at most eight such characters, the first of eight below 8. A minus sign is refused, although
      Integer.parseInt takes one. */
  lemma FieldAccepts(s: string)
    requires 0 < |s| <= 8
    ensures ParseHex(s).Some? <==> IsField(s) && (|s| == 8 ==> IntAt(s[0]) < 8)
    ensures ParseHex(s).Some? ==> ParseHex(s).value == Number(if s[0] == '+' then s[1..] else s, 4)
  {
    hide Pow2, Number, IntAt;
    SignsAreNoDigits();
    if s[0] == '+' {
      var t := s[1..];
      assert forall i :: 0 <= i < |t| ==> t[i] == s[i + 1];
      assert forall i :: 0 < i < |s| ==> s[i] == t[i - 1];
      if AllHex(t) {
        ShortNumber(t);
      }
    } else if s[0] != '-' && AllHex(s) {
      if |s| < 8 {
        ShortNumber(s);
      } else {
        EightDigits(s);
      }
    }
  }

  lemma SignsAreNoDigits()
    ensures !IsHexDigit('-') && !IsHexDigit('+') && IntAt('+') < 8
  {
  }

  /** Less than eight digits write less than 2^28. */
  lemma {:induction false} ShortNumber(t: string)
    requires AllHex(t) && |t| < 8
    ensures 0 <= Number(t, 4) < Pow2(4 * |t|) <= 0x1000_0000
    decreases |t|
  {
    hide Number, IntAt, Pow2;
    Pow2Mono(4 * |t|, 28);
    Pow2Values();
    if t == [] {
      EmptyNumber();
    } else {
      ShortNumber(t[1..]);
      NumberCons(t, 4);
      assert 4 * (|t| - 1) == 4 * |t| - 4;
      Pow2Add(4, 4 * |t| - 4);
      OneMoreDigit(IntAt(t[0]), Pow2(4 * |t| - 4), Number(t[1..], 4));
    }
  }

  lemma EmptyNumber()
    ensures Number([], 4) == 0
  {
  }

  lemma OneMoreDigit(x: int, p: int, low: int)
    requires 0 <= x < 16 && 0 <= low < p
    ensures 0 <= x * p + low < 16 * p
  {
    MulMono(p, 0, x);
    MulMono(p, x, 15);
  }

  lemma EightDigits(s: string)
    requires AllHex(s) && |s| == 8
    ensures 0 <= Number(s, 4) && (Number(s, 4) < TWO31 <==> IntAt(s[0]) < 8)
  {
    hide Number, IntAt, Pow2;
    NumberCons(s, 4);
    ShortNumber(s[1..]);
    Pow2Values();
  }

  /** A field without a plus sign writes the bytes that the constructor makes of it. */
  lemma FieldWrites(s: string, k: nat, m: int)
    requires 0 < k && |s| == 2 * k <= 8 && '+' !in s && m > 0 && m % 2 == 0 && m == Pow2(8 * k) && ParseField(s, m).Some?
    ensures WritesBytes(s, IntBytes(ParseField(s, m).value, k))
  {
    hide Number, CountDigits, ByteNumber, Pow2, IntBytes, Cast, ParseHex, IntAt;
    FieldAccepts(s);
    assert s[0] in s && forall i :: 0 <= i < |s| ==> s[i] in s;
    var n := ParseHex(s).value;
    AllAreDigits(s);
    NumberBelow(s);
    CastKeepsBits(n, m);
    BytesRead(Cast(n, m), k);
    FloorDiv(n, m, 0, n);
    assert 4 * (2 * k) == 8 * k;
  }

  lemma NumberBelow(s: string)
    requires AllHex(s) && |s| <= 8
    ensures 0 <= Number(s, 4) < Pow2(4 * |s|)
  {
    hide Number, IntAt, Pow2;
    if |s| < 8 {
      ShortNumber(s);
    } else {
      NumberCons(s, 4);
      ShortNumber(s[1..]);
      Pow2Add(4, 28);
      Pow2Values();
      OneMoreDigit(IntAt(s[0]), Pow2(28), Number(s[1..], 4));
    }
  }

  lemma ByteFieldWrites(s: string, i: nat)
    requires i + 2 <= |s| && '+' !in s && ParseField(s[i..i + 2], BYTES).Some?
    ensures WritesBytes(s[i..i + 2], [ParseField(s[i..i + 2], BYTES).value])
  {
    hide ParseField, WritesBytes, Pow2, IntBytes;
    Pow2Values();
    var t := s[i..i + 2];
    assert forall k :: 0 <= k < 2 ==> t[k] == s[i + k] && s[i + k] in s;
    FieldWrites(t, 1, BYTES);
    OneByte(ParseField(t, BYTES).value);
  }

  lemma {:induction false} NodeFieldWrites(s: string, k: nat)
    requires |s| == 36 && k <= 6 && '+' !in s && ParseNode(s, k).Some?
    ensures WritesBytes(s[24..24 + 2 * k], ParseNode(s, k).value)
  {
    hide ParseField, WritesBytes;
    if k == 0 {
      NoneWritten();
      assert s[24..24] == "";
    } else {
      NodeFieldWrites(s, k - 1);
      ByteFieldWrites(s, 2 * k + 22);
      WritesJoin(s[24..22 + 2 * k], ParseNode(s, k - 1).value, s[2 * k + 22..2 * k + 24],
        [ParseField(s[2 * k + 22..2 * k + 24], BYTES).value]);
      assert s[24..22 + 2 * k] + s[2 * k + 22..2 * k + 24] == s[24..24 + 2 * k];
    }
  }

  lemma NoneWritten()
    ensures WritesBytes("", [])
  {
  }

  /** A text that the constructor takes writes the bytes of the UUID in its digits, of either case, unless it contains a
      plus sign. */
  lemma FieldsWrite(s: string)
    requires ParseFields(s).Some? && '+' !in s
    ensures Number(s, 4) == ByteNumber(BytesOf(ParseFields(s).value))
  {
    hide ParseField, ParseNode, WritesBytes, Pow2, IntBytes;
    Pow2Values();
    assert forall i :: 0 <= i < 36 ==> s[i] in s;
    var f := ParseFields(s).value;
    FieldWrites(s[0..8], 4, INTS);
    FieldWrites(s[9..13], 2, SHORTS);
    FieldWrites(s[14..18], 2, SHORTS);
    ByteFieldWrites(s, 19);
    ByteFieldWrites(s, 21);
    NodeFieldWrites(s, 6);
    WritesJoin(s[19..21], [f.clockSeqHi], s[21..23], [f.clockSeqLow]);
    assert s[19..21] + s[21..23] == s[19..23] && [f.clockSeqHi] + [f.clockSeqLow] == [f.clockSeqHi, f.clockSeqLow];
    PartsWrite(s[0..8], IntBytes(f.timeLow, 4), s[9..13], IntBytes(f.timeMid, 2), s[14..18], IntBytes(f.timeHiAndVersion, 2),
      s[19..23], [f.clockSeqHi, f.clockSeqLow], s[24..36], f.node);
    assert s == s[0..8] + "-" + s[9..13] + "-" + s[14..18] + "-" + s[19..23] + "-" + s[24..36];
    BothWrite(s, BytesOf(f));
  }

  lemma BothWrite(s: string, b: seq<int>)
    requires WritesBytes(s, b)
    ensures Number(s, 4) == ByteNumber(b)
  {
  }

  /** Where the hyphens of a UUID stand, and where its fields begin. */
  predicate IsHyphen(i: int) { i == 8 || i == 13 || i == 18 || i == 23 }

  predicate IsStart(i: int) { i == 0 || i == 9 || i == 14 || i == 19 || i == 21 || (24 <= i < 36 && i % 2 == 0) }

  /** The characters lo, ..., hi - 1 are those of a field. */
  predicate CharsAt(s: string, lo: nat, hi: nat)
    requires hi <= |s|
  {
    forall i :: lo <= i < hi ==> IsHexDigit(s[i]) || (i == lo && s[i] == '+')
  }

  lemma FieldAt(s: string, lo: nat, hi: nat, m: int)
    requires lo + 2 <= hi <= lo + 8 && hi <= |s| && m > 0 && m % 2 == 0
    ensures ParseField(s[lo..hi], m).Some? <==> CharsAt(s, lo, hi) && (hi == lo + 8 ==> IntAt(s[lo]) < 8)
  {
    hide ParseHex, IntAt, Cast;
    var f := s[lo..hi];
    FieldAccepts(f);
    assert forall i :: 0 <= i < |f| ==> f[i] == s[lo + i];
    assert forall i :: lo <= i < hi ==> s[i] == f[i - lo];
  }

  lemma {:induction false} NodeAccepts(s: string, k: nat)
    requires |s| == 36 && k <= 6
    ensures ParseNode(s, k).Some? <==> forall j :: 0 <= j < k ==> CharsAt(s, 2 * j + 24, 2 * j + 26)
  {
    hide ParseField, CharsAt;
    if k > 0 {
      NodeAccepts(s, k - 1);
      FieldAt(s, 2 * k + 22, 2 * k + 24, BYTES);
    }
  }

  /** Character i of a text that the constructor takes. */
  predicate FitsAt(s: string, i: int)
    requires 0 <= i < |s|
  {
    if IsHyphen(i) then s[i] == '-' else IsHexDigit(s[i]) || (IsStart(i) && s[i] == '+')
  }

  /** Characters that fit, field by field. */
  lemma FieldsFit(s: string, lo: nat, hi: nat)
    requires |s| == 36 && lo < hi <= 36 && IsStart(lo) && forall i :: lo <= i < hi ==> !IsHyphen(i) && (IsStart(i) ==> i == lo)
    ensures CharsAt(s, lo, hi) <==> forall i :: lo <= i < hi ==> FitsAt(s, i)
  {
    hide IsHexDigit, IsHyphen, IsStart;
    forall i | lo <= i < hi
      ensures FitsAt(s, i) <==> IsHexDigit(s[i]) || (i == lo && s[i] == '+')
    {
      assert !IsHyphen(i) && (IsStart(i) ==> i == lo);
    }
    if forall i :: lo <= i < hi ==> FitsAt(s, i) {
      forall i | lo <= i < hi
        ensures IsHexDigit(s[i]) || (i == lo && s[i] == '+')
      {
        assert FitsAt(s, i);
      }
    }
  }

  lemma NodeFits(s: string)
    requires |s| == 36
    ensures (forall j :: 0 <= j < 6 ==> CharsAt(s, 2 * j + 24, 2 * j + 26)) <==> forall i :: 24 <= i < 36 ==> FitsAt(s, i)
  {
    hide IsHexDigit, CharsAt, FitsAt;
    forall j | 0 <= j < 6
      ensures CharsAt(s, 2 * j + 24, 2 * j + 26) <==> FitsAt(s, 2 * j + 24) && FitsAt(s, 2 * j + 25)
    {
      FieldsFit(s, 2 * j + 24, 2 * j + 26);
    }
    if forall j :: 0 <= j < 6 ==> CharsAt(s, 2 * j + 24, 2 * j + 26) {
      forall i | 24 <= i < 36
        ensures FitsAt(s, i)
      {
        var j := i / 2 - 12;
        assert CharsAt(s, 2 * j + 24, 2 * j + 26);
      }
    }
  }

  /** The texts that the constructor takes: 36 characters, hyphens in their places, and everywhere else a hexadecimal
      digit, or a plus sign at the start of a field; and the first digit of all is below 8. */
  lemma FieldsAccept(s: string)
    ensures ParseFields(s).Some? <==> |s| == 36 && (forall i :: 0 <= i < 36 ==> FitsAt(s, i)) && IntAt(s[0]) < 8
  {
    hide ParseField, ParseNode, CharsAt, IntAt, FitsAt;
    if |s| == 36 {
      FieldAt(s, 0, 8, INTS);
      FieldAt(s, 9, 13, SHORTS);
      FieldAt(s, 14, 18, SHORTS);
      FieldAt(s, 19, 21, BYTES);
      FieldAt(s, 21, 23, BYTES);
      NodeAccepts(s, 6);
      FieldsFit(s, 0, 8);
      FieldsFit(s, 9, 13);
      FieldsFit(s, 14, 18);
      FieldsFit(s, 19, 21);
      FieldsFit(s, 21, 23);
      NodeFits(s);
      HyphensFit(s);
    }
  }

  lemma HyphensFit(s: string)
    requires |s| == 36
    ensures (FitsAt(s, 8) <==> s[8] == '-') && (FitsAt(s, 13) <==> s[13] == '-')
    ensures (FitsAt(s, 18) <==> s[18] == '-') && (FitsAt(s, 23) <==> s[23] == '-')
  {
  }

  /** Such a text, though the documentation asks for hexadecimal digits. */
  lemma PlusAccepted()
    ensures ParseFields("+0000000-+000-+000-+0+0-+0+0+0+0+0+0").Some?
  {
    hide ParseFields;
    FieldsAccept("+0000000-+000-+000-+0+0-+0+0+0+0+0+0");
  }

  /** A field is read back unless its digits write a number of 2^31 or more. */
  lemma FieldReads(x: int, k: nat, m: int)
    requires k > 0 && m > 0 && m % 2 == 0 && Fits(x, m) && m == Pow2(4 * k)
    ensures ParseField(HexText(x, k), m) == if Bits(x, m) < TWO31 then Some(x) else None
  {
    hide Pow2, Number, HexText, Cast;
    HexReads(x, k);
    CastOfBits(x, m);
    var s := HexText(x, k);
    assert IsHexDigit(s[0]) && s[0] != '-' && s[0] != '+';
    assert ParseHex(s) == if Bits(x, m) < TWO31 then Some(Bits(x, m)) else None;
  }

  /** Byte i of the node stands at index 2 * i of its text. */
  lemma {:induction false} NodeByteAt(node: seq<int>, k: nat, i: nat)
    requires i < k <= |node|
    ensures NodeText(node, k)[2 * i..2 * i + 2] == HexText(node[i], 2)
  {
    hide HexText;
    if i < k - 1 {
      NodeByteAt(node, k - 1, i);
    }
  }

  lemma {:induction false} NodeReads(s: string, node: seq<int>, k: nat)
    requires |s| == 36 && IsNode(node) && s[24..] == NodeText(node, 6) && k <= 6
    ensures ParseNode(s, k) == Some(node[..k])
  {
    hide HexText, NodeText, ParseField;
    if k > 0 {
      NodeReads(s, node, k - 1);
      NodeByteAt(node, 6, k - 1);
      assert s[2 * k + 22..2 * k + 24] == s[24..][2 * k - 2..2 * k];
      Pow2Values();
      FieldReads(node[k - 1], 2, BYTES);
      assert node[..k] == node[..k - 1] + [node[k - 1]];
    }
  }

  /** Reading the text restores every field, provided time_low does not have its top bit set. With that bit the
      constructor throws, for Integer.parseInt refuses eight digits that write 2^31 or more. */
  lemma TextRoundTrip(f: Fields)
    requires f.Valid()
    ensures ParseFields(TextOf(f)) == if f.timeLow >= 0 then Some(f) else None
  {
    hide HexText, NodeText, ParseField, ParseNode, Cast, Pow2;
    var s := TextOf(f);
    assert s[0..8] == HexText(f.timeLow, 8) && s[9..13] == HexText(f.timeMid, 4) && s[14..18] == HexText(f.timeHiAndVersion, 4);
    assert s[19..21] == HexText(f.clockSeqHi, 2) && s[21..23] == HexText(f.clockSeqLow, 2) && s[24..] == NodeText(f.node, 6);
    Pow2Values();
    FieldReads(f.timeLow, 8, INTS);
    FieldReads(f.timeMid, 4, SHORTS);
    FieldReads(f.timeHiAndVersion, 4, SHORTS);
    FieldReads(f.clockSeqHi, 2, BYTES);
    FieldReads(f.clockSeqLow, 2, BYTES);
    NodeReads(s, f.node, 6);
    CastOfBits(f.timeLow, INTS);
    assert f.node[..6] == f.node;
  }

  /** A UUID that the generator can issue and whose text its own class does not read. */
  lemma TextRefused()
    ensures var f := Fields(-0x8000_0000, 0, 0x1000, -0x80, 0, [0, 0, 0, 0, 0, 0]); f.Valid() && ParseFields(TextOf(f)) == None
  {
    hide ParseFields, TextOf;
    TextRoundTrip(Fields(-0x8000_0000, 0, 0x1000, -0x80, 0, [0, 0, 0, 0, 0, 0]));
  }

  /** Different values have different texts. */
  lemma TextDetermines(f: Fields, g: Fields)
    requires f.Valid() && g.Valid() && TextOf(f) == TextOf(g)
    ensures f == g
  {
    hide HexText, NodeText, Pow2;
    Pow2Values();
    var s, t := TextOf(f), TextOf(g);
    SameField(f.timeLow, g.timeLow, 8, INTS, s[0..8], t[0..8]);
    SameField(f.timeMid, g.timeMid, 4, SHORTS, s[9..13], t[9..13]);
    SameField(f.timeHiAndVersion, g.timeHiAndVersion, 4, SHORTS, s[14..18], t[14..18]);
    SameField(f.clockSeqHi, g.clockSeqHi, 2, BYTES, s[19..21], t[19..21]);
    SameField(f.clockSeqLow, g.clockSeqLow, 2, BYTES, s[21..23], t[21..23]);
    NodeReads(s, f.node, 6);
    NodeReads(t, g.node, 6);
    assert f.node[..6] == f.node && g.node[..6] == g.node;
  }

  lemma SameField(x: int, y: int, k: nat, m: int, s: string, t: string)
    requires m > 0 && m % 2 == 0 && Fits(x, m) && Fits(y, m) && m == Pow2(4 * k)
    requires s == HexText(x, k) && t == HexText(y, k) && s == t
    ensures x == y
  {
    hide Pow2, Number, HexText, Cast;
    HexReads(x, k);
    HexReads(y, k);
    CastOfBits(x, m);
    CastOfBits(y, m);
  }
}
