/** The UUID object. Its value never changes; its text and hash code are computed once and kept. */
module UuidObjects {
  import opened Arith
  import opened ByteNumbers
  import opened HexTexts
  import opened JavaNumbers
  import opened JsNumbers
  import opened Modular
  import opened Options
  import opened Radix
  import opened Uuids
  import opened UuidText

  /** Java's String.hashCode. */
  function StringHash(s: string): int {
    if s == [] then 0 else Cast(31 * StringHash(s[..|s| - 1]) + s[|s| - 1] as int, INTS)
  }

  /** s[0]*31^(n-1) + s[1]*31^(n-2) + ... + s[n-1], as the documentation of String.hashCode has it. */
  function Polynomial(s: string): int {
    if s == [] then 0 else s[0] as int * IntPow(31, |s| - 1) + Polynomial(s[1..])
  }

  lemma {:induction false} PolynomialLast(s: string, c: char)
    ensures Polynomial(s + [c]) == 31 * Polynomial(s) + c as int
  {
    hide IntPow;
    if s == [] {
      assert [] + [c] == [c] && [c][1..] == [];
      PowerStep(0);
    } else {
      assert (s + [c])[1..] == s[1..] + [c];
      PolynomialLast(s[1..], c);
      PowerStep(|s| - 1);
      MulAssoc(31, s[0] as int, IntPow(31, |s| - 1));
      MulAssoc(s[0] as int, 31, IntPow(31, |s| - 1));
    }
  }

  lemma PowerStep(n: nat)
    ensures IntPow(31, n + 1) == 31 * IntPow(31, n) && IntPow(31, 0) == 1
  {
  }

  /** The hash code of a string is that sum, with Java's wrap-around. */
  lemma {:induction false} StringHashIs(s: string)
    ensures StringHash(s) == Cast(Polynomial(s), INTS)
  {
    hide Cast, Polynomial;
    if s == [] {
      CastOfBits(0, INTS);
      NoPolynomial();
    } else {
      var before, c := s[..|s| - 1], s[|s| - 1];
      StringHashIs(before);
      assert s == before + [c];
      PolynomialLast(before, c);
      WrappedStep(Polynomial(before), c as int);
    }
  }

  lemma NoPolynomial()
    ensures Polynomial([]) == 0
  {
  }

  lemma WrappedStep(x: int, c: int)
    ensures Cast(31 * Cast(x, INTS) + c, INTS) == Cast(31 * x + c, INTS)
  {
    CastKeepsBits(x, INTS);
    hide Cast;
    var d := Cast(x, INTS) / INTS - x / INTS;
    assert Cast(x, INTS) == x + INTS * d;
    FloorDiv(31 * Cast(x, INTS) + c, INTS, (31 * x + c) / INTS + 31 * d, (31 * x + c) % INTS);
    CastSame(31 * Cast(x, INTS) + c, 31 * x + c, INTS);
  }

  /** The hash code of a UUID, where 0 means not computed yet. */
  function HashOf(f: Fields): (h: int)
    requires f.Valid()
    ensures h != 0
  {
    var h := StringHash(TextOf(f));
    if h == 0 then -1 else h
  }

  lemma HashIs(f: Fields)
    requires f.Valid()
    ensures var h := Polynomial(TextOf(f)); HashOf(f) == if h % INTS == 0 then -1 else Cast(h, INTS)
  {
    hide TextOf, Polynomial, StringHash;
    StringHashIs(TextOf(f));
    CastKeepsBits(Polynomial(TextOf(f)), INTS);
    CastOfBits(Cast(Polynomial(TextOf(f)), INTS), INTS);
  }

  /** Java's Long.toHexString for a nonnegative number. */
  function ToHexString(x: nat): string { if x < 0x10 then [Int2Char(x)] else ToHexString(x / 0x10) + [Int2Char(x % 0x10)] }

  function Zeros(k: nat): string { if k == 0 then "" else Zeros(k - 1) + "0" }

  lemma {:induction false} ZerosAre(k: nat)
    ensures Zeros(k) == HexText(0, k)
  {
    if k > 0 {
      ZerosAre(k - 1);
    }
  }

  /** Padding with zeros gives all k digits. */
  lemma {:induction false} PaddedHex(x: nat, k: nat)
    requires k > 0 && x < Pow2(4 * k)
    ensures |ToHexString(x)| <= k && Zeros(k - |ToHexString(x)|) + ToHexString(x) == HexText(x, k)
  {
    if x < 0x10 {
      ZerosAre(k - 1);
      assert HexText(x, k) == HexText(0, k - 1) + [Int2Char(x)];
    } else {
      Pow2Values();
      Pow2Add(4 * (k - 1), 4);
      assert 4 * (k - 1) + 4 == 4 * k;
      hide Pow2;
      assert k > 1;
      PaddedHex(x / 0x10, k - 1);
      var z, h := Zeros(k - |ToHexString(x)|), ToHexString(x / 0x10);
      assert z + (h + [Int2Char(x % 0x10)]) == (z + h) + [Int2Char(x % 0x10)];
    }
  }

  /** UUID.java line 250: the mask keeps the low digits, the loop adds the leading zeros. */
  method AppendHex(sb: string, num: int, digits: nat) returns (r: string)
    requires 0 < digits < 16
    ensures r == sb + HexText(num, digits)
  {
    hide HexText, Pow2, ToHexString, Zeros;
    HexOfLowBits(num, digits);
    var masked := num % Pow2(4 * digits);
    PaddedHex(masked, digits);
    var str := ToHexString(masked);
    var len := |str|;
    r := sb;
    NoZeros();
    while len < digits
      invariant |str| <= len <= digits && r == sb + Zeros(len - |str|)
    {
      OneMoreZero(len - |str|);
      r := r + "0";
      len := len + 1;
    }
    r := r + str;
  }

  lemma NoZeros()
    ensures Zeros(0) == ""
  {
  }

  lemma OneMoreZero(k: nat)
    ensures Zeros(k + 1) == Zeros(k) + "0"
  {
  }

  class UUID {
    const timeLow: int
    const timeMid: int
    const timeHiAndVersion: int
    const clockSeqHi: int
    const clockSeqLow: int
    const node: array<int>
    var hashCode: int
    var stringRep: Option<string>

    ghost function Value(): Fields
      reads node
    {
      Fields(timeLow, timeMid, timeHiAndVersion, clockSeqHi, clockSeqLow, node[..])
    }

    /** What is cached is right. */
    ghost predicate Valid()
      reads this, node
    {
      && Value().Valid()
      && (hashCode != 0 ==> hashCode == HashOf(Value()))
      && (stringRep.Some? ==> stringRep.value == TextOf(Value()))
    }

    /** UUID.java lines 99-106. The bytes are copied, so that writing to the caller's array later changes nothing. */
    constructor (timeLow: int, timeMid: int, timeHiAndVersion: int, clockSeqLow: int, clockSeqHi: int, bytes: array<int>)
      requires Fields(timeLow, timeMid, timeHiAndVersion, clockSeqHi, clockSeqLow, bytes[..]).Valid()
      ensures Valid() && fresh(node)
      ensures Value() == Fields(timeLow, timeMid, timeHiAndVersion, clockSeqHi, clockSeqLow, bytes[..])
    {
      this.timeLow := timeLow;
      this.timeMid := timeMid;
      this.timeHiAndVersion := timeHiAndVersion;
      this.clockSeqLow := clockSeqLow;
      this.clockSeqHi := clockSeqHi;
      hashCode := 0;
      stringRep := None;
      var copy := new int[6];
      node := copy;
      new;
      forall i | 0 <= i < 6 {
        node[i] := bytes[i];
      }
      assert node[..] == bytes[..];
    }

    /** UUID.java line 89: null for its exceptions. */
    static method Create(timeLow: int, timeMid: int, timeHiAndVersion: int, clockSeqLow: int, clockSeqHi: int, bytes: array?<int>)
      returns (u: UUID?)
      requires Fits(timeLow, INTS) && Fits(timeMid, SHORTS) && Fits(timeHiAndVersion, SHORTS)
      requires Fits(clockSeqHi, BYTES) && Fits(clockSeqLow, BYTES) && (bytes != null ==> AreBytes(bytes[..]))
      ensures u == null <==> bytes == null || bytes.Length != 6
      ensures u != null ==> fresh(u) && fresh(u.node) && u.Valid()
      ensures u != null ==> u.Value() == Fields(timeLow, timeMid, timeHiAndVersion, clockSeqHi, clockSeqLow, bytes[..])
    {
      if bytes == null || bytes.Length != 6 {
        return null;
      }
      u := new UUID(timeLow, timeMid, timeHiAndVersion, clockSeqLow, clockSeqHi, bytes);
    }

    /** UUID.java line 278. */
    method ToString() returns (s: string)
      requires Valid()
      modifies `stringRep
      ensures Valid() && s == TextOf(Value())
    {
      hide HexText, HashOf;
      if stringRep.None? {
        var sb := AppendHex("", timeLow, 8);
        sb := sb + "-";
        sb := AppendHex(sb, timeMid, 4);
        sb := sb + "-";
        sb := AppendHex(sb, timeHiAndVersion, 4);
        sb := sb + "-";
        sb := AppendHex(sb, clockSeqHi, 2);
        sb := AppendHex(sb, clockSeqLow, 2);
        sb := sb + "-";
        ghost var head := sb;
        assert sb == sb + NodeText(node[..], 0);
        for i := 0 to 6
          invariant stringRep == old(stringRep) && sb == head + NodeText(node[..], i)
        {
          sb := AppendHex(sb, node[i], 2);
        }
        stringRep := Some(sb);
      }
      s := stringRep.value;
    }

    /** UUID.java line 233. */
    method HashCode() returns (h: int)
      requires Valid()
      modifies this
      ensures Valid() && h == HashOf(Value())
    {
      if hashCode == 0 {
        var s := ToString();
        hashCode := StringHash(s);
        if hashCode == 0 {
          hashCode := -1;
        }
      }
      h := hashCode;
    }

    /** UUID.java line 207: equality of the values, although different hash codes end the comparison early. */
    method Equals(other: UUID?) returns (b: bool)
      requires Valid() && (other != null ==> other.Valid())
      ensures b <==> other != null && Value() == other.Value()
    {
      if other == null {
        return false;
      }
      if this == other {
        return true;
      }
      if hashCode != 0 && other.hashCode != 0 && hashCode != other.hashCode {
        return false;
      }
      b := timeLow == other.timeLow && timeMid == other.timeMid && timeHiAndVersion == other.timeHiAndVersion
        && clockSeqLow == other.clockSeqLow && clockSeqHi == other.clockSeqHi && node[..] == other.node[..];
    }

    /** UUID.java lines 189 and 306: the caller gets an array of its own. */
    method ToByteArray() returns (a: array<int>)
      requires Valid()
      ensures fresh(a) && a[..] == BytesOf(Value())
    {
      var out := IntBytes(timeLow, 4);
      out := out + IntBytes(timeMid, 2);
      out := out + IntBytes(timeHiAndVersion, 2);
      out := out + [clockSeqHi];
      out := out + [clockSeqLow];
      out := out + node[..];
      assert out == BytesOf(Value());
      a := new int[|out|](i requires 0 <= i < |out| => out[i]);
    }

    /** UUID.java line 156: null for its exceptions. */
    static method FromBytes(data: array?<int>) returns (u: UUID?)
      requires data != null ==> AreBytes(data[..])
      ensures u == null <==> data == null || data.Length != 16
      ensures u != null ==> fresh(u) && fresh(u.node) && u.Valid() && u.Value() == FieldsOf(data[..])
    {
      if data == null || data.Length != 16 {
        return null;
      }
      var node := new int[6](i requires 0 <= i < 6 reads data => data[10 + i]);
      assert node[..] == data[10..];
      u := new UUID(Cast(ByteNumber(data[..4]), INTS), Cast(ByteNumber(data[4..6]), SHORTS), Cast(ByteNumber(data[6..8]), SHORTS),
        data[9], data[8], node);
    }

    /** UUID.java line 116: null for its exceptions. */
    static method FromText(s: string) returns (u: UUID?)
      ensures u == null <==> ParseFields(s) == None
      ensures u != null ==> fresh(u) && fresh(u.node) && u.Valid() && u.Value() == ParseFields(s).value
    {
      hide ParseField, HexText, NodeText;
      if |s| != 36 { return null; }
      var timeLow := ParseField(s[0..8], INTS);
      if timeLow.None? || s[8] != '-' { return null; }
      var timeMid := ParseField(s[9..13], SHORTS);
      if timeMid.None? || s[13] != '-' { return null; }
      var timeHi := ParseField(s[14..18], SHORTS);
      if timeHi.None? || s[18] != '-' { return null; }
      var clockSeqHi := ParseField(s[19..21], BYTES);
      if clockSeqHi.None? { return null; }
      var clockSeqLow := ParseField(s[21..23], BYTES);
      if clockSeqLow.None? || s[23] != '-' { return null; }
      var node := new int[6];
      for i := 0 to 6
        invariant ParseNode(s, i) == Some(node[..i]) && AreBytes(node[..i])
      {
        var b := ParseField(s[2 * i + 24..2 * i + 26], BYTES);
        if b.None? {
          NodeFails(s, i + 1, 6);
          return null;
        }
        node[i] := b.value;
        assert node[..i + 1] == node[..i] + [b.value];
      }
      assert node[..] == node[..6];
      u := new UUID(timeLow.value, timeMid.value, timeHi.value, clockSeqLow.value, clockSeqHi.value, node);
    }
  }

  /** One bad byte spoils the node. */
  lemma {:induction false} NodeFails(s: string, i: nat, k: nat)
    requires |s| == 36 && i <= k <= 6 && ParseNode(s, i) == None
    ensures ParseNode(s, k) == None
  {
    hide ParseNode;
    if i < k {
      NodeFails(s, i, k - 1);
      NodeStaysNone(s, k);
    }
  }

  lemma NodeStaysNone(s: string, k: nat)
    requires |s| == 36 && 0 < k <= 6 && ParseNode(s, k - 1) == None
    ensures ParseNode(s, k) == None
  {
    hide ParseField;
  }
}
