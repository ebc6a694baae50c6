/** org.maxkey.uuid.UUID: the value of a UUID, its 16 bytes, its text, and the object that caches its text and hash code. */
module Uuids {
  import opened Arith
  import opened ByteNumbers
  import opened JavaNumbers
  import opened JsNumbers

  /** The fields as the class declares them: signed numbers of 32, 16, 16, 8 and 8 bits, and six bytes. */
  datatype Fields = Fields(timeLow: int, timeMid: int, timeHiAndVersion: int, clockSeqHi: int, clockSeqLow: int, node: seq<int>)
  {
    predicate Valid() {
      && Fits(timeLow, INTS) && Fits(timeMid, SHORTS) && Fits(timeHiAndVersion, SHORTS)
      && Fits(clockSeqHi, BYTES) && Fits(clockSeqLow, BYTES) && IsNode(node)
    }
  }

  predicate AreBytes(b: seq<int>) { forall i :: 0 <= i < |b| ==> Fits(b[i], BYTES) }

  predicate IsNode(b: seq<int>) { |b| == 6 && AreBytes(b) }

  /** The k low bytes of x, most significant first, as DataOutput writes them. */
  function IntBytes(x: int, k: nat): (b: seq<int>)
    ensures |b| == k && AreBytes(b)
    decreases k
  {
    if k == 0 then [] else IntBytes(x / 0x100, k - 1) + [Cast(x, BYTES)]
  }

  /** UUID.java lines 189-197. */
  function BytesOf(f: Fields): seq<int> {
    IntBytes(f.timeLow, 4) + IntBytes(f.timeMid, 2) + IntBytes(f.timeHiAndVersion, 2) + [f.clockSeqHi, f.clockSeqLow] + f.node
  }

  /** UUID.java lines 167-176. */
  function FieldsOf(b: seq<int>): Fields
    requires |b| == 16
  {
    Fields(Cast(ByteNumber(b[..4]), INTS), Cast(ByteNumber(b[4..6]), SHORTS), Cast(ByteNumber(b[6..8]), SHORTS),
      b[8], b[9], b[10..])
  }

  lemma LowByte(x: int, k: nat)
    ensures x % Pow2(8 * (k + 1)) == (x / 0x100) % Pow2(8 * k) * 0x100 + x % 0x100
  {
    Pow2Add(8, 8 * k);
    Pow2Values();
    hide Pow2;
    assert 8 * (k + 1) == 8 + 8 * k;
    ModOfSum(x % 0x100, 0x100, x / 0x100, Pow2(8 * k));
  }

  lemma BytesLast(x: int, k: nat)
    ensures IntBytes(x, k + 1) == IntBytes(x / 0x100, k) + [Cast(x, BYTES)]
    ensures ByteNumber(IntBytes(x, k + 1)) == ByteNumber(IntBytes(x / 0x100, k)) * 0x100 + x % 0x100
  {
    hide ByteNumber;
    var b := IntBytes(x, k + 1);
    assert b[..k] == IntBytes(x / 0x100, k) && b[k] == Cast(x, BYTES);
    CastKeepsBits(x, BYTES);
    ByteNumberLast(b);
  }

  lemma NoBytes(x: int)
    ensures ByteNumber([]) == 0 && IntBytes(x, 0) == [] && Pow2(0) == 1
  {
  }

  lemma {:induction false} BytesRead(x: int, k: nat)
    ensures ByteNumber(IntBytes(x, k)) == x % Pow2(8 * k)
    decreases k
  {
    hide Pow2, IntBytes, ByteNumber;
    if k == 0 {
      NoBytes(x);
    } else {
      BytesLast(x, k - 1);
      BytesRead(x / 0x100, k - 1);
      LowByte(x, k - 1);
    }
  }

  lemma {:induction false} BytesDetermined(x: int, b: seq<int>)
    requires AreBytes(b) && x % Pow2(8 * |b|) == ByteNumber(b)
    ensures IntBytes(x, |b|) == b
    decreases |b|
  {
    hide Pow2, IntBytes, ByteNumber, Cast;
    NoBytes(x);
    if b != [] {
      var k := |b| - 1;
      LowByte(x, k);
      ByteNumberLast(b);
      DivModUnique(0x100, x % 0x100, (x / 0x100) % Pow2(8 * k), Bits(b[k], BYTES), ByteNumber(b[..k]));
      BytesDetermined(x / 0x100, b[..k]);
      BytesLast(x, k);
      CastOfBits(b[k], BYTES);
      CastSame(x, b[k], BYTES);
      assert b == b[..k] + [b[k]];
    }
  }

  /** Section 4.1.2 of RFC 4122: the UUID as a number of 128 bits, the fields in order from the top. */
  lemma BytesNumber(f: Fields)
    requires f.Valid()
    ensures ByteNumber(BytesOf(f)) ==
      Bits(f.timeLow, INTS) * 0x1_0000_0000_0000_0000_0000_0000 + Bits(f.timeMid, SHORTS) * 0x1_0000_0000_0000_0000_0000
      + Bits(f.timeHiAndVersion, SHORTS) * 0x1_0000_0000_0000_0000 + Bits(f.clockSeqHi, BYTES) * 0x100_0000_0000_0000
      + Bits(f.clockSeqLow, BYTES) * 0x1_0000_0000_0000 + ByteNumber(f.node)
  {
    hide IntBytes, ByteNumber, Pow2, Cast;
    var a, b, c := IntBytes(f.timeLow, 4), IntBytes(f.timeMid, 2), IntBytes(f.timeHiAndVersion, 2);
    var d, e := [f.clockSeqHi], [f.clockSeqLow];
    assert BytesOf(f) == a + (b + (c + (d + (e + f.node))));
    BytesRead(f.timeLow, 4);
    BytesRead(f.timeMid, 2);
    BytesRead(f.timeHiAndVersion, 2);
    WideValues();
    ByteNumberFirst(d);
    ByteNumberFirst(e);
    assert d[1..] == [] && e[1..] == [];
    ByteNumberJoin(e, f.node);
    ByteNumberJoin(d, e + f.node);
    ByteNumberJoin(c, d + (e + f.node));
    ByteNumberJoin(b, c + (d + (e + f.node)));
    ByteNumberJoin(a, b + (c + (d + (e + f.node))));
  }

  lemma WideValues()
    ensures Pow2(0) == 1 && Pow2(16) == 0x1_0000 && Pow2(32) == 0x1_0000_0000 && Pow2(48) == 0x1_0000_0000_0000
    ensures Pow2(56) == 0x100_0000_0000_0000 && Pow2(64) == 0x1_0000_0000_0000_0000
    ensures Pow2(80) == 0x1_0000_0000_0000_0000_0000 && Pow2(96) == 0x1_0000_0000_0000_0000_0000_0000
  {
    hide Pow2;
    Pow2Values();
    Pow2Add(16, 32);
    Pow2Add(8, 48);
    Pow2Add(16, 48);
    Pow2Add(16, 64);
    Pow2Add(16, 80);
  }

  /** Reading 16 bytes undoes writing them... */
  lemma BytesRoundTrip(f: Fields)
    requires f.Valid()
    ensures |BytesOf(f)| == 16 && AreBytes(BytesOf(f)) && FieldsOf(BytesOf(f)) == f
  {
    hide IntBytes, ByteNumber, Cast, Pow2;
    var b := BytesOf(f);
    assert b[..4] == IntBytes(f.timeLow, 4) && b[4..6] == IntBytes(f.timeMid, 2) && b[6..8] == IntBytes(f.timeHiAndVersion, 2);
    assert b[10..] == f.node;
    Pow2Values();
    BytesRead(f.timeLow, 4);
    BytesRead(f.timeMid, 2);
    BytesRead(f.timeHiAndVersion, 2);
    CastOfBits(f.timeLow, INTS);
    CastOfBits(f.timeMid, SHORTS);
    CastOfBits(f.timeHiAndVersion, SHORTS);
  }

  /** ... and writing them undoes reading them. */
  lemma FieldsRoundTrip(b: seq<int>)
    requires |b| == 16 && AreBytes(b)
    ensures FieldsOf(b).Valid() && BytesOf(FieldsOf(b)) == b
  {
    hide IntBytes, ByteNumber, Cast, Pow2;
    CastBytes(b[..4], INTS);
    CastBytes(b[4..6], SHORTS);
    CastBytes(b[6..8], SHORTS);
    assert b == b[..4] + b[4..6] + b[6..8] + [b[8], b[9]] + b[10..];
  }

  lemma CastBytes(b: seq<int>, m: int)
    requires AreBytes(b) && m > 0 && m % 2 == 0 && (if |b| == 4 then m == INTS else |b| == 2 && m == SHORTS)
    ensures IntBytes(Cast(ByteNumber(b), m), |b|) == b
  {
    hide IntBytes, ByteNumber, Cast, Pow2;
    Pow2Values();
    ByteNumberMod(b);
    CastKeepsBits(ByteNumber(b), m);
    BytesDetermined(Cast(ByteNumber(b), m), b);
  }
}
