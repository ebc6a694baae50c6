/** pkcs1pad2 of rsa.js: a text becomes a block of n bytes, written from the last byte down to the first. */
module Padding {
  import opened Arith
  import opened BigIntegers
  import opened ByteNumbers
  import opened Digits
  import opened JsNumbers
  import opened Options
  import opened Radix

  type Byte = b: int | 0 <= b < 0x100

  /** A JavaScript string as charCodeAt shows it: UTF-16 code units, surrogates not combined. */
  type CodeUnit = c: int | 0 <= c < 0x1_0000
  type Text = seq<CodeUnit>

  /** The 1-, 2- and 3-byte forms of section 3 of RFC 3629. */
  function EncodeUnit(c: CodeUnit): seq<Byte> {
    if c < 0x80 then [c]
    else if c < 0x800 then [0xC0 + c / 0x40, 0x80 + c % 0x40]
    else [0xE0 + c / 0x1000, 0x80 + (c / 0x40) % 0x40, 0x80 + c % 0x40]
  }

  function Encode(s: Text): seq<Byte> {
    if s == [] then [] else EncodeUnit(s[0]) + Encode(s[1..])
  }

  predicate IsContinuation(b: Byte) { 0x80 <= b < 0xC0 }

  /** A continuation byte adds 6 bits. */
  function Bits6(high: int, b: Byte): int { high * 0x40 + (b - 0x80) }

  function Prepend(c: CodeUnit, rest: Option<Text>): Option<Text> {
    if rest.Some? then Some([c] + rest.value) else None
  }

  /** The reader of those forms. */
  function Decode(b: seq<Byte>): Option<Text> {
    if b == [] then Some([])
    else if b[0] < 0x80 then Prepend(b[0], Decode(b[1..]))
    else if 0xC0 <= b[0] < 0xE0 && |b| >= 2 && IsContinuation(b[1]) then
      Prepend(Bits6(b[0] - 0xC0, b[1]), Decode(b[2..]))
    else if 0xE0 <= b[0] < 0xF0 && |b| >= 3 && IsContinuation(b[1]) && IsContinuation(b[2]) then
      Prepend(Bits6(Bits6(b[0] - 0xE0, b[1]), b[2]), Decode(b[3..]))
    else None
  }

  lemma UnitLength(c: CodeUnit)
    ensures |EncodeUnit(c)| == if c < 0x80 then 1 else if c < 0x800 then 2 else 3
  {
  }

  /** No shorter bytes are read as the code unit, and no others of that length. */
  lemma UnitIsShortest(c: CodeUnit, b: seq<Byte>)
    requires Decode(b) == Some([c])
    ensures |EncodeUnit(c)| <= |b| && (|EncodeUnit(c)| == |b| ==> EncodeUnit(c) == b)
  {
    var n := if b[0] < 0x80 then 1 else if b[0] < 0xE0 then 2 else 3;
    FirstDecoded(b, n);
    UnitLength(c);
    OnlyUnit(c, b);
  }

  /** b is one unit of n bytes. */
  lemma FirstDecoded(b: seq<Byte>, n: nat)
    requires b != [] && n == if b[0] < 0x80 then 1 else if b[0] < 0xE0 then 2 else 3
    requires Decode(b).Some? && |Decode(b).value| == 1
    ensures |b| == n
  {
    if n <= |b| && b[n..] != [] {
      DecodedLonger(b[n..]);
    }
  }

  lemma DecodedLonger(b: seq<Byte>)
    requires b != [] && Decode(b).Some?
    ensures Decode(b).value != []
  {
  }

  lemma OnlyUnit(c: CodeUnit, b: seq<Byte>)
    requires b != [] && Decode(b) == Some([c]) && |b| == if b[0] < 0x80 then 1 else if b[0] < 0xE0 then 2 else 3
    ensures |EncodeUnit(c)| <= |b| && (|EncodeUnit(c)| == |b| ==> EncodeUnit(c) == b)
  {
    assert b[|b|..] == [];
    UnitBytes(c);
    UnitLength(c);
    DecodedUnit(b, c);
    hide EncodeUnit, Decode;
    if |b| == 1 {
      assert b == [b[0]];
    } else if |b| == 2 {
      assert b == [b[0], b[1]];
      SplitPair(c, b[0], b[1]);
    } else {
      assert b == [b[0], b[1], b[2]];
      SplitPair(c, Bits6(b[0] - 0xE0, b[1]) + 0xC0, b[2]);
      SplitPair(c / 0x40, b[0] - 0xE0 + 0xC0, b[1]);
      SplitTwice(c);
    }
  }

  lemma DecodedUnit(b: seq<Byte>, c: CodeUnit)
    requires b != [] && Decode(b) == Some([c]) && b[|b|..] == []
    requires |b| == if b[0] < 0x80 then 1 else if b[0] < 0xE0 then 2 else 3
    ensures |b| == 1 ==> c == b[0]
    ensures |b| == 2 ==> IsContinuation(b[1]) && c == Bits6(b[0] - 0xC0, b[1]) && b[0] >= 0xC0
    ensures |b| == 3 ==> IsContinuation(b[1]) && IsContinuation(b[2]) && c == Bits6(Bits6(b[0] - 0xE0, b[1]), b[2]) && b[0] < 0xF0
  {
  }

  lemma SplitPair(c: int, x: int, y: Byte)
    requires IsContinuation(y) && c == Bits6(x - 0xC0, y)
    ensures x == 0xC0 + c / 0x40 && y == 0x80 + c % 0x40
  {
  }

  /** Larger code units have larger bytes: section 1 of RFC 3629, on the order of strings. */
  lemma UnitsInOrder(c: CodeUnit, d: CodeUnit)
    requires c < d
    ensures ByteNumber(EncodeUnit(c)) < ByteNumber(EncodeUnit(d))
  {
    hide ByteNumber, EncodeUnit;
    UnitNumber(c);
    UnitNumber(d);
    QuotientsInOrder(c, d, 0x40);
    QuotientsInOrder(c, d, 0x1000);
  }

  lemma QuotientsInOrder(c: int, d: int, m: int)
    requires 0 <= c < d && (m == 0x40 || m == 0x1000)
    ensures 0 <= c / m <= d / m
  {
  }

  lemma UnitNumber(c: CodeUnit)
    ensures ByteNumber(EncodeUnit(c)) ==
      if c < 0x80 then c
      else if c < 0x800 then 0xC080 + c + 0xC0 * (c / 0x40)
      else 0xE0_8080 + c + 0xC0 * (c / 0x40) + 0xC000 * (c / 0x1000)
    ensures c < 0x800 ==> c / 0x40 < 0x20
  {
    UnitBytes(c);
    UnitLength(c);
    hide ByteNumber, EncodeUnit;
    if c < 0x80 {
      FewBytes(c, 0, 0);
    } else if c < 0x800 {
      FewBytes(0xC0 + c / 0x40, 0x80 + c % 0x40, 0);
    } else {
      FewBytes(0xE0 + c / 0x1000, 0x80 + (c / 0x40) % 0x40, 0x80 + c % 0x40);
      SplitTwice(c);
    }
  }

  lemma UnitBytes(c: CodeUnit)
    ensures c < 0x80 ==> EncodeUnit(c) == [c]
    ensures 0x80 <= c < 0x800 ==> EncodeUnit(c) == [0xC0 + c / 0x40, 0x80 + c % 0x40]
    ensures c >= 0x800 ==> EncodeUnit(c) == [0xE0 + c / 0x1000, 0x80 + (c / 0x40) % 0x40, 0x80 + c % 0x40]
  {
  }

  lemma SplitTwice(c: int)
    ensures 0x1000 * (c / 0x1000) + 0x40 * ((c / 0x40) % 0x40) + c % 0x40 == c
    ensures c / 0x40 == 0x40 * (c / 0x1000) + (c / 0x40) % 0x40
  {
    assert c / 0x40 / 0x40 == c / 0x1000;
  }

  lemma FewBytes(x: int, y: int, z: int)
    requires 0 <= x < 0x100 && 0 <= y < 0x100 && 0 <= z < 0x100
    ensures ByteNumber([x]) == x && ByteNumber([x, y]) == 0x100 * x + y && ByteNumber([x, y, z]) == 0x1_0000 * x + 0x100 * y + z
  {
    hide ByteNumber;
    ByteNumberFirst([]);
    ByteNumberLast([x]);
    ByteNumberLast([x, y]);
    ByteNumberLast([x, y, z]);
    assert [x][..0] == [] && [x, y][..1] == [x] && [x, y, z][..2] == [x, y];
  }

  /** Every string of code units, lone surrogates included, is read back as it was. */
  lemma {:induction false} DecodeEncode(s: Text)
    ensures Decode(Encode(s)) == Some(s)
  {
    if s != [] {
      DecodeEncode(s[1..]);
      DecodeUnit(s[0], Encode(s[1..]));
      hide Decode, EncodeUnit;
      assert [s[0]] + s[1..] == s;
    }
  }

  lemma DecodeUnit(c: CodeUnit, rest: seq<Byte>)
    ensures Decode(EncodeUnit(c) + rest) == Prepend(c, Decode(rest))
  {
    var u := EncodeUnit(c);
    assert (u + rest)[|u|..] == rest;
    SplitUnit(c);
  }

  lemma SplitUnit(c: CodeUnit)
    ensures c >= 0x80 ==> Bits6(c / 0x40, 0x80 + c % 0x40) == c
    ensures c >= 0x800 ==> Bits6(c / 0x1000, 0x80 + (c / 0x40) % 0x40) == c / 0x40
  {
  }

  lemma {:induction false} EncodeJoin(a: Text, b: Text)
    ensures Encode(a + b) == Encode(a) + Encode(b)
  {
    if a == [] {
      assert a + b == b;
    } else {
      assert (a + b)[1..] == a[1..] + b;
      EncodeJoin(a[1..], b);
    }
  }

  /** The code compares the block with the number of code units; the bytes may be up to three times as many. */
  lemma {:induction false} EncodedLength(s: Text)
    ensures |s| <= |Encode(s)| <= 3 * |s|
    ensures |Encode(s)| == |s| <==> forall i :: 0 <= i < |s| ==> s[i] < 0x80
  {
    if s != [] {
      EncodedLength(s[1..]);
      assert forall i :: 0 < i < |s| ==> s[i] == s[1..][i - 1];
      assert (forall i :: 0 <= i < |s| ==> s[i] < 0x80) <==> s[0] < 0x80 && forall i :: 0 <= i < |s[1..]| ==> s[1..][i] < 0x80;
    }
  }

  /** The bytes that ba holds from n up to n0 are the end of the sequence m. */
  ghost predicate HoldsEnd(ba: Words, n: int, n0: int, m: seq<Byte>) {
    n0 - |m| <= n <= n0 && forall k :: n <= k < n0 ==> k in ba && ba[k] == m[k - n0 + |m|]
  }

  lemma HoldsMore(ba: Words, n: int, n0: int, m: seq<Byte>, e: Words, n': int, u: seq<Byte>)
    requires HoldsEnd(ba, n, n0, m) && n == n0 - |m| && HoldsEnd(e, n', n, u)
    requires forall k :: k in ba && n <= k ==> k in e && e[k] == ba[k]
    ensures HoldsEnd(e, n', n0, u + m)
  {
  }

  /** rsa.js lines 37-48: one code unit, last byte first. */
  method PutUnit(ba0: Words, n0: int, c: CodeUnit) returns (ba: Words, n: int)
    ensures n == n0 - |EncodeUnit(c)| && HoldsEnd(ba, n, n0, EncodeUnit(c))
    ensures forall k :: k in ba0 && !(n <= k < n0) ==> k in ba && ba[k] == ba0[k]
  {
    ba, n := ba0, n0;
    if c < 128 {
      n := n - 1;
      ba := ba[n := c];
    } else if c > 127 && c < 2048 {
      n := n - 1;
      ba := ba[n := Or(128, Mask(c, 64), 64)];
      n := n - 1;
      ba := ba[n := Or(192, Shr(c, 64), 64)];
    } else {
      n := n - 1;
      ba := ba[n := Or(128, Mask(c, 64), 64)];
      n := n - 1;
      ba := ba[n := Or(128, Mask(Shr(c, 64), 64), 64)];
      n := n - 1;
      ba := ba[n := Or(224, Shr(c, 4096), 32)];
    }
  }

  /** The code units from i on are in the block. */
  ghost predicate TextPut(ba: Words, n: int, n0: int, s: Text, i: nat)
    requires i <= |s|
  {
    n == n0 - |Encode(s[i..])| && HoldsEnd(ba, n, n0, Encode(s[i..]))
  }

  lemma NothingPut(ba: Words, n0: int, s: Text)
    ensures TextPut(ba, n0, n0, s, |s|)
  {
    assert s[|s|..] == [];
  }

  lemma UnitPut(ba: Words, n: int, n0: int, s: Text, i: nat, e: Words, n': int)
    requires i < |s| && TextPut(ba, n, n0, s, i + 1)
    requires n' == n - |EncodeUnit(s[i])| && HoldsEnd(e, n', n, EncodeUnit(s[i]))
    requires forall k :: k in ba && !(n' <= k < n) ==> k in e && e[k] == ba[k]
    ensures TextPut(e, n', n0, s, i)
  {
    assert s[i..][1..] == s[i + 1..];
    assert Encode(s[i..]) == EncodeUnit(s[i]) + Encode(s[i + 1..]);
    hide Encode, EncodeUnit;
    HoldsMore(ba, n, n0, Encode(s[i + 1..]), e, n', EncodeUnit(s[i]));
  }

  /** What is left of s encodes to the end of what s encodes to. */
  lemma PutIsEnd(ba: Words, n: int, n0: int, s: Text, i: nat)
    requires i <= |s| && TextPut(ba, n, n0, s, i)
    ensures HoldsEnd(ba, n, n0, Encode(s)) && (i == 0 ==> n == n0 - |Encode(s)|)
  {
    hide Encode;
    assert s[..i] + s[i..] == s;
    EncodeJoin(s[..i], s[i..]);
    assert i == 0 ==> s[i..] == s;
  }

  /** rsa.js lines 33-49. The loop also stops when the block is full; entries below index 0 may have been set by then. */
  method PutText(s: Text, n0: nat) returns (ba: Words, n: int)
    ensures HoldsEnd(ba, n, n0, Encode(s)) && (n <= 0 || n == n0 - |Encode(s)|)
  {
    hide Encode, EncodeUnit, HoldsEnd, TextPut;
    ba, n := map[], n0;
    NothingPut(ba, n0, s);
    var i := |s| - 1;
    while i >= 0 && n > 0
      invariant -1 <= i < |s| && TextPut(ba, n, n0, s, i + 1)
    {
      ghost var before, hi := ba, n;
      var c := s[i];
      i := i - 1;
      ba, n := PutUnit(ba, n, c);
      UnitPut(before, hi, n0, s, i + 1, ba, n);
    }
    PutIsEnd(ba, n, n0, s, i + 1);
  }

  /** The random bytes are an endless stream; how rng.js draws them is not part of this model. */
  class SecureRandom {
    const stream: nat -> Byte
    var pos: nat

    ghost predicate Valid()
    {
      forall i: nat :: NonZeroFrom(stream, i)
    }

    method NextByte() returns (b: Byte)
      modifies `pos
      ensures pos == old(pos) + 1 && b == stream(old(pos))
    {
      b := stream(pos);
      pos := pos + 1;
    }

    /** rsa.js lines 54-55. */
    method NextNonZero() returns (b: Byte)
      requires Valid()
      modifies `pos
      ensures pos > old(pos) && b == stream(pos - 1) && b != 0
      ensures forall i: nat :: old(pos) <= i < pos - 1 ==> stream(i) == 0
    {
      assert NonZeroFrom(stream, pos);
      ghost var j: nat :| j >= pos && stream(j) != 0;
      b := 0;
      while b == 0
        invariant pos >= old(pos) && (b == 0 ==> pos <= j) && (b != 0 ==> pos > old(pos) && b == stream(pos - 1))
        invariant forall i: nat :: old(pos) <= i < (if b == 0 then pos else pos - 1) ==> stream(i) == 0
        decreases if b == 0 then 1 + j - pos else 0
      {
        b := NextByte();
      }
    }
  }

  /** The stream keeps yielding bytes other than 0. */
  ghost predicate NonZeroFrom(stream: nat -> Byte, i: nat) { exists j: nat :: j >= i && stream(j) != 0 }

  /** The bytes ps are those of the stream at the places `at`, which fall; at all other places it has a 0. */
  ghost predicate DrawnAt(stream: nat -> Byte, i: nat, j: nat, ps: seq<int>, at: seq<int>) {
    && |at| == |ps|
    && (forall k :: 0 <= k < |at| ==> i <= at[k] < j && ps[k] == stream(at[k]) && ps[k] != 0)
    && (forall k, l :: 0 <= k < l < |at| ==> at[k] > at[l])
    && (forall m: nat :: i <= m < j && stream(m) != 0 ==> m in at)
  }

  /** ps are the draws i, ..., j - 1, the latest first, without the zeros among them. */
  ghost predicate Drawn(stream: nat -> Byte, i: nat, j: nat, ps: seq<int>) {
    exists at: seq<int> :: DrawnAt(stream, i, j, ps, at)
  }

  lemma NothingDrawn(stream: nat -> Byte, i: nat)
    ensures Drawn(stream, i, i, [])
  {
    assert DrawnAt(stream, i, i, [], []);
  }

  lemma OneMoreDrawn(stream: nat -> Byte, i: nat, p: nat, q: nat, ps: seq<int>)
    requires i <= p < q && Drawn(stream, i, p, ps) && stream(q - 1) != 0 && forall m: nat :: p <= m < q - 1 ==> stream(m) == 0
    ensures Drawn(stream, i, q, [stream(q - 1)] + ps)
  {
    hide DrawnAt;
    var at :| DrawnAt(stream, i, p, ps, at);
    OneMorePlace(stream, i, p, q, ps, at);
  }

  lemma OneMorePlace(stream: nat -> Byte, i: nat, p: nat, q: nat, ps: seq<int>, at: seq<int>)
    requires i <= p < q && DrawnAt(stream, i, p, ps, at)
    requires stream(q - 1) != 0 && forall m: nat :: p <= m < q - 1 ==> stream(m) == 0
    ensures DrawnAt(stream, i, q, [stream(q - 1)] + ps, [q - 1] + at)
  {
    var at', ps' := [q - 1] + at, [stream(q - 1)] + ps;
    forall k | 0 <= k < |at'|
      ensures i <= at'[k] < q && ps'[k] == stream(at'[k]) && ps'[k] != 0
    {
      if k > 0 {
        assert at'[k] == at[k - 1] && ps'[k] == ps[k - 1];
      }
    }
    PlacesFall(at, q - 1);
    forall m: nat | i <= m < q && stream(m) != 0
      ensures m in at'
    {
      assert m in at || m == at'[0];
    }
  }

  lemma PlacesFall(at: seq<int>, top: int)
    requires (forall k :: 0 <= k < |at| ==> at[k] < top) && forall k, l :: 0 <= k < l < |at| ==> at[k] > at[l]
    ensures forall k, l :: 0 <= k < l < |[top] + at| ==> ([top] + at)[k] > ([top] + at)[l]
  {
  }

  lemma DrawnIsNonZero(stream: nat -> Byte, i: nat, j: nat, ps: seq<int>)
    requires Drawn(stream, i, j, ps)
    ensures 0 !in ps
  {
  }

  /** What the block holds. It is the one that section 7.2.1 of RFC 8017 prescribes only in the first case; a text
      that takes all of the block, or more, pushes the leading bytes out of it. */
  ghost predicate IsBlock(b: seq<Byte>, s: Text, n: nat, ps: seq<Byte>) {
    var m := Encode(s);
    && |b| == n
    && (if |m| <= n - 3 then |ps| == n - 3 - |m| && b == [0, 2] + ps + [0] + m
        else if |m| == n - 2 then b == [2, 0] + m
        else if |m| == n - 1 then b == [0] + m
        else b == m[|m| - n..])
  }

  /** rsa.js lines 53-57: random bytes down to index 2. */
  method PutRandom(ba0: Words, n0: int, rng: SecureRandom) returns (ba: Words, n: int, ghost ps: seq<Byte>)
    requires rng.Valid()
    modifies rng`pos
    ensures n == (if n0 > 2 then 2 else n0) && rng.pos >= old(rng.pos)
    ensures Drawn(rng.stream, old(rng.pos), rng.pos, ps) && |ps| == n0 - n && HoldsEnd(ba, n, n0, ps)
    ensures forall k :: k in ba0 && n0 <= k ==> k in ba && ba[k] == ba0[k]
  {
    hide Drawn, NonZeroFrom;
    ba, n, ps := ba0, n0, [];
    NothingDrawn(rng.stream, rng.pos);
    while n > 2
      invariant n <= n0 && (n0 > 2 ==> n >= 2) && (n0 <= 2 ==> n == n0) && rng.pos >= old(rng.pos)
      invariant Drawn(rng.stream, old(rng.pos), rng.pos, ps) && |ps| == n0 - n && HoldsEnd(ba, n, n0, ps)
      invariant forall k :: k in ba0 && n0 <= k ==> k in ba && ba[k] == ba0[k]
    {
      ghost var p := rng.pos;
      var x := rng.NextNonZero();
      OneMoreDrawn(rng.stream, old(rng.pos), p, rng.pos, ps);
      ps := [x] + ps;
      n := n - 1;
      ba := ba[n := x];
    }
  }

  ghost predicate IsByteArray(ba: Words, length: nat) { forall k :: 0 <= k < length ==> k in ba && 0 <= ba[k] < 0x100 }

  /** `ba` as the constructor reads it: entries 0, ..., length - 1. */
  function Bytes(ba: Words, length: nat): seq<Byte>
    requires IsByteArray(ba, length)
  {
    seq(length, k requires 0 <= k < length => ba[k])
  }

  /** rsa.js lines 58-59: the two bytes in front. */
  method PutHead(ba0: Words, n0: int) returns (ba: Words)
    ensures n0 - 1 in ba && ba[n0 - 1] == 2 && n0 - 2 in ba && ba[n0 - 2] == 0
    ensures forall k :: k in ba0 && n0 <= k ==> k in ba && ba[k] == ba0[k]
  {
    var n := n0 - 1;
    ba := ba0[n := 2];
    n := n - 1;
    ba := ba[n := 0];
  }

  /** rsa.js lines 28-59. */
  method PadBlock(s: Text, n0: int, rng: SecureRandom) returns (b: Option<seq<Byte>>, ghost ps: seq<Byte>)
    requires rng.Valid()
    modifies rng`pos
    ensures b.None? <==> n0 < |s| + 11
    ensures b.Some? ==> Drawn(rng.stream, old(rng.pos), rng.pos, ps) && IsBlock(b.value, s, n0, ps)
  {
    hide Encode, Drawn, NonZeroFrom, IsBlock, HoldsEnd;
    ps := [];
    if n0 < |s| + 11 {
      return None, ps;
    }
    var ba, n := PutText(s, n0);
    ghost var m, z, a0 := Encode(s), n - 1, ba;
    n := n - 1;
    ba := ba[n := 0];
    HoldsFrame(a0, ba, z + 1, n0, m);
    ghost var a1 := ba;
    ba, n, ps := PutRandom(ba, n, rng);
    ghost var low, a2 := n, ba;
    HoldsFrame(a1, ba, z + 1, n0, m);
    ba := PutHead(ba, n);
    HoldsFrame(a2, ba, z + 1, n0, m);
    HoldsFrame(a2, ba, low, z, ps);
    BlockIs(ba, s, n0, z, low, ps);
    b := Some(Bytes(ba, n0));
  }

  lemma HoldsFrame(ba: Words, e: Words, n: int, n0: int, m: seq<Byte>)
    requires HoldsEnd(ba, n, n0, m)
    requires forall k :: k in ba && n <= k < n0 ==> k in e && e[k] == ba[k]
    ensures HoldsEnd(e, n, n0, m)
  {
  }

  /** The four ways in which the text, the 0 at z, the padding above low and the two bytes below low fill the block. */
  lemma BlockIs(ba: Words, s: Text, n0: nat, z: int, low: int, ps: seq<Byte>)
    requires n0 >= 3 && HoldsEnd(ba, z + 1, n0, Encode(s)) && (z < 0 || z == n0 - |Encode(s)| - 1)
    requires low == (if z > 2 then 2 else z) && |ps| == z - low && HoldsEnd(ba, low, z, ps)
    requires z in ba && ba[z] == 0 && low - 1 in ba && ba[low - 1] == 2 && low - 2 in ba && ba[low - 2] == 0
    ensures IsByteArray(ba, n0) && IsBlock(Bytes(ba, n0), s, n0, ps)
  {
    var m := Encode(s);
    hide Encode;
    assert forall k :: 0 <= k < n0 ==> k in ba && 0 <= ba[k] < 0x100;
    var b := Bytes(ba, n0);
    if |m| <= n0 - 3 {
      assert b == [0, 2] + ps + [0] + m;
    } else if |m| == n0 - 2 {
      assert b == [2, 0] + m;
    } else if |m| == n0 - 1 {
      assert b == [0] + m;
    } else {
      assert b == m[|m| - n0..];
    }
  }

  /** The index of the first 0 from index i on, or |b|. */
  function ZeroAt(b: seq<Byte>, i: nat): (z: nat)
    requires i <= |b|
    ensures i <= z <= |b| && (z < |b| ==> b[z] == 0) && forall k :: i <= k < z ==> b[k] != 0
    decreases |b| - i
  {
    if i == |b| || b[i] == 0 then i else ZeroAt(b, i + 1)
  }

  /** What the receiver does, section 7.2.2 of RFC 8017: 00, 02, at least 8 bytes other than 0, 00, and the message. */
  function Unpad(b: seq<Byte>): Option<seq<Byte>> {
    if |b| >= 11 && b[0] == 0 && b[1] == 2 && 10 <= ZeroAt(b, 2) < |b| then Some(b[ZeroAt(b, 2) + 1..]) else None
  }

  /** The receiver gets the text exactly if its bytes fit, though the code only checks that its code units do. */
  lemma UnpadBlock(b: seq<Byte>, s: Text, n: nat, ps: seq<Byte>)
    requires n >= |s| + 11 && 0 !in ps && IsBlock(b, s, n, ps)
    ensures Unpad(b) == Some(Encode(s)) <==> |Encode(s)| <= n - 11
    ensures |Encode(s)| <= n - 11 ==> Decode(Encode(s)) == Some(s)
  {
    DecodeEncode(s);
    var m := Encode(s);
    hide Encode, Decode;
    if |m| <= n - 3 {
      assert forall k :: 2 <= k < 2 + |ps| ==> b[k] == ps[k - 2];
      assert b[2 + |ps|] == 0 && b[2 + |ps| + 1..] == m;
      assert ZeroAt(b, 2) == 2 + |ps|;
    }
  }

  /** A text of ASCII characters is refused exactly if it does not fit. A text with other characters may be accepted
      although it does not fit: the euro sign takes 3 bytes, so nine of them need 38 bytes, not 20. */
  lemma LengthCheck(s: Text, n: int)
    ensures |Encode(s)| <= n - 11 ==> n >= |s| + 11
    ensures (forall i :: 0 <= i < |s| ==> s[i] < 0x80) ==> (n >= |s| + 11 <==> |Encode(s)| <= n - 11)
  {
    EncodedLength(s);
  }

  lemma LengthCheckFails()
    ensures var s: Text := seq(9, _ => 0x20AC); 20 >= |s| + 11 && |Encode(s)| > 20 - 11
  {
    var s: Text := seq(9, _ => 0x20AC);
    EncodedLength(s);
    assert s[0] == 0x20AC;
  }

  lemma ByteFirst(a: seq<Byte>)
    requires a != []
    ensures ByteNumber(a) == ByteNumber(a[1..]) + Pow2(8 * (|a| - 1)) * a[0]
    ensures 0 <= ByteNumber(a[1..]) < Pow2(8 * (|a| - 1))
  {
    hide ByteNumber, Pow2;
    ByteNumberFirst(a);
    ByteNumberBound(a[1..]);
    assert a[0] % 0x100 == a[0];
  }

  /** A number of n bytes has only one sequence of n bytes. */
  lemma {:induction false} ByteNumberUnique(a: seq<Byte>, b: seq<Byte>)
    requires |a| == |b| && ByteNumber(a) == ByteNumber(b)
    ensures a == b
  {
    if a != [] {
      hide ByteNumber, Pow2;
      ByteFirst(a);
      ByteFirst(b);
      DivModUnique(Pow2(8 * (|a| - 1)), ByteNumber(a[1..]), a[0], ByteNumber(b[1..]), b[0]);
      ByteNumberUnique(a[1..], b[1..]);
      assert a == [a[0]] + a[1..] && b == [b[0]] + b[1..];
    }
  }

  /** The number of bytes that hold the modulus, rsa.js line 92. */
  function BlockSize(modulus: nat): nat { (BitLen(modulus) + 7) / 8 }

  /** So many bytes hold it, and no fewer do. */
  lemma BlockHolds(modulus: nat)
    requires modulus > 0
    ensures BlockSize(modulus) > 0 && Pow2(8 * (BlockSize(modulus) - 1)) <= modulus < Pow2(8 * BlockSize(modulus))
  {
    hide Pow2, BitLen;
    BitLenBounds(modulus);
    var n, bits := BlockSize(modulus), BitLen(modulus);
    assert bits > 0 by {
      if bits == 0 { Pow2Values(); }
    }
    Pow2Mono(8 * (n - 1), bits - 1);
    Pow2Mono(bits, 8 * n);
  }

  /** The integer of the block, which the constructor reads as two's complement. */
  function BlockNumber(b: seq<Byte>): int { ByteNumber(b) - if IsNegative(b) then Pow2(8 * |b|) else 0 }

  /** The leading 00 02 makes the integer nonnegative and smaller than every modulus of that size. */
  lemma PaddedRange(b: seq<Byte>, s: Text, modulus: nat, ps: seq<Byte>)
    requires IsBlock(b, s, BlockSize(modulus), ps) && |Encode(s)| <= BlockSize(modulus) - 3
    ensures BlockSize(modulus) >= 2 && BlockNumber(b) == ByteNumber(b)
    ensures var w := Pow2(8 * (BlockSize(modulus) - 2)); 2 * w <= BlockNumber(b) < 3 * w && 0x100 * w <= modulus
  {
    hide ByteNumber, Pow2, BitLen, Encode;
    var n := BlockSize(modulus);
    var rest := ps + [0] + Encode(s);
    assert b == [0, 2] + rest;
    LeadingBytes();
    ByteNumberJoin([0, 2], rest);
    ByteNumberBound(rest);
    BitLenBounds(modulus);
    Pow2Add(8 * (n - 2), 8);
    Pow2Values();
    Pow2Mono(8 * (n - 2) + 8, BitLen(modulus) - 1);
  }

  lemma LeadingBytes()
    ensures ByteNumber([0, 2]) == 2
  {
    assert [0, 2][1..] == [2] && [2][1..] == [] && Pow2(0) == 1;
  }

  /** What was padded can be recovered from the integer: different texts give different integers. */
  lemma PaddedDetermines(b: seq<Byte>, s: Text, ps: seq<Byte>, b': seq<Byte>, s': Text, ps': seq<Byte>, modulus: nat)
    requires IsBlock(b, s, BlockSize(modulus), ps) && 0 !in ps && |Encode(s)| <= BlockSize(modulus) - 11
    requires IsBlock(b', s', BlockSize(modulus), ps') && 0 !in ps' && |Encode(s')| <= BlockSize(modulus) - 11
    requires BlockNumber(b) == BlockNumber(b')
    ensures s == s'
  {
    PaddedRange(b, s, modulus, ps);
    PaddedRange(b', s', modulus, ps');
    hide Encode, Decode, BlockNumber, ByteNumber, Unpad, BlockSize;
    ByteNumberUnique(b, b');
    LengthCheck(s, BlockSize(modulus));
    LengthCheck(s', BlockSize(modulus));
    UnpadBlock(b, s, BlockSize(modulus), ps);
    UnpadBlock(b', s', BlockSize(modulus), ps');
  }

  /** rsa.js line 28: null for a text with too many code units, else the integer of its block. */
  method Pkcs1Pad2(s: Text, n: int, rng: SecureRandom)
    returns (r: BigInteger?, ghost b: seq<Byte>, ghost ps: seq<Byte>)
    requires rng.Valid()
    modifies rng`pos
    ensures r == null <==> n < |s| + 11
    ensures r != null ==> fresh(r) && r.Valid() && r.Clamped() && r.Value() == BlockNumber(b)
    ensures r != null ==> Drawn(rng.stream, old(rng.pos), rng.pos, ps) && IsBlock(b, s, n, ps)
  {
    hide IsBlock, Drawn;
    b := [];
    var ba;
    ba, ps := PadBlock(s, n, rng);
    if ba.None? {
      return null, b, ps;
    }
    b := ba.value;
    r := new BigInteger();
    FromBytes(r, ba.value);
  }
}
