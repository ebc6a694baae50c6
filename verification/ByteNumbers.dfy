/** The number that a sequence of bytes writes, most significant byte first. */
module ByteNumbers {
  import opened Arith
  import opened JsNumbers

  /** Only the low 8 bits of each byte count, so signed bytes may be used as well. */
  function ByteNumber(s: seq<int>): int {
    if s == [] then 0 else (s[0] % 0x100) * Pow2(8 * (|s| - 1)) + ByteNumber(s[1..])
  }

  lemma ByteNumberFirst(a: seq<int>)
    ensures ByteNumber([]) == 0 && Pow2(0) == 1
    ensures a != [] ==> ByteNumber(a) == (a[0] % 0x100) * Pow2(8 * (|a| - 1)) + ByteNumber(a[1..])
  {
  }

  lemma {:induction false} ByteNumberJoin(a: seq<int>, b: seq<int>)
    ensures ByteNumber(a + b) == ByteNumber(a) * Pow2(8 * |b|) + ByteNumber(b)
  {
    hide ByteNumber, Pow2;
    ByteNumberFirst(a);
    if a == [] {
      assert a + b == b;
    } else {
      var x, p, q := a[0] % 0x100, Pow2(8 * (|a| - 1)), Pow2(8 * |b|);
      ByteNumberFirst(a + b);
      assert (a + b)[1..] == a[1..] + b;
      ByteNumberJoin(a[1..], b);
      Pow2Add(8 * (|a| - 1), 8 * |b|);
      assert 8 * (|a| - 1) + 8 * |b| == 8 * (|a + b| - 1);
      MulDistrib(q, x * p, ByteNumber(a[1..]));
      MulAssoc(x, p, q);
    }
  }

  lemma {:induction false} ByteNumberBound(a: seq<int>)
    ensures 0 <= ByteNumber(a) < Pow2(8 * |a|)
  {
    hide ByteNumber, Pow2;
    ByteNumberFirst(a);
    if a != [] {
      ByteNumberBound(a[1..]);
      var x, p := a[0] % 0x100, Pow2(8 * (|a| - 1));
      Pow2Add(8 * (|a| - 1), 8);
      Pow2Values();
      MulMono(p, 0, x);
      MulMono(p, x, 0xFF);
    }
  }

  /** Another byte at the end. */
  lemma ByteNumberLast(b: seq<int>)
    requires b != []
    ensures ByteNumber(b) == ByteNumber(b[..|b| - 1]) * 0x100 + b[|b| - 1] % 0x100
  {
    hide ByteNumber, Pow2;
    var x := b[|b| - 1];
    assert b == b[..|b| - 1] + [x];
    ByteNumberJoin(b[..|b| - 1], [x]);
    ByteNumberFirst([x]);
    assert [x][1..] == [] && 8 * (|[x]| - 1) == 0 && 8 * |[x]| == 8;
    Pow2Values();
  }

  lemma ByteNumberMod(b: seq<int>)
    ensures ByteNumber(b) % Pow2(8 * |b|) == ByteNumber(b)
  {
    hide ByteNumber, Pow2;
    ByteNumberBound(b);
    FloorDiv(ByteNumber(b), Pow2(8 * |b|), 0, ByteNumber(b));
  }
}
