/** base64.js: an encoder that takes three hexadecimal digits at a time and a decoder with four states. */
module Base64 {
  import opened Arith
  import opened ByteNumbers
  import opened JsNumbers
  import opened Radix

  /** Hexadecimal digits for m = 16, values of letters for m = 64, bytes for m = 256. */
  predicate AllBelow(s: seq<int>, m: int) { forall i :: 0 <= i < |s| ==> 0 <= s[i] < m }

  /** `b64map.indexOf(c)` */
  function Index(c: char): int {
    if 'A' <= c <= 'Z' then c as int - 'A' as int
    else if 'a' <= c <= 'z' then c as int - 'a' as int + 26
    else if '0' <= c <= '9' then c as int - '0' as int + 52
    else if c == '+' then 62
    else if c == '/' then 63
    else -1
  }

  /** `b64map.charAt(v)`: table 1 of RFC 4648. */
  function Letter(v: int): (c: char)
    requires 0 <= v < 64
    ensures Index(c) == v && c != '='
  {
    if v < 26 then ('A' as int + v) as char
    else if v < 52 then ('a' as int + (v - 26)) as char
    else if v < 62 then ('0' as int + (v - 52)) as char
    else if v == 62 then '+' else '/'
  }

  /** Line 1 of base64.js. */
  const CAPITAL_LETTERS: string := "ABCDEFGHIJKLMNOPQRSTUVWXYZ"
  const SMALL_LETTERS: string := "abcdefghijklmnopqrstuvwxyz"
  const ALPHABET: string := CAPITAL_LETTERS + SMALL_LETTERS + "0123456789" + "+/"

  lemma LetterChar(n: int)
    requires 0 <= n < 26
    ensures |CAPITAL_LETTERS| == 26 && CAPITAL_LETTERS[n] as int == n + 65
    ensures |SMALL_LETTERS| == 26 && SMALL_LETTERS[n] as int == n + 97
  {
  }

  lemma DecimalChar(n: int)
    requires 0 <= n < 10
    ensures "0123456789"[n] as int == n + 48
  {
  }

  lemma AlphabetChar(v: int)
    requires 0 <= v < 64
    ensures |ALPHABET| == 64 && ALPHABET[v] as int ==
      if v < 26 then v + 65 else if v < 52 then v + 71 else if v < 62 then v - 4 else if v == 62 then 43 else 47
  {
    hide CAPITAL_LETTERS, SMALL_LETTERS;
    LetterChar(if v < 26 then v else if v < 52 then v - 26 else 0);
    DecimalChar(if 52 <= v < 62 then v - 52 else 0);
  }

  /** Letter v is character v of the table. */
  lemma LetterIs(v: int)
    requires 0 <= v < 64
    ensures |ALPHABET| == 64 && Letter(v) == ALPHABET[v] && Index(ALPHABET[v]) == v
  {
    hide ALPHABET, Index;
    AlphabetChar(v);
    SameChar(Letter(v), ALPHABET[v]);
  }

  lemma SameChar(c: char, d: char)
    requires c as int == d as int
    ensures c == d
  {
  }

  /** No other character has an index. */
  lemma IndexIs(c: char)
    ensures -1 <= Index(c) < 64 == |ALPHABET| && (Index(c) >= 0 ==> ALPHABET[Index(c)] == c)
  {
    hide ALPHABET;
    AlphabetChar(0);
    if Index(c) >= 0 {
      AlphabetChar(Index(c));
      SameChar(c, ALPHABET[Index(c)]);
    }
  }

  function Letters(v: seq<int>): (s: string)
    requires AllBelow(v, 64)
    ensures |s| == |v|
  {
    if v == [] then [] else [Letter(v[0])] + Letters(v[1..])
  }

  lemma {:induction false} LettersJoin(a: seq<int>, b: seq<int>)
    requires AllBelow(a, 64) && AllBelow(b, 64)
    ensures Letters(a + b) == Letters(a) + Letters(b)
  {
    if a == [] {
      assert a + b == b;
    } else {
      assert (a + b)[1..] == a[1..] + b;
      LettersJoin(a[1..], b);
    }
  }

  function DigitsOf(h: string): (d: seq<int>)
    requires AllHex(h)
    ensures |d| == |h| && AllBelow(d, 16) && forall i :: 0 <= i < |h| ==> d[i] == IntAt(h[i])
  {
    seq(|h|, i requires 0 <= i < |h| => IntAt(h[i]))
  }

  function HexOf(d: seq<int>): (h: string)
    requires AllBelow(d, 16)
    ensures |h| == |d| && forall i :: 0 <= i < |d| ==> h[i] == Int2Char(d[i])
  {
    seq(|d|, i requires 0 <= i < |d| => Int2Char(d[i]))
  }

  /** 12 bits at a time; the last one or two digits are followed by zero bits. */
  function ToSextets(d: seq<int>): seq<int> {
    if d == [] then []
    else if |d| == 1 then [ShiftedLeft(d[0], 4)]
    else if |d| == 2 then Couple(d[0], d[1])
    else Triple(d[0], d[1], d[2]) + ToSextets(d[3..])
  }

  function ShiftedLeft(x: int, m: int): int { x * m }

  function Couple(x: int, y: int): (p: seq<int>)
    ensures |p| == 2
  {
    var c := 16 * x + y;
    [c / 4, c % 4 * 16]
  }

  function Triple(x: int, y: int, z: int): (p: seq<int>)
    ensures |p| == 2
  {
    var c := 256 * x + 16 * y + z;
    [c / 64, c % 64]
  }

  /** The number that digits of k bits write. */
  function Positional(d: seq<int>, k: nat): int {
    if d == [] then 0 else d[0] * Pow2(k * (|d| - 1)) + Positional(d[1..], k)
  }

  lemma PositionalFirst(d: seq<int>, k: nat)
    ensures d == [] ==> Positional(d, k) == 0
    ensures d != [] ==> Positional(d, k) == d[0] * Pow2(k * (|d| - 1)) + Positional(d[1..], k)
  {
  }

  lemma {:induction false} PositionalJoin(a: seq<int>, b: seq<int>, k: nat)
    ensures Positional(a + b, k) == Positional(a, k) * Pow2(k * |b|) + Positional(b, k)
  {
    hide Positional, Pow2;
    PositionalFirst(a, k);
    if a == [] {
      assert a + b == b;
    } else {
      PositionalFirst(a + b, k);
      assert (a + b)[1..] == a[1..] + b;
      PositionalJoin(a[1..], b, k);
      Pow2Add(k * (|a| - 1), k * |b|);
      MulDistrib(k, |a| - 1, |b|);
      AppendArith(a[0], Pow2(k * (|a| - 1)), Pow2(k * |b|), Positional(a[1..], k), Positional(b, k));
    }
  }

  lemma PositionalLast(a: seq<int>, x: int, k: nat)
    ensures Positional(a + [x], k) == Positional(a, k) * Pow2(k) + x
  {
    hide Positional, Pow2;
    PositionalJoin(a, [x], k);
    PositionalFirst([x], k);
    PositionalFirst([], k);
    assert [x][1..] == [] && k * 1 == k && k * 0 == 0;
    Pow2Values();
  }

  lemma FewHexDigits(x: int, y: int, z: int)
    ensures Positional([], 4) == 0 && Positional([x], 4) == x && Positional([x, y], 4) == 16 * x + y
    ensures Positional([x, y, z], 4) == 256 * x + 16 * y + z
  {
    hide Positional, Pow2;
    Pow2Values();
    PositionalFirst([], 4);
    PositionalLast([], x, 4);
    PositionalLast([x], y, 4);
    PositionalLast([x, y], z, 4);
    assert [] + [x] == [x] && [x] + [y] == [x, y] && [x, y] + [z] == [x, y, z];
  }

  lemma FewSextets(x: int, y: int, z: int)
    ensures Positional([], 6) == 0 && Positional([x], 6) == x && Positional([x, y], 6) == 64 * x + y
    ensures Positional([x, y, z], 6) == 4096 * x + 64 * y + z
  {
    hide Positional, Pow2;
    Pow2Add(2, 4);
    Pow2Values();
    PositionalFirst([], 6);
    PositionalLast([], x, 6);
    PositionalLast([x], y, 6);
    PositionalLast([x, y], z, 6);
    assert [] + [x] == [x] && [x] + [y] == [x, y] && [x, y] + [z] == [x, y, z];
  }

  /** What the zero bits behind n digits multiply their number by. */
  function Scale(n: nat): int { if n % 3 == 0 then 1 else if n % 3 == 1 then 4 else 16 }

  lemma ThreeFewer(n: nat)
    requires n >= 3
    ensures Scale(n - 3) == Scale(n) && (2 * n + 2) / 3 == 2 + (2 * (n - 3) + 2) / 3
  {
    FloorDiv(n - 3, 3, n / 3 - 1, n % 3);
  }

  lemma LetterBits(n: nat)
    ensures (2 * n + 2) / 3 >= 0 && Pow2(6 * ((2 * n + 2) / 3)) == Pow2(4 * n) * Scale(n)
  {
    hide Pow2;
    Pow2Values();
    var q, r := n / 3, n % 3;
    FloorDiv(2 * n + 2, 3, 2 * q + r, 2 - r);
    Pow2Add(4 * n, 2 * r);
    assert 6 * (2 * q + r) == 4 * n + 2 * r;
  }

  /** The values of the letters write the same number as the hexadecimal digits, but for zero bits at the end that fill
      the last letter. */
  lemma {:induction false} ToSextetsValue(d: seq<int>)
    requires AllBelow(d, 16)
    ensures |ToSextets(d)| == (2 * |d| + 2) / 3
    ensures Positional(ToSextets(d), 6) == Positional(d, 4) * Scale(|d|)
  {
    EncodeUnfold(d);
    hide ToSextets, Positional, Triple, Couple, ShiftedLeft, Pow2;
    if |d| < 3 {
      ShortValue(d);
    } else {
      var rest := d[3..];
      ToSextetsValue(rest);
      ThreeFewer(|d|);
      TripleValue(d[0], d[1], d[2]);
      PositionalJoin(Triple(d[0], d[1], d[2]), ToSextets(rest), 6);
      PositionalJoin(d[..3], rest, 4);
      assert d == d[..3] + rest && d[..3] == [d[0], d[1], d[2]];
      LetterBits(|rest|);
      var w, p, a := Positional(d[..3], 4), Pow2(4 * |rest|), Scale(|d|);
      MulAssoc(w, p, a);
      MulDistrib(a, w * p, Positional(rest, 4));
    }
  }

  lemma ShortValue(d: seq<int>)
    requires AllBelow(d, 16) && |d| < 3
    ensures |ToSextets(d)| == (2 * |d| + 2) / 3 && Positional(ToSextets(d), 6) == Positional(d, 4) * Scale(|d|)
  {
    EncodeUnfold(d);
    hide ToSextets, Positional;
    var x, y := if |d| > 0 then d[0] else 0, if |d| > 1 then d[1] else 0;
    assert d == if |d| == 0 then [] else if |d| == 1 then [x] else [x, y];
    FewHexDigits(x, y, 0);
    FewSextets(4 * x, 0, 0);
    CoupleValue(x, y);
  }

  lemma CoupleValue(x: int, y: int)
    ensures Positional(Couple(x, y), 6) == 16 * (16 * x + y)
  {
    hide Positional;
    var c := 16 * x + y;
    FewSextets(c / 4, c % 4 * 16, 0);
  }

  lemma TripleValue(x: int, y: int, z: int)
    ensures Positional(Triple(x, y, z), 6) == Positional([x, y, z], 4)
  {
    hide Positional;
    var c := 256 * x + 16 * y + z;
    FewSextets(c / 64, c % 64, 0);
    FewHexDigits(x, y, z);
  }

  lemma {:induction false} EncodeIsLetters(d: seq<int>)
    requires AllBelow(d, 16)
    ensures AllBelow(ToSextets(d), 64)
  {
    if |d| > 2 {
      var c := 256 * d[0] + 16 * d[1] + d[2];
      assert 0 <= c < 4096;
      EncodeIsLetters(d[3..]);
    }
  }

  /** `v >> 2`, `v & 3`, `v & 0xf` and `(slop << 2) | (v >> 4)`. */
  function High(v: int): int { v / 4 }

  function Low2(v: int): int { v % 4 }

  function Low4(v: int): int { v % 16 }

  function Across(slop: int, v: int): int { slop * 4 + v / 16 }

  /** The digits that are complete, and for a lone last letter a second one out of its two remaining bits. */
  function FromSextets(v: seq<int>): seq<int> {
    if v == [] then []
    else if |v| == 1 then [High(v[0]), ShiftedLeft(Low2(v[0]), 4)]
    else if |v| == 2 then [High(v[0]), Across(Low2(v[0]), v[1])]
    else if |v| == 3 then [High(v[0]), Across(Low2(v[0]), v[1]), Low4(v[1]), High(v[2])]
    else Quad(v[0], v[1], v[2], v[3]) + FromSextets(v[4..])
  }

  function Quad(a: int, b: int, c: int, d: int): seq<int> {
    [High(a), Across(Low2(a), b), Low4(b), High(c), Across(Low2(c), d), Low4(d)]
  }

  lemma TripleBack(x: int, y: int, z: int)
    requires 0 <= x < 16 && 0 <= y < 16 && 0 <= z < 16
    ensures var p := Triple(x, y, z); High(p[0]) == x && Across(Low2(p[0]), p[1]) == y && Low4(p[1]) == z
  {
    var c := 256 * x + 16 * y + z;
    assert c / 64 == 4 * x + y / 4 && c % 64 == 16 * (y % 4) + z;
  }

  lemma TriplesBack(a: int, b: int, c: int, d: int, e: int, f: int)
    requires 0 <= a < 16 && 0 <= b < 16 && 0 <= c < 16 && 0 <= d < 16 && 0 <= e < 16 && 0 <= f < 16
    ensures var p, q := Triple(a, b, c), Triple(d, e, f); Quad(p[0], p[1], q[0], q[1]) == [a, b, c, d, e, f]
  {
    hide Triple;
    TripleBack(a, b, c);
    TripleBack(d, e, f);
  }

  /** What the decoder makes of an encoded sequence: the same digits if they are whole bytes. Of three digits (modulo
      six) the last one is lost, and an odd digit otherwise gets a 0 behind it. */
  function Settled(d: seq<int>): seq<int> {
    if |d| % 2 == 0 then d else if |d| % 6 == 3 then d[..|d| - 1] else d + [0]
  }

  lemma EncodeUnfold(d: seq<int>)
    ensures d == [] ==> ToSextets(d) == []
    ensures |d| == 1 ==> ToSextets(d) == [ShiftedLeft(d[0], 4)]
    ensures |d| == 2 ==> ToSextets(d) == Couple(d[0], d[1])
    ensures |d| >= 3 ==> ToSextets(d) == Triple(d[0], d[1], d[2]) + ToSextets(d[3..])
  {
  }

  lemma DecodeUnfold(a: int, b: int, c: int, d: int, rest: seq<int>)
    ensures FromSextets([]) == [] && FromSextets([a]) == [High(a), ShiftedLeft(Low2(a), 4)]
    ensures FromSextets([a, b]) == [High(a), Across(Low2(a), b)]
    ensures FromSextets([a, b, c]) == [High(a), Across(Low2(a), b), Low4(b), High(c)]
    ensures FromSextets([a, b, c, d] + rest) == Quad(a, b, c, d) + FromSextets(rest)
  {
    hide Quad, High, Low2, Low4, Across, ShiftedLeft;
    assert ([a, b, c, d] + rest)[4..] == rest;
  }

  lemma DecodeOne(x: int)
    requires 0 <= x < 16
    ensures FromSextets([ShiftedLeft(x, 4)]) == [x, 0]
  {
    hide FromSextets, High, Low2, ShiftedLeft;
    FourTimes(x);
    DecodeUnfold(ShiftedLeft(x, 4), 0, 0, 0, []);
  }

  lemma FourTimes(x: int)
    ensures High(ShiftedLeft(x, 4)) == x && Low2(ShiftedLeft(x, 4)) == 0 && ShiftedLeft(0, 4) == 0
  {
    FloorDiv(4 * x, 4, x, 0);
  }

  lemma CoupleBack(x: int, y: int)
    requires 0 <= x < 16 && 0 <= y < 16
    ensures var p := Couple(x, y);
      p == [p[0], p[1]] && High(p[0]) == x && Across(Low2(p[0]), p[1]) == y && Low4(p[1]) == 0
  {
    var c := 16 * x + y;
    assert c / 4 == 4 * x + y / 4 && c % 4 == y % 4;
  }

  lemma DecodeTwo(x: int, y: int)
    requires 0 <= x < 16 && 0 <= y < 16
    ensures FromSextets(Couple(x, y)) == [x, y]
  {
    hide FromSextets, Couple;
    CoupleBack(x, y);
    DecodeUnfold(Couple(x, y)[0], Couple(x, y)[1], 0, 0, []);
  }

  lemma TripleLength(x: int, y: int, z: int)
    ensures var p := Triple(x, y, z); p == [p[0], p[1]]
  {
  }

  lemma DecodeThree(x: int, y: int, z: int)
    requires 0 <= x < 16 && 0 <= y < 16 && 0 <= z < 16
    ensures FromSextets(Triple(x, y, z) + []) == [x, y]
  {
    hide FromSextets, Triple;
    TripleBack(x, y, z);
    TripleLength(x, y, z);
    DecodeUnfold(Triple(x, y, z)[0], Triple(x, y, z)[1], 0, 0, []);
    assert Triple(x, y, z) + [] == Triple(x, y, z);
  }

  lemma DecodeFour(x: int, y: int, z: int, w: int)
    requires 0 <= x < 16 && 0 <= y < 16 && 0 <= z < 16 && 0 <= w < 16
    ensures FromSextets(Triple(x, y, z) + [ShiftedLeft(w, 4)]) == [x, y, z, w]
  {
    hide FromSextets, Triple;
    TripleBack(x, y, z);
    TripleLength(x, y, z);
    DecodeUnfold(Triple(x, y, z)[0], Triple(x, y, z)[1], 4 * w, 0, []);
    assert Triple(x, y, z) + [ShiftedLeft(w, 4)] == [Triple(x, y, z)[0], Triple(x, y, z)[1], 4 * w];
  }

  lemma DecodeFive(x: int, y: int, z: int, w: int, u: int)
    requires 0 <= x < 16 && 0 <= y < 16 && 0 <= z < 16 && 0 <= w < 16 && 0 <= u < 16
    ensures FromSextets(Triple(x, y, z) + Couple(w, u)) == [x, y, z, w, u, 0]
  {
    hide FromSextets, Triple, Couple;
    TripleBack(x, y, z);
    TripleLength(x, y, z);
    CoupleBack(w, u);
    var p, q := Triple(x, y, z), Couple(w, u);
    DecodeUnfold(p[0], p[1], q[0], q[1], []);
    assert p + q == [p[0], p[1], q[0], q[1]] + [];
  }

  lemma DecodeShort(d: seq<int>)
    requires |d| < 6 && AllBelow(d, 16)
    ensures FromSextets(ToSextets(d)) == Settled(d)
  {
    hide ToSextets, FromSextets, Triple, Couple, Quad, ShiftedLeft, Settled;
    EncodeUnfold(d);
    SettledShort(d);
    if d == [] {
      DecodeUnfold(0, 0, 0, 0, []);
    } else if |d| == 1 {
      DecodeOne(d[0]);
    } else if |d| == 2 {
      DecodeTwo(d[0], d[1]);
    } else {
      EncodeUnfold(d[3..]);
      if |d| == 3 {
        DecodeThree(d[0], d[1], d[2]);
      } else if |d| == 4 {
        DecodeFour(d[0], d[1], d[2], d[3]);
      } else {
        DecodeFive(d[0], d[1], d[2], d[3], d[4]);
      }
    }
  }

  lemma SettledShort(d: seq<int>)
    ensures d == [] ==> Settled(d) == []
    ensures |d| == 1 ==> Settled(d) == [d[0], 0]
    ensures |d| == 2 ==> Settled(d) == [d[0], d[1]]
    ensures |d| == 3 ==> Settled(d) == [d[0], d[1]]
    ensures |d| == 4 ==> Settled(d) == [d[0], d[1], d[2], d[3]]
    ensures |d| == 5 ==> Settled(d) == [d[0], d[1], d[2], d[3], d[4], 0]
  {
  }

  lemma DecodeSix(d: seq<int>)
    requires |d| >= 6 && AllBelow(d, 16)
    ensures FromSextets(ToSextets(d)) == d[..6] + FromSextets(ToSextets(d[6..]))
  {
    hide Triple, Quad, ToSextets, FromSextets, High, Low2, Low4, Across;
    EncodeUnfold(d);
    EncodeUnfold(d[3..]);
    assert d[3..][3..] == d[6..];
    var p, q, rest := Triple(d[0], d[1], d[2]), Triple(d[3], d[4], d[5]), ToSextets(d[6..]);
    TripleLength(d[0], d[1], d[2]);
    TripleLength(d[3], d[4], d[5]);
    DecodeUnfold(p[0], p[1], q[0], q[1], rest);
    assert p + (q + rest) == [p[0], p[1], q[0], q[1]] + rest;
    TriplesBack(d[0], d[1], d[2], d[3], d[4], d[5]);
    assert d[..6] == [d[0], d[1], d[2], d[3], d[4], d[5]];
  }

  lemma SettledMore(d: seq<int>)
    requires |d| >= 6
    ensures Settled(d) == d[..6] + Settled(d[6..])
  {
    var e := d[6..];
    SixFewer(|d|);
    assert d == d[..6] + e;
    if |d| % 6 == 3 {
      assert d[..|d| - 1] == d[..6] + e[..|e| - 1];
    }
    assert d + [0] == d[..6] + (e + [0]);
  }

  lemma SixFewer(n: nat)
    requires n >= 6
    ensures (n - 6) % 2 == n % 2 && (n - 6) % 6 == n % 6
  {
    FloorDiv(n - 6, 6, n / 6 - 1, n % 6);
  }

  lemma {:induction false} SextetsBack(d: seq<int>)
    requires AllBelow(d, 16)
    ensures FromSextets(ToSextets(d)) == Settled(d)
  {
    hide ToSextets, FromSextets, Settled;
    if |d| < 6 {
      DecodeShort(d);
    } else {
      DecodeSix(d);
      SextetsBack(d[6..]);
      SettledMore(d);
    }
  }

  function Pads(n: nat): string { if n == 0 then "" else Pads(n - 1) + "=" }

  /** How many characters are missing to a multiple of four. */
  function PadLength(n: nat): nat { (4 - n % 4) % 4 }

  /** The fewest characters that make the length a multiple of four. */
  lemma PadFills(n: nat)
    ensures (n + PadLength(n)) % 4 == 0 && PadLength(n) < 4
  {
    hide PadLength;
    PadIsMissing(n, PadLength(n));
  }

  lemma PadIsMissing(n: nat, pads: nat)
    requires pads <= PadLength(n)
    ensures PadLength(n) < 4 && ((n + pads) % 4 > 0 <==> pads < PadLength(n))
  {
    FloorDiv(n + pads, 4, n / 4 + (n % 4 + pads) / 4, (n % 4 + pads) % 4);
  }

  /** Letters, and as many pad characters as make them a multiple of four. */
  function Padded(v: seq<int>): string
    requires AllBelow(v, 64)
  {
    Letters(v) + Pads(PadLength(|v|))
  }

  /** base64.js lines 8-19. */
  method EncodeDigits(h: string) returns (ret: string)
    requires AllHex(h)
    ensures AllBelow(ToSextets(DigitsOf(h)), 64) && ret == Letters(ToSextets(DigitsOf(h)))
  {
    hide IntAt, Letter, Index, ToSextets, Letters, Triple, Couple;
    ret := "";
    var i := 0;
    ghost var d := DigitsOf(h);
    ghost var v: seq<int> := [];
    EncodeIsLetters(d);
    NoLetters();
    while i + 3 <= |h|
      invariant 0 <= i <= |h|
      invariant AllBelow(v, 64) && ret == Letters(v) && ToSextets(d) == v + ToSextets(d[i..])
      decreases |h| - i
    {
      EncodeUnfold(d[i..]);
      assert d[i..][3..] == d[i + 3..];
      var c := 256 * IntAt(h[i]) + 16 * IntAt(h[i + 1]) + IntAt(h[i + 2]);
      TripleIs(d[i], d[i + 1], d[i + 2]);
      ret := ret + [Letter(Shr(c, 64)), Letter(Mask(c, 64))];
      TwoLetters(v, Shr(c, 64), Mask(c, 64));
      v := v + [Shr(c, 64), Mask(c, 64)];
      i := i + 3;
    }
    EncodeUnfold(d[i..]);
    if i + 1 == |h| {
      var c := IntAt(h[i]);
      ret := ret + [Letter(Shl(c, 4))];
      OneLetter(v, Shl(c, 4));
    } else if i + 2 == |h| {
      var c := 16 * IntAt(h[i]) + IntAt(h[i + 1]);
      CoupleIs(d[i], d[i + 1]);
      ret := ret + [Letter(Shr(c, 4)), Letter(Shl(Mask(c, 4), 16))];
      TwoLetters(v, Shr(c, 4), Shl(Mask(c, 4), 16));
    } else {
      assert ToSextets(d) == v + [] == v;
    }
  }

  /** base64.js line 4, for a string of hexadecimal digits. */
  method Hex2B64(h: string) returns (ret: string)
    requires AllHex(h)
    ensures AllBelow(ToSextets(DigitsOf(h)), 64) && ret == Padded(ToSextets(DigitsOf(h)))
  {
    hide Pads, ToSextets, Letters, DigitsOf, PadLength;
    ret := EncodeDigits(h);
    ghost var v := ToSextets(DigitsOf(h));
    PadNone();
    ghost var n := 0;
    PadIsMissing(|v|, 0);
    while |ret| % 4 > 0
      invariant 0 <= n <= PadLength(|v|) && ret == Letters(v) + Pads(n) && |ret| == |v| + n
      invariant |ret| % 4 > 0 <==> n < PadLength(|v|)
      decreases PadLength(|v|) - n
    {
      PadOne(n);
      PadIsMissing(|v|, n + 1);
      ret := ret + "=";
      n := n + 1;
    }
  }

  lemma NoLetters()
    ensures Letters([]) == ""
  {
  }

  lemma TripleIs(x: int, y: int, z: int)
    requires 0 <= x < 16 && 0 <= y < 16 && 0 <= z < 16
    ensures var c := 256 * x + 16 * y + z; Triple(x, y, z) == [Shr(c, 64), Mask(c, 64)] && 0 <= Shr(c, 64) < 64
  {
  }

  lemma CoupleIs(x: int, y: int)
    requires 0 <= x < 16 && 0 <= y < 16
    ensures var c := 16 * x + y;
      Couple(x, y) == [Shr(c, 4), Shl(Mask(c, 4), 16)] && 0 <= Shr(c, 4) < 64 && 0 <= Shl(Mask(c, 4), 16) < 64
  {
  }

  lemma OneLetter(v: seq<int>, x: int)
    requires AllBelow(v, 64) && 0 <= x < 64
    ensures Letters(v + [x]) == Letters(v) + [Letter(x)]
  {
    LettersJoin(v, [x]);
    assert [x][1..] == [];
  }

  lemma TwoLetters(v: seq<int>, x: int, y: int)
    requires AllBelow(v, 64) && 0 <= x < 64 && 0 <= y < 64
    ensures Letters(v + [x, y]) == Letters(v) + [Letter(x), Letter(y)]
  {
    OneLetter(v, x);
    OneLetter(v + [x], y);
    assert v + [x, y] == v + [x] + [y];
  }

  lemma PadNone()
    ensures Pads(0) == ""
  {
  }

  lemma PadOne(n: nat)
    ensures Pads(n + 1) == Pads(n) + "="
  {
  }

  /** The values of the letters up to the first pad character; other characters are skipped. */
  function Values(s: string): (v: seq<int>)
    ensures AllBelow(v, 64)
  {
    if s == [] || s[0] == '=' then []
    else if Index(s[0]) < 0 then Values(s[1..])
    else [Index(s[0])] + Values(s[1..])
  }

  /** The digits write the number of the letters, without the bits that are left over; one lone letter keeps all. */
  function Cut(v: int, n: nat): int {
    if n % 4 == 0 then v else if n % 4 == 1 then v * 4 else if n % 4 == 2 then v / 16 else v / 4
  }

  function DigitCount(n: nat): nat { 6 * (n / 4) + if n % 4 == 0 then 0 else if n % 4 == 3 then 4 else 2 }

  lemma CutJoin(q: int, low: int, n: nat)
    ensures Cut(q * Pow2(6 * n) + low, n) == q * Pow2(4 * DigitCount(n)) + Cut(low, n)
  {
    hide Pow2;
    Pow2Values();
    var m := DigitCount(n);
    assert n == 4 * (n / 4) + n % 4;
    if n % 4 == 1 {
      Pow2Add(6 * n, 2);
      assert 6 * n + 2 == 4 * m;
      MulAssoc(q, Pow2(6 * n), 4);
    } else if n % 4 == 2 {
      Pow2Add(4 * m, 4);
      assert 4 * m + 4 == 6 * n;
      MulAssoc(q, Pow2(4 * m), 16);
    } else if n % 4 == 3 {
      Pow2Add(4 * m, 2);
      assert 4 * m + 2 == 6 * n;
      MulAssoc(q, Pow2(4 * m), 4);
    } else {
      assert 4 * m == 6 * n;
    }
  }

  lemma QuadLength(a: int, b: int, c: int, d: int)
    ensures |Quad(a, b, c, d)| == 6
  {
  }

  lemma QuadValue(a: int, b: int, c: int, d: int)
    requires 0 <= a < 64 && 0 <= b < 64 && 0 <= c < 64 && 0 <= d < 64
    ensures Positional(Quad(a, b, c, d), 4) == Positional([a, b, c, d], 6)
  {
    hide Positional;
    Pow2Add(12, 0);
    TwoLettersValue(a, b);
    TwoLettersValue(c, d);
    var x, y := [High(a), Across(Low2(a), b), Low4(b)], [High(c), Across(Low2(c), d), Low4(d)];
    assert Quad(a, b, c, d) == x + y && [a, b, c, d] == [a, b] + [c, d];
    PositionalJoin(x, y, 4);
    PositionalJoin([a, b], [c, d], 6);
  }

  lemma TwoLettersValue(a: int, b: int)
    requires 0 <= a < 64 && 0 <= b < 64
    ensures Positional([High(a), Across(Low2(a), b), Low4(b)], 4) == Positional([a, b], 6) == 64 * a + b
    ensures 16 * High(a) + Across(Low2(a), b) == (64 * a + b) / 16
  {
    hide Positional;
    FewHexDigits(High(a), Across(Low2(a), b), Low4(b));
    FewSextets(a, b, 0);
  }

  lemma ShortCut(v: seq<int>)
    requires AllBelow(v, 64) && |v| < 4
    ensures |FromSextets(v)| == DigitCount(|v|) && Positional(FromSextets(v), 4) == Cut(Positional(v, 6), |v|)
  {
    hide Positional, FromSextets;
    FewSextets(0, 0, 0);
    FewHexDigits(0, 0, 0);
    if |v| == 0 {
      assert v == [];
      DecodeUnfold(0, 0, 0, 0, []);
    } else if |v| == 1 {
      assert v == [v[0]];
      CutOne(v[0]);
    } else if |v| == 2 {
      assert v == [v[0], v[1]];
      CutTwo(v[0], v[1]);
    } else {
      assert v == [v[0], v[1], v[2]];
      CutThree(v[0], v[1], v[2]);
    }
  }

  lemma CutOne(a: int)
    requires 0 <= a < 64
    ensures |FromSextets([a])| == 2 && Positional(FromSextets([a]), 4) == 4 * Positional([a], 6)
  {
    hide Positional, FromSextets, High, Low2, Low4, Across, ShiftedLeft;
    LoneLetter(a);
    LoneDecoded(a);
    FewSextets(a, 0, 0);
    FewHexDigits(High(a), ShiftedLeft(Low2(a), 4), 0);
  }

  lemma LoneDecoded(a: int)
    ensures FromSextets([a]) == [High(a), ShiftedLeft(Low2(a), 4)]
  {
    hide High, Low2, ShiftedLeft;
  }

  lemma LoneLetter(a: int)
    ensures 16 * High(a) + ShiftedLeft(Low2(a), 4) == 4 * a
  {
    assert a == 4 * (a / 4) + a % 4;
  }

  lemma CutTwo(a: int, b: int)
    requires 0 <= a < 64 && 0 <= b < 64
    ensures |FromSextets([a, b])| == 2 && Positional(FromSextets([a, b]), 4) == Positional([a, b], 6) / 16
  {
    hide Positional, FromSextets, High, Low2, Low4, Across;
    DecodeUnfold(a, b, 0, 0, []);
    TwoLettersValue(a, b);
    FewHexDigits(High(a), Across(Low2(a), b), 0);
  }

  lemma CutThree(a: int, b: int, c: int)
    requires 0 <= a < 64 && 0 <= b < 64 && 0 <= c < 64
    ensures |FromSextets([a, b, c])| == 4 && Positional(FromSextets([a, b, c]), 4) == Positional([a, b, c], 6) / 4
  {
    var h := High(c);
    assert h == c / 4 && (4096 * a + 64 * b + c) / 4 == 16 * (64 * a + b) + c / 4;
    hide Positional, FromSextets, High, Low2, Low4, Across, Pow2;
    DecodeUnfold(a, b, c, 0, []);
    TwoLettersValue(a, b);
    FewSextets(a, b, c);
    Pow2Values();
    PositionalLast([High(a), Across(Low2(a), b), Low4(b)], h, 4);
    assert [High(a), Across(Low2(a), b), Low4(b)] + [h] == [High(a), Across(Low2(a), b), Low4(b), h];
  }

  lemma {:induction false} FromSextetsValue(v: seq<int>)
    requires AllBelow(v, 64)
    ensures |FromSextets(v)| == DigitCount(|v|)
    ensures Positional(FromSextets(v), 4) == Cut(Positional(v, 6), |v|)
  {
    hide FromSextets, Positional, Quad, Pow2;
    if |v| < 4 {
      ShortCut(v);
    } else {
      var rest := v[4..];
      FromSextetsValue(rest);
      DecodeMore(v);
      FourAndRest(v);
      QuadValue(v[0], v[1], v[2], v[3]);
      PositionalJoin(Quad(v[0], v[1], v[2], v[3]), FromSextets(rest), 4);
      PositionalJoin([v[0], v[1], v[2], v[3]], rest, 6);
      CutJoin(Positional([v[0], v[1], v[2], v[3]], 6), Positional(rest, 6), |rest|);
      FourFewer(|v|);
      assert |v| / 4 == |rest| / 4 + 1 && |Quad(v[0], v[1], v[2], v[3])| == 6 by { QuadLength(v[0], v[1], v[2], v[3]); }
    }
  }

  lemma {:induction false} ValuesSkip(a: string, c: char, b: string)
    ensures c == '=' ==> Values(a + [c] + b) == Values(a)
    ensures c != '=' && Index(c) < 0 ==> Values(a + [c] + b) == Values(a + b)
  {
    hide Index;
    var s := a + [c] + b;
    if a == "" {
      assert s[0] == c && s[1..] == b && a + b == b;
    } else {
      assert s[0] == a[0] && s[1..] == a[1..] + [c] + b && (a + b)[0] == a[0] && (a + b)[1..] == a[1..] + b;
      ValuesSkip(a[1..], c, b);
    }
  }

  /** What the decoder has written after v, and the bits that it still holds. */
  function Completed(v: seq<int>): seq<int> {
    if |v| == 1 then [High(v[0])] else if |v| < 4 then FromSextets(v) else Quad(v[0], v[1], v[2], v[3]) + Completed(v[4..])
  }

  function Slop(v: seq<int>): int
    requires v != []
  {
    var x := v[|v| - 1];
    if |v| % 4 == 2 then Low4(x) else Low2(x)
  }

  /** The digits that letter x completes after v. */
  function Completes(v: seq<int>, x: int): seq<int> {
    if |v| % 4 == 0 then [High(x)]
    else if |v| % 4 == 1 then [Across(Slop(v), x)]
    else if |v| % 4 == 2 then [Slop(v), High(x)]
    else [Across(Slop(v), x), Low4(x)]
  }

  lemma {:induction false} CompletedLast(v: seq<int>, x: int)
    ensures Completed(v + [x]) == Completed(v) + Completes(v, x)
  {
    hide Completed, Quad, Completes;
    if |v| < 4 {
      CompletedShort(v, x);
    } else {
      assert (v + [x])[4..] == v[4..] + [x];
      CompletedMore(v);
      CompletedMore(v + [x]);
      CompletesMore(v, x);
      CompletedLast(v[4..], x);
    }
  }

  lemma CompletesMore(v: seq<int>, x: int)
    requires |v| >= 4
    ensures Completes(v, x) == Completes(v[4..], x)
  {
    hide Slop, High, Across, Low4;
    FourFewer(|v|);
    if |v| > 4 {
      SlopMore(v);
    }
  }

  lemma SlopMore(v: seq<int>)
    requires |v| > 4
    ensures Slop(v) == Slop(v[4..])
  {
    hide Low2, Low4;
    FourFewer(|v|);
  }

  lemma FourFewer(n: nat)
    requires n >= 4
    ensures (n - 4) % 4 == n % 4 && (n > 4 || n % 4 == 0)
  {
    FloorDiv(n - 4, 4, n / 4 - 1, n % 4);
  }

  lemma CompletedMore(v: seq<int>)
    requires |v| >= 4
    ensures Completed(v) == Quad(v[0], v[1], v[2], v[3]) + Completed(v[4..])
  {
  }

  lemma CompletedUnfold(a: int, b: int, c: int, d: int)
    ensures Completed([]) == [] && Completed([a]) == [High(a)]
    ensures Completed([a, b]) == [High(a), Across(Low2(a), b)]
    ensures Completed([a, b, c]) == [High(a), Across(Low2(a), b), Low4(b), High(c)]
    ensures Completed([a, b, c, d]) == Quad(a, b, c, d)
  {
    hide Quad;
    assert [a, b, c, d][4..] == [];
    DecodeUnfold(a, b, c, d, []);
  }

  lemma CompletesUnfold(a: int, b: int, c: int, x: int)
    ensures Completes([], x) == [High(x)]
    ensures Completes([a], x) == [Across(Low2(a), x)]
    ensures Completes([a, b], x) == [Low4(b), High(x)]
    ensures Completes([a, b, c], x) == [Across(Low2(c), x), Low4(x)]
  {
  }

  lemma FirstLetters(a: int, b: int, c: int, x: int)
    ensures Completed([x]) == Completed([]) + Completes([], x)
    ensures Completed([a, x]) == Completed([a]) + Completes([a], x)
    ensures Completed([a, b, x]) == Completed([a, b]) + Completes([a, b], x)
    ensures Completed([a, b, c, x]) == Completed([a, b, c]) + Completes([a, b, c], x)
  {
    hide Completed, Completes, Slop, High, Low2, Low4, Across;
    CompletedUnfold(x, 0, 0, 0);
    CompletedUnfold(a, x, 0, 0);
    CompletedUnfold(a, b, x, 0);
    CompletedUnfold(a, b, c, x);
    CompletesUnfold(a, b, c, x);
  }

  lemma CompletedShort(v: seq<int>, x: int)
    requires |v| < 4
    ensures Completed(v + [x]) == Completed(v) + Completes(v, x)
  {
    hide Completed, Completes, Slop;
    var a, b, c := if |v| > 0 then v[0] else 0, if |v| > 1 then v[1] else 0, if |v| > 2 then v[2] else 0;
    FirstLetters(a, b, c, x);
    assert v == [] || v == [a] || v == [a, b] || v == [a, b, c];
    assert v + [x] == if |v| == 0 then [x] else if |v| == 1 then [a, x] else if |v| == 2 then [a, b, x] else [a, b, c, x];
  }

  lemma DecodeMore(v: seq<int>)
    requires |v| >= 4
    ensures FromSextets(v) == Quad(v[0], v[1], v[2], v[3]) + FromSextets(v[4..])
  {
    hide FromSextets, Quad, High, Low2, Low4, Across, ShiftedLeft;
    FourAndRest(v);
    DecodeUnfold(v[0], v[1], v[2], v[3], v[4..]);
  }

  lemma FourAndRest(v: seq<int>)
    requires |v| >= 4
    ensures v == [v[0], v[1], v[2], v[3]] + v[4..]
  {
  }

  /** The bits that are left over when the text ends. */
  function Rest(v: seq<int>): seq<int> { if |v| % 4 == 1 then [ShiftedLeft(Slop(v), 4)] else [] }

  lemma RestMore(v: seq<int>)
    requires |v| >= 4
    ensures Rest(v) == Rest(v[4..])
  {
    hide Slop, ShiftedLeft;
    FourFewer(|v|);
    if |v| > 4 {
      SlopMore(v);
    }
  }

  lemma OneIsCompleted(x: int)
    ensures FromSextets([x]) == Completed([x]) + Rest([x])
  {
    hide FromSextets, Completed, High, Low2, Low4, Across, ShiftedLeft;
    CompletedUnfold(x, 0, 0, 0);
    DecodeUnfold(x, 0, 0, 0, []);
  }

  lemma OthersAreCompleted(v: seq<int>)
    requires |v| < 4 && |v| != 1
    ensures Completed(v) == FromSextets(v) && Rest(v) == []
  {
    hide FromSextets;
  }

  lemma ShortIsCompleted(v: seq<int>)
    requires |v| < 4
    ensures FromSextets(v) == Completed(v) + Rest(v)
  {
    hide FromSextets, Completed, Rest;
    if |v| == 1 {
      OneIsCompleted(v[0]);
      assert v == [v[0]];
    } else {
      OthersAreCompleted(v);
    }
  }

  lemma {:induction false} DecodeIsCompleted(v: seq<int>)
    ensures FromSextets(v) == Completed(v) + Rest(v)
  {
    hide FromSextets, Completed, Rest, Quad;
    if |v| < 4 {
      ShortIsCompleted(v);
    } else {
      DecodeMore(v);
      CompletedMore(v);
      RestMore(v);
      DecodeIsCompleted(v[4..]);
    }
  }

  lemma {:induction false} CompletedIsDigits(v: seq<int>)
    requires AllBelow(v, 64)
    ensures AllBelow(Completed(v), 16) && AllBelow(FromSextets(v), 16)
  {
    if |v| >= 4 {
      CompletedIsDigits(v[4..]);
    }
  }

  /** The bit operations of the decoder. */
  lemma StepBits(slop: int, v: int)
    requires 0 <= v < 64 && 0 <= slop < 4
    ensures Shr(v, 4) == High(v) && Mask(v, 4) == Low2(v) && Mask(v, 16) == Low4(v)
    ensures ShlFits(slop, 4) && IsMultiple(Shl(slop, 4), 4) && 0 <= Shr(v, 16) < 4
    ensures Or(Shl(slop, 4), Shr(v, 16), 4) == Across(slop, v)
    ensures 0 <= High(v) < 16 && 0 <= Across(slop, v) < 16
  {
  }

  lemma TextMore(d: seq<int>, x: int)
    requires AllBelow(d, 16) && 0 <= x < 16
    ensures AllBelow(d + [x], 16) && HexOf(d + [x]) == HexOf(d) + [Int2Char(x)]
  {
    hide Int2Char;
  }

  /** base64.js lines 34-54: the digits that letter v adds in state k. */
  method Step(ret0: string, k: nat, slop0: int, v: int, ghost vs: seq<int>) returns (ret: string, k': nat, slop: int)
    requires 0 <= v < 64 && AllBelow(vs, 64) && AllBelow(Completed(vs), 16) && ret0 == HexOf(Completed(vs))
    requires k == |vs| % 4 && (k != 0 ==> slop0 == Slop(vs))
    ensures AllBelow(Completed(vs + [v]), 16) && ret == HexOf(Completed(vs + [v]))
    ensures k' == |vs + [v]| % 4 && (k' != 0 ==> slop == Slop(vs + [v]))
  {
    hide Completed, FromSextets, Quad, High, Low2, Low4, Across, Or, Shl, Shr, Mask, ShlFits, IsMultiple, HexOf, Int2Char;
    CompletedLast(vs, v);
    ghost var d := Completed(vs);
    ret, slop := ret0, slop0;
    if k == 0 {
      StepBits(0, v);
      TextMore(d, High(v));
      ret := ret + [Int2Char(Shr(v, 4))];
      slop := Mask(v, 4);
      k' := 1;
    } else if k == 1 {
      SlopBound(vs);
      StepBits(slop, v);
      TextMore(d, Across(slop, v));
      ret := ret + [Int2Char(Or(Shl(slop, 4), Shr(v, 16), 4))];
      slop := Mask(v, 16);
      k' := 2;
    } else if k == 2 {
      SlopBound(vs);
      StepBits(0, v);
      TextMore(d, slop);
      TextMore(d + [slop], High(v));
      assert d + [slop, High(v)] == d + [slop] + [High(v)];
      ret := ret + [Int2Char(slop)];
      ret := ret + [Int2Char(Shr(v, 4))];
      slop := Mask(v, 4);
      k' := 3;
    } else {
      SlopBound(vs);
      StepBits(slop, v);
      Low4Bound(v);
      TextMore(d, Across(slop, v));
      TextMore(d + [Across(slop, v)], Low4(v));
      assert d + [Across(slop, v), Low4(v)] == d + [Across(slop, v)] + [Low4(v)];
      ret := ret + [Int2Char(Or(Shl(slop, 4), Shr(v, 16), 4))];
      ret := ret + [Int2Char(Mask(v, 16))];
      k' := 0;
    }
  }

  lemma Low4Bound(v: int)
    ensures 0 <= Low4(v) < 16
  {
  }

  /** base64.js line 25, for every string. */
  method B64ToHex(s: string) returns (ret: string)
    ensures AllBelow(FromSextets(Values(s)), 16) && ret == HexOf(FromSextets(Values(s)))
  {
    hide Index, FromSextets, Slop, Completed, Quad;
    ret := "";
    var i, k, slop := 0, 0, 0;
    ghost var vs: seq<int> := [];
    NothingCompleted();
    while i < |s|
      invariant 0 <= i <= |s| && AllBelow(vs, 64) && AllBelow(Completed(vs), 16)
      invariant Values(s) == vs + Values(s[i..]) && ret == HexOf(Completed(vs))
      invariant k == |vs| % 4 && (k != 0 ==> slop == Slop(vs))
    {
      if s[i] == '=' {
        break;
      }
      var v := Index(s[i]);
      assert s[i..][1..] == s[i + 1..];
      if v >= 0 {
        IndexBound(s[i]);
        ret, k, slop := Step(ret, k, slop, v, vs);
        vs := vs + [v];
      }
      i := i + 1;
    }
    assert Values(s) == vs;
    DecodeIsCompleted(vs);
    CompletedIsDigits(vs);
    if k == 1 {
      SlopBound(vs);
      ret := ret + [Int2Char(Shl(slop, 4))];
    }
  }

  lemma IndexBound(c: char)
    ensures -1 <= Index(c) < 64
  {
  }

  lemma NothingCompleted()
    ensures Completed([]) == []
  {
  }

  lemma SlopBound(v: seq<int>)
    requires v != []
    ensures 0 <= Slop(v) < 16 && (|v| % 4 != 2 ==> Slop(v) < 4)
  {
  }

  lemma ValuesCons(x: int, s: string)
    requires 0 <= x < 64
    ensures Values([Letter(x)] + s) == [x] + Values(s)
  {
    hide Index, Letter;
    assert ([Letter(x)] + s)[1..] == s;
  }

  lemma {:induction false} ValuesOfLetters(v: seq<int>, n: nat)
    requires AllBelow(v, 64)
    ensures Values(Letters(v) + Pads(n)) == v
  {
    hide Index, Letter, Values, Pads;
    if v == [] {
      PadsAreSkipped(n);
      assert Letters(v) + Pads(n) == Pads(n);
    } else {
      assert Letters(v) + Pads(n) == [Letter(v[0])] + (Letters(v[1..]) + Pads(n));
      ValuesCons(v[0], Letters(v[1..]) + Pads(n));
      ValuesOfLetters(v[1..], n);
      assert [v[0]] + v[1..] == v;
    }
  }

  lemma {:induction false} PadsAreSkipped(n: nat)
    ensures Values(Pads(n)) == [] && (n > 0 ==> Pads(n)[0] == '=')
  {
    if n > 1 {
      PadsAreSkipped(n - 1);
    }
  }

  /** b64tohex(hex2b64(h)) is h in lower case exactly for the strings of whole bytes. */
  method HexRoundTrip(h: string) returns (r: string)
    requires AllHex(h)
    ensures r == HexOf(Settled(DigitsOf(h)))
    ensures r == h <==> |h| % 2 == 0 && forall i :: 0 <= i < |h| ==> !('A' <= h[i] <= 'Z')
  {
    hide ToSextets, FromSextets, Values, Letters, Settled, PadLength;
    var s := Hex2B64(h);
    r := B64ToHex(s);
    ValuesOfLetters(ToSextets(DigitsOf(h)), PadLength(|ToSextets(DigitsOf(h))|));
    SextetsBack(DigitsOf(h));
    SettledLength(DigitsOf(h));
    LowerCase(h);
  }

  lemma SettledLength(d: seq<int>)
    ensures if |d| % 2 == 0 then Settled(d) == d else |Settled(d)| != |d|
  {
  }

  lemma LowerCase(h: string)
    requires AllHex(h)
    ensures HexOf(DigitsOf(h)) == h <==> forall i :: 0 <= i < |h| ==> !('A' <= h[i] <= 'Z')
  {
    var r := HexOf(DigitsOf(h));
    assert forall i :: 0 <= i < |h| ==> (r[i] == h[i] <==> !('A' <= h[i] <= 'Z'));
  }

  /** The digits of bytes write the number of the bytes. */
  lemma {:induction false} DigitsOfBytesValue(b: seq<int>)
    requires AllBelow(b, 256)
    ensures Positional(DigitsOfBytes(b), 4) == ByteNumber(b)
  {
    hide Positional, ByteNumber, Pow2, HighNibble, LowNibble;
    ByteNumberFirst(b);
    if b == [] {
      PositionalFirst([], 4);
    } else {
      DigitsOfBytesValue(b[1..]);
      var pair := [HighNibble(b[0]), LowNibble(b[0])];
      PositionalJoin(pair, DigitsOfBytes(b[1..]), 4);
      FewHexDigits(pair[0], pair[1], 0);
      ByteIs(b[0]);
      assert b[0] % 0x100 == b[0] && 4 * (2 * (|b| - 1)) == 8 * (|b| - 1);
    }
  }

  /** Section 4 of RFC 4648: 24 bits make four letters, and a last group of one or two bytes is padded. */
  function Base64Text(b: seq<int>): string
    requires AllBelow(b, 256)
  {
    if b == [] then ""
    else if |b| == 1 then Letters(Group(0x1_0000 * b[0])[..2]) + "=="
    else if |b| == 2 then Letters(Group(0x1_0000 * b[0] + 0x100 * b[1])[..3]) + "="
    else Letters(Group(0x1_0000 * b[0] + 0x100 * b[1] + b[2])) + Base64Text(b[3..])
  }

  function Group(w: int): (v: seq<int>)
    requires 0 <= w < 0x100_0000
    ensures AllBelow(v, 64) && |v| == 4
  {
    [w / 0x4_0000, w / 0x1000 % 64, w / 64 % 64, w % 64]
  }

  function HighNibble(x: int): int { x / 16 }

  function LowNibble(x: int): int { x % 16 }

  /** The two digits of every byte. */
  function DigitsOfBytes(b: seq<int>): (d: seq<int>)
    requires AllBelow(b, 256)
    ensures |d| == 2 * |b| && AllBelow(d, 16)
  {
    if b == [] then [] else [HighNibble(b[0]), LowNibble(b[0])] + DigitsOfBytes(b[1..])
  }

  /** A 24-bit number cut into four sextets, and its halves c and e into two each. */
  lemma GroupHalves(w: int, c: int, e: int)
    requires 0 <= c < 0x1000 && 0 <= e < 0x1000 && w == 0x1000 * c + e
    ensures Group(w) == [c / 64, c % 64, e / 64, e % 64]
  {
    FloorDiv(w, 0x1000, c, e);
    FloorDiv(w, 0x4_0000, c / 64, 0x1000 * (c % 64) + e);
    FloorDiv(w, 64, 64 * c + e / 64, e % 64);
    FloorDiv(64 * c + e / 64, 64, c, e / 64);
  }

  lemma GroupOfBytes(x: int, y: int, z: int)
    requires 0 <= x < 256 && 0 <= y < 256 && 0 <= z < 256
    ensures Triple(HighNibble(x), LowNibble(x), HighNibble(y)) + Triple(LowNibble(y), HighNibble(z), LowNibble(z))
      == Group(0x1_0000 * x + 0x100 * y + z)
  {
    ByteIs(x);
    ByteIs(y);
    ByteIs(z);
    hide HighNibble, LowNibble, Group;
    var c, e := 256 * HighNibble(x) + 16 * LowNibble(x) + HighNibble(y), 256 * LowNibble(y) + 16 * HighNibble(z) + LowNibble(z);
    GroupHalves(0x1_0000 * x + 0x100 * y + z, c, e);
    assert Triple(HighNibble(x), LowNibble(x), HighNibble(y)) == [c / 64, c % 64];
    assert Triple(LowNibble(y), HighNibble(z), LowNibble(z)) == [e / 64, e % 64];
  }

  lemma ByteIs(x: int)
    requires 0 <= x < 256
    ensures x == 16 * HighNibble(x) + LowNibble(x) && 0 <= HighNibble(x) < 16 && 0 <= LowNibble(x) < 16
  {
  }

  lemma GroupOfOne(x: int)
    requires 0 <= x < 256
    ensures Couple(HighNibble(x), LowNibble(x)) == Group(0x1_0000 * x)[..2]
  {
    ByteIs(x);
    hide HighNibble, LowNibble, Group;
    GroupHalves(0x1_0000 * x, 16 * x, 0);
    FloorDiv(16 * x, 64, x / 4, x % 4 * 16);
    assert [x / 4, x % 4 * 16, 0, 0][..2] == [x / 4, x % 4 * 16];
  }

  lemma GroupOfTwo(x: int, y: int)
    requires 0 <= x < 256 && 0 <= y < 256
    ensures Triple(HighNibble(x), LowNibble(x), HighNibble(y)) + [ShiftedLeft(LowNibble(y), 4)]
      == Group(0x1_0000 * x + 0x100 * y)[..3]
  {
    ByteIs(x);
    ByteIs(y);
    hide HighNibble, LowNibble, Group;
    var c, e := 16 * x + HighNibble(y), 256 * LowNibble(y);
    GroupHalves(0x1_0000 * x + 0x100 * y, c, e);
    assert Triple(HighNibble(x), LowNibble(x), HighNibble(y)) == [c / 64, c % 64];
    FloorDiv(e, 64, 4 * LowNibble(y), 0);
    assert [c / 64, c % 64, e / 64, e % 64][..3] == [c / 64, c % 64, e / 64];
  }

  lemma PaddedMore(g: seq<int>, v: seq<int>)
    requires |g| == 4 && AllBelow(g, 64) && AllBelow(v, 64)
    ensures AllBelow(g + v, 64) && Padded(g + v) == Letters(g) + Padded(v)
  {
    hide Letters, Pads, PadLength;
    LettersJoin(g, v);
    assert |g + v| == |v| + 4;
    FourMore(|v|);
  }

  lemma FourMore(n: nat)
    ensures PadLength(n + 4) == PadLength(n)
  {
    FloorDiv(n + 4, 4, n / 4 + 1, n % 4);
  }

  lemma BytesUnfold(b: seq<int>)
    requires AllBelow(b, 256) && b != []
    ensures DigitsOfBytes(b) == [HighNibble(b[0]), LowNibble(b[0])] + DigitsOfBytes(b[1..])
  {
  }

  lemma ThreeBytes(x: int, y: int, z: int, rest: seq<int>)
    requires 0 <= x < 256 && 0 <= y < 256 && 0 <= z < 256 && AllBelow(rest, 256)
    ensures AllBelow([x, y, z] + rest, 256)
    ensures DigitsOfBytes([x, y, z] + rest) ==
      [HighNibble(x), LowNibble(x), HighNibble(y), LowNibble(y), HighNibble(z), LowNibble(z)] + DigitsOfBytes(rest)
  {
    hide DigitsOfBytes, HighNibble, LowNibble;
    BytesCons(z, rest);
    BytesCons(y, [z] + rest);
    BytesCons(x, [y] + ([z] + rest));
    assert [x, y, z] + rest == [x] + ([y] + ([z] + rest));
  }

  lemma BytesCons(x: int, rest: seq<int>)
    requires 0 <= x < 256 && AllBelow(rest, 256)
    ensures AllBelow([x] + rest, 256) && DigitsOfBytes([x] + rest) == [HighNibble(x), LowNibble(x)] + DigitsOfBytes(rest)
  {
    assert AllBelow([x] + rest, 256);
    hide HighNibble, LowNibble;
    assert ([x] + rest)[1..] == rest;
  }

  lemma EncodeSixDigits(a: int, b: int, c: int, x: int, y: int, z: int, e: seq<int>)
    ensures ToSextets([a, b, c, x, y, z] + e) == (Triple(a, b, c) + Triple(x, y, z)) + ToSextets(e)
  {
    hide ToSextets, Triple;
    var d := [a, b, c, x, y, z] + e;
    EncodeUnfold(d);
    EncodeUnfold([x, y, z] + e);
    assert d[3..] == [x, y, z] + e;
    assert ([x, y, z] + e)[3..] == e;
  }

  lemma EncodeThreeBytes(x: int, y: int, z: int, rest: seq<int>)
    requires 0 <= x < 256 && 0 <= y < 256 && 0 <= z < 256 && AllBelow(rest, 256)
    ensures AllBelow([x, y, z] + rest, 256)
    ensures ToSextets(DigitsOfBytes([x, y, z] + rest)) == Group(0x1_0000 * x + 0x100 * y + z) + ToSextets(DigitsOfBytes(rest))
  {
    hide ToSextets, DigitsOfBytes, Triple, Group, HighNibble, LowNibble;
    ThreeBytes(x, y, z, rest);
    EncodeSixDigits(HighNibble(x), LowNibble(x), HighNibble(y), LowNibble(y), HighNibble(z), LowNibble(z), DigitsOfBytes(rest));
    GroupOfBytes(x, y, z);
  }

  lemma EncodeOneByte(x: int)
    requires 0 <= x < 256
    ensures ToSextets([HighNibble(x), LowNibble(x)]) == Group(0x1_0000 * x)[..2]
  {
    hide ToSextets, Couple, Group, HighNibble, LowNibble;
    EncodeUnfold([HighNibble(x), LowNibble(x)]);
    GroupOfOne(x);
  }

  lemma EncodeTwoBytes(x: int, y: int)
    requires 0 <= x < 256 && 0 <= y < 256
    ensures ToSextets([HighNibble(x), LowNibble(x), HighNibble(y), LowNibble(y)]) == Group(0x1_0000 * x + 0x100 * y)[..3]
  {
    hide ToSextets, Triple, Group, HighNibble, LowNibble, ShiftedLeft;
    var d := [HighNibble(x), LowNibble(x), HighNibble(y), LowNibble(y)];
    EncodeUnfold(d);
    assert d[3..] == [LowNibble(y)];
    EncodeUnfold([LowNibble(y)]);
    GroupOfTwo(x, y);
  }

  lemma FewBytes(b: seq<int>)
    requires AllBelow(b, 256) && 0 < |b| < 3
    ensures |b| == 1 ==> DigitsOfBytes(b) == [HighNibble(b[0]), LowNibble(b[0])]
    ensures |b| == 2 ==> DigitsOfBytes(b) == [HighNibble(b[0]), LowNibble(b[0]), HighNibble(b[1]), LowNibble(b[1])]
  {
    hide DigitsOfBytes, HighNibble, LowNibble;
    DigitsOfNothing();
    BytesUnfold(b);
    if |b| == 1 {
      assert b[1..] == [];
    } else {
      BytesUnfold(b[1..]);
      assert b[1..][1..] == [];
    }
  }

  lemma DigitsOfNothing()
    ensures DigitsOfBytes([]) == []
  {
  }

  lemma EncodeFewBytes(b: seq<int>)
    requires AllBelow(b, 256) && 0 < |b| < 3
    ensures |b| == 1 ==> ToSextets(DigitsOfBytes(b)) == Group(0x1_0000 * b[0])[..2]
    ensures |b| == 2 ==> ToSextets(DigitsOfBytes(b)) == Group(0x1_0000 * b[0] + 0x100 * b[1])[..3]
  {
    hide ToSextets, DigitsOfBytes, Group, HighNibble, LowNibble;
    FewBytes(b);
    if |b| == 1 {
      EncodeOneByte(b[0]);
    } else {
      EncodeTwoBytes(b[0], b[1]);
    }
  }

  lemma TextUnfold(b: seq<int>)
    requires AllBelow(b, 256)
    ensures b == [] ==> Base64Text(b) == "" == Letters([]) + Pads(0)
    ensures |b| == 1 ==> Base64Text(b) == Letters(Group(0x1_0000 * b[0])[..2]) + Pads(2)
    ensures |b| == 2 ==> Base64Text(b) == Letters(Group(0x1_0000 * b[0] + 0x100 * b[1])[..3]) + Pads(1)
    ensures |b| > 2 ==> Base64Text(b) == Letters(Group(0x1_0000 * b[0] + 0x100 * b[1] + b[2])) + Base64Text(b[3..])
  {
    hide Group;
    TwoPads();
  }

  /** For the digits of bytes the encoder writes what the standard prescribes for the bytes. */
  lemma {:induction false} EncodesBytes(b: seq<int>)
    requires AllBelow(b, 256)
    ensures AllBelow(ToSextets(DigitsOfBytes(b)), 64) && Padded(ToSextets(DigitsOfBytes(b))) == Base64Text(b)
  {
    hide ToSextets, DigitsOfBytes, Group, Letters, Letter, Pads, Base64Text, Padded;
    EncodeIsLetters(DigitsOfBytes(b));
    TextUnfold(b);
    if |b| == 0 {
      DigitsOfNothing();
      EncodeUnfold([]);
      PaddedIs([]);
    } else if |b| < 3 {
      EncodeFewBytes(b);
      PaddedIs(ToSextets(DigitsOfBytes(b)));
    } else {
      assert b == [b[0], b[1], b[2]] + b[3..];
      EncodeThreeBytes(b[0], b[1], b[2], b[3..]);
      EncodesBytes(b[3..]);
      PaddedMore(Group(0x1_0000 * b[0] + 0x100 * b[1] + b[2]), ToSextets(DigitsOfBytes(b[3..])));
    }
  }

  lemma PaddedIs(v: seq<int>)
    requires |v| < 4 && AllBelow(v, 64)
    ensures Padded(v) == Letters(v) + Pads(if v == [] then 0 else 4 - |v|)
  {
    hide Letters, Pads, PadLength, AllBelow, Padded;
    PadCount(|v|);
    PaddedUnfold(v);
  }

  lemma PaddedUnfold(v: seq<int>)
    requires AllBelow(v, 64)
    ensures Padded(v) == Letters(v) + Pads(PadLength(|v|))
  {
    hide Letters, Pads, PadLength, AllBelow;
  }

  lemma PadCount(n: nat)
    requires n < 4
    ensures PadLength(n) == if n == 0 then 0 else 4 - n
  {
  }

  lemma TwoPads()
    ensures Pads(1) == "=" && Pads(2) == "=="
  {
    assert Pads(1) == Pads(0) + "=";
    assert Pads(2) == Pads(1) + "=";
  }

  lemma ShortDecode(v: seq<int>)
    requires |v| < 4
    ensures |FromSextets(v)| == if v == [] then 0 else if |v| < 3 then 2 else 4
  {
  }

  lemma {:induction false} EvenDigits(v: seq<int>)
    ensures |FromSextets(v)| % 2 == 0
  {
    hide FromSextets, High, Low2, Low4, Across;
    if |v| < 4 {
      ShortDecode(v);
    } else {
      DecodeMore(v);
      EvenDigits(v[4..]);
    }
  }

  lemma {:induction false} DigitsOfLast(b: seq<int>, x: int)
    requires AllBelow(b, 256) && 0 <= x < 256
    ensures AllBelow(b + [x], 256) && DigitsOfBytes(b + [x]) == DigitsOfBytes(b) + [HighNibble(x), LowNibble(x)]
  {
    assert AllBelow(b + [x], 256);
    if b == [] {
      assert [] + [x] == [x] && [x][1..] == [];
    } else {
      assert (b + [x])[1..] == b[1..] + [x];
      DigitsOfLast(b[1..], x);
    }
  }

  lemma {:induction false} DigitsDetermine(b: seq<int>, c: seq<int>)
    requires AllBelow(b, 256) && AllBelow(c, 256) && DigitsOfBytes(b) == DigitsOfBytes(c)
    ensures b == c
  {
    hide DigitsOfBytes, HighNibble, LowNibble;
    if b != [] {
      var d, e := DigitsOfBytes(b), DigitsOfBytes(c);
      BytesUnfold(b);
      BytesUnfold(c);
      assert d[0] == e[0] && d[1] == e[1];
      ByteIs(b[0]);
      ByteIs(c[0]);
      assert d[2..] == DigitsOfBytes(b[1..]) && e[2..] == DigitsOfBytes(c[1..]);
      DigitsDetermine(b[1..], c[1..]);
      assert b == [b[0]] + b[1..] && c == [c[0]] + c[1..];
    }
  }

  /** base64.js line 62, for every string. */
  method B64ToBA(s: string) returns (a: seq<int>)
    ensures AllBelow(a, 256) && DigitsOfBytes(a) == FromSextets(Values(s))
  {
    hide FromSextets, Values, DigitsOfBytes;
    var h := B64ToHex(s);
    ghost var d := FromSextets(Values(s));
    EvenDigits(Values(s));
    DigitsOfNothing();
    a := [];
    var i := 0;
    while 2 * i < |h|
      invariant 0 <= 2 * i <= |h| && AllBelow(a, 256) && DigitsOfBytes(a) == d[..2 * i]
    {
      CharRoundTrip(d[2 * i]);
      CharRoundTrip(d[2 * i + 1]);
      var x := 16 * IntAt(h[2 * i]) + IntAt(h[2 * i + 1]);
      DigitsOfLast(a, x);
      assert d[..2 * i + 2] == d[..2 * i] + [HighNibble(x), LowNibble(x)];
      a := a + [x];
      i := i + 1;
    }
    assert d[..2 * i] == d;
  }

  /** The bytes come back from their standard encoding. */
  method StandardRoundTrip(b: seq<int>) returns (a: seq<int>)
    requires AllBelow(b, 256)
    ensures a == b
  {
    hide FromSextets, Values, DigitsOfBytes, ToSextets, Letters, Pads, Base64Text, PadLength;
    a := B64ToBA(Base64Text(b));
    EncodesBytes(b);
    var v := ToSextets(DigitsOfBytes(b));
    ValuesOfLetters(v, PadLength(|v|));
    SextetsBack(DigitsOfBytes(b));
    DigitsDetermine(a, b);
  }
}
