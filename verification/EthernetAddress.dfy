/** org.maxkey.util.EthernetAddress: a 48-bit address, the text form whose leading zeros may be left out, and its bytes. */
module EthernetAddresses {
  import opened Arith
  import opened ByteNumbers
  import opened HexTexts
  import opened JavaNumbers
  import opened JsNumbers
  import opened Options
  import opened Radix
  import opened Uuids

  const ADDRESSES: int := 0x1_0000_0000_0000

  /** The value of a hexadecimal digit of either case, -1 for any other character. */
  function Digit(c: char): (d: int)
    ensures -1 <= d < 16
  {
    if IntAt(c) < 16 then IntAt(c) else -1
  }

  /** An octet is written with two digits, with one, or with none. */
  predicate IsOctet(f: string) { |f| <= 2 && forall i :: 0 <= i < |f| ==> Digit(f[i]) >= 0 }

  function Octet(f: string): (b: int)
    requires IsOctet(f)
    ensures 0 <= b < 0x100
  {
    if f == "" then 0 else if |f| == 1 then Digit(f[0]) else 0x10 * Digit(f[0]) + Digit(f[1])
  }

  /** An octet is the number that its digits write, however many there are. */
  lemma OctetIs(f: string)
    requires IsOctet(f)
    ensures Octet(f) == Number(f, 4)
  {
    hide IntAt, Number, Pow2;
    Pow2Values();
    NoDigits(4);
    assert forall i :: 0 <= i < |f| ==> Digit(f[i]) >= 0 && IntAt(f[i]) == Digit(f[i]);
    if |f| == 1 {
      NumberCons(f, 4);
      assert f[1..] == "";
    } else if |f| == 2 {
      NumberCons(f, 4);
      NumberCons(f[1..], 4);
      assert f[1..][1..] == "";
    }
  }

  /** Where the field that starts at i ends: at the next colon, or at the end of the text. */
  function FieldEnd(s: string, i: nat): (e: nat)
    requires i <= |s|
    ensures i <= e <= |s| && (e < |s| ==> s[e] == ':') && ':' !in s[i..e]
    decreases |s| - i
  {
    if i == |s| || s[i] == ':' then i
    else
      var e := FieldEnd(s, i + 1);
      assert s[i..e] == [s[i]] + s[i + 1..e];
      e
  }

  lemma {:induction false} FieldEndIs(s: string, i: nat, e: nat)
    requires i <= e <= |s| && (e < |s| ==> s[e] == ':') && forall k :: i <= k < e ==> s[k] != ':'
    ensures FieldEnd(s, i) == e
    decreases e - i
  {
    if i < e {
      FieldEndIs(s, i + 1, e);
    }
  }

  /** Reads the fields j, ..., 5 from position i on; position |s| + 1 is where a field would start after the last one. */
  function ParseFrom(s: string, i: nat, j: nat, addr: int): Option<int>
    requires j <= 6
    decreases 6 - j
  {
    if j == 6 then Some(addr)
    else if i > |s| then None
    else
      var e := FieldEnd(s, i);
      if IsOctet(s[i..e]) then ParseFrom(s, e + 1, j + 1, addr * 0x100 + Octet(s[i..e])) else None
  }

  /** What stands at i up to k are the digits of an octet, and no colon. */
  ghost predicate DigitsAt(s: string, i: nat, k: nat) {
    i <= k <= |s| && IsOctet(s[i..k]) && forall m :: i <= m < k ==> s[m] != ':'
  }

  /** The field at i does not start as an octet does. */
  ghost predicate BadDigit(s: string, i: nat) {
    exists k :: i <= k < i + 2 && k < |s| && Digit(s[k]) < 0 && forall m :: i <= m <= k ==> s[m] != ':'
  }

  /** EthernetAddress.java lines 69-105: reads up to two characters; the last one read is c. */
  method ReadOctet(s: string, i0: nat) returns (value: Option<int>, c: char, i: nat)
    requires i0 < |s|
    ensures value.None? ==> BadDigit(s, i0)
    ensures i0 < i <= |s| && c == s[i - 1]
    ensures value.Some? && c == ':' ==> DigitsAt(s, i0, i - 1) && value.value == Octet(s[i0..i - 1])
    ensures value.Some? && c != ':' ==> DigitsAt(s, i0, i) && (i == i0 + 2 || i == |s|) && value.value == Octet(s[i0..i])
  {
    hide IntAt, Digit;
    c, i := s[i0], i0 + 1;
    if c == ':' {
      return Some(0), c, i;
    }
    var d := Digit(c);
    if d < 0 {
      return None, c, i;
    }
    if i < |s| {
      c := s[i];
      i := i + 1;
      if c != ':' {
        if Digit(c) < 0 {
          assert Digit(s[i0 + 1]) < 0;
          return None, c, i;
        }
        d := Or(Shl(d, 0x10), Digit(c), 0x10);
      }
    }
    value := Some(d);
  }

  lemma BadDigitFails(s: string, i: nat)
    requires i <= |s| && BadDigit(s, i)
    ensures !IsOctet(s[i..FieldEnd(s, i)])
  {
    hide Digit;
    var k :| i <= k < i + 2 && k < |s| && Digit(s[k]) < 0 && forall m :: i <= m <= k ==> s[m] != ':';
    var e := FieldEnd(s, i);
    assert e > k;
    assert s[i..e][k - i] == s[k];
  }

  /** The digits end where the field ends, unless there are more characters. */
  lemma DigitsEnd(s: string, i: nat, k: nat)
    requires DigitsAt(s, i, k)
    ensures IsOctet(s[i..k]) && (k == |s| || s[k] == ':' ==> FieldEnd(s, i) == k)
    ensures k == i + 2 && k < |s| && s[k] != ':' ==> !IsOctet(s[i..FieldEnd(s, i)])
  {
    if k == |s| || s[k] == ':' {
      FieldEndIs(s, i, k);
    } else {
      assert FieldEnd(s, i) > k;
    }
  }

  /** EthernetAddress.java line 49: None for its NumberFormatException. */
  method FromText(addrStr: string) returns (r: Option<int>)
    ensures r == ParseFrom(addrStr, 0, 0, 0)
  {
    hide IntAt, Digit, Octet, IsOctet, FieldEnd, DigitsAt, BadDigit, ParseFrom;
    var len, addr := |addrStr|, 0;
    var i, j := 0, 0;
    while j < 6
      invariant 0 <= i <= len && 0 <= j <= 6
      invariant ParseFrom(addrStr, 0, 0, 0) == ParseFrom(addrStr, i, j, addr)
      decreases 6 - j
    {
      ghost var start := i;
      if i >= len {
        EmptyField(addrStr, j, addr);
        if j == 5 {
          return Some(addr * 0x100);
        }
        return None;
      }
      var value, c;
      ParseStep(addrStr, i, j, addr);
      value, c, i := ReadOctet(addrStr, i);
      if value.None? {
        BadDigitFails(addrStr, start);
        return None;
      }
      DigitsEnd(addrStr, start, if c == ':' then i - 1 else i);
      addr := addr * 0x100 + value.value;
      if c != ':' {
        if i < len {
          if addrStr[i] != ':' {
            return None;
          }
          i := i + 1;
        } else if j < 5 {
          NoFieldAt(addrStr, i + 1, j + 1, addr);
          return None;
        }
      }
      ReadAll(addrStr, i, addr);
      ReadAll(addrStr, i + 1, addr);
      j := j + 1;
    }
    ReadAll(addrStr, i, addr);
    r := Some(addr);
  }

  lemma NoFieldAt(s: string, i: nat, j: nat, addr: int)
    requires i > |s| && j < 6
    ensures ParseFrom(s, i, j, addr) == None
  {
  }

  lemma ReadAll(s: string, i: nat, addr: int)
    ensures ParseFrom(s, i, 6, addr) == Some(addr)
  {
  }

  lemma ParseStep(s: string, i: nat, j: nat, addr: int)
    requires i <= |s| && j < 6
    ensures var e := FieldEnd(s, i);
      ParseFrom(s, i, j, addr) == if IsOctet(s[i..e]) then ParseFrom(s, e + 1, j + 1, addr * 0x100 + Octet(s[i..e])) else None
  {
    hide Octet, IsOctet, FieldEnd;
  }

  lemma EmptyField(s: string, j: nat, addr: int)
    requires j < 6
    ensures ParseFrom(s, |s|, j, addr) == if j == 5 then Some(addr * 0x100) else None
  {
    FieldEndIs(s, |s|, |s|);
    assert s[|s|..|s|] == "";
  }

  /** Fields separated by colons. */
  function Join(fields: seq<string>): string
    requires fields != []
  {
    if |fields| == 1 then fields[0] else fields[0] + ":" + Join(fields[1..])
  }

  /** The number that six octets make up, after the number addr. */
  function Combine(fields: seq<string>, addr: int): int
    requires forall k :: 0 <= k < |fields| ==> IsOctet(fields[k])
  {
    if fields == [] then addr else Combine(fields[1..], addr * 0x100 + Octet(fields[0]))
  }

  /** It is the number whose bytes are the octets. */
  lemma {:induction false} CombineIs(fields: seq<string>, addr: int)
    requires forall k :: 0 <= k < |fields| ==> IsOctet(fields[k])
    ensures Combine(fields, addr) == addr * Pow2(8 * |fields|)
      + ByteNumber(seq(|fields|, k requires 0 <= k < |fields| => Number(fields[k], 4)))
  {
    hide Octet, Number, Pow2, ByteNumber, IsOctet;
    var b := seq(|fields|, k requires 0 <= k < |fields| => Number(fields[k], 4));
    ByteNumberFirst(b);
    if fields != [] {
      var rest := fields[1..];
      CombineIs(rest, addr * 0x100 + Octet(fields[0]));
      assert b[1..] == seq(|rest|, k requires 0 <= k < |rest| => Number(rest[k], 4));
      OctetIs(fields[0]);
      Pow2Add(8, 8 * |rest|);
      Pow2Values();
      var p := Pow2(8 * |rest|);
      MulDistrib(p, addr * 0x100, Octet(fields[0]));
      MulAssoc(addr, 0x100, p);
    }
  }

  /** s has the fields, separated by colons, and perhaps a colon and anything else after them. */
  ghost predicate Spells(s: string, fields: seq<string>) {
    && fields != [] && (forall k :: 0 <= k < |fields| ==> IsOctet(fields[k]))
    && Join(fields) <= s && (|s| > |Join(fields)| ==> s[|Join(fields)|] == ':')
  }

  lemma NoColon(f: string)
    requires IsOctet(f)
    ensures ':' !in f
  {
    forall c | c in f
      ensures c != ':'
    {
      var k :| 0 <= k < |f| && f[k] == c;
      assert Digit(f[k]) >= 0;
    }
  }

  lemma SpellsOctets(s: string, fields: seq<string>)
    requires Spells(s, fields)
    ensures forall k :: 0 <= k < |fields| ==> IsOctet(fields[k])
  {
  }

  lemma JoinFirst(fields: seq<string>)
    requires fields != []
    ensures Join(fields) == if |fields| == 1 then fields[0] else fields[0] + ":" + Join(fields[1..])
  {
  }

  lemma PrefixFirst(s: string, f: string, rest: string)
    requires f + ":" + rest <= s
    ensures |f| < |s| && s[..|f|] == f && s[|f|] == ':' && rest <= s[|f| + 1..]
  {
    var p := f + ":" + rest;
    assert s[..|p|] == p;
    assert s[|f|] == p[|f|] && s[..|f|] == p[..|f|];
    assert s[|f| + 1..][..|rest|] == p[|f| + 1..];
  }

  /** The first of the fields, and the text after its colon. */
  lemma SpellsFirst(s: string, fields: seq<string>)
    requires Spells(s, fields)
    ensures var e := |fields[0]|;
      e <= |s| && s[..e] == fields[0] && FieldEnd(s, 0) == e && (|fields| > 1 ==> e < |s| && Spells(s[e + 1..], fields[1..]))
  {
    hide Join, IsOctet, FieldEnd;
    var f, e := fields[0], |fields[0]|;
    JoinFirst(fields);
    if |fields| > 1 {
      PrefixFirst(s, f, Join(fields[1..]));
    }
    NoColon(f);
    PrefixHasNoColon(s, f);
    FieldEndIs(s, 0, e);
  }

  lemma PrefixHasNoColon(s: string, f: string)
    requires f <= s && ':' !in f
    ensures s[..|f|] == f && forall k :: 0 <= k < |f| ==> s[k] != ':'
  {
    assert forall k :: 0 <= k < |f| ==> s[k] == f[k] && f[k] in f;
  }

  lemma {:induction false} FieldEndShift(s: string, i: nat, n: nat)
    requires i + n <= |s|
    ensures FieldEnd(s[n..], i) + n == FieldEnd(s, i + n)
    decreases |s| - i
  {
    if i + n < |s| && s[i + n] != ':' {
      FieldEndShift(s, i + 1, n);
    }
  }

  lemma {:induction false} ParseShift(s: string, i: nat, n: nat, j: nat, addr: int)
    requires n <= |s| && j <= 6
    ensures ParseFrom(s[n..], i, j, addr) == ParseFrom(s, i + n, j, addr)
    decreases 6 - j
  {
    hide Octet, IsOctet, FieldEnd, ParseFrom;
    if j == 6 {
      ReadAll(s[n..], i, addr);
      ReadAll(s, i + n, addr);
    } else if i + n > |s| {
      NoFieldAt(s[n..], i, j, addr);
      NoFieldAt(s, i + n, j, addr);
    } else {
      FieldEndShift(s, i, n);
      ParseStep(s, i + n, j, addr);
      ParseStep(s[n..], i, j, addr);
      var e := FieldEnd(s, i + n);
      assert s[n..][i..e - n] == s[i + n..e];
      if IsOctet(s[i + n..e]) {
        ParseShift(s, e - n + 1, n, j + 1, addr * 0x100 + Octet(s[i + n..e]));
      }
    }
  }

  /** Every way of writing the octets is read... */
  lemma {:induction false} SpelledIsRead(s: string, fields: seq<string>, j: nat, addr: int)
    requires j < 6 && |fields| == 6 - j && Spells(s, fields)
    ensures forall k :: 0 <= k < |fields| ==> IsOctet(fields[k])
    ensures ParseFrom(s, 0, j, addr) == Some(Combine(fields, addr))
    decreases |fields|
  {
    hide Octet, IsOctet, FieldEnd, Spells, Join, ParseFrom, Combine;
    SpellsFirst(s, fields);
    SpellsOctets(s, fields);
    var e, addr' := |fields[0]|, addr * 0x100 + Octet(fields[0]);
    assert s[0..e] == s[..e];
    CombineFirst(fields, addr);
    ParseStep(s, 0, j, addr);
    if |fields| > 1 {
      SpelledIsRead(s[e + 1..], fields[1..], j + 1, addr');
      ParseShift(s, 0, e + 1, j + 1, addr');
    } else {
      ReadAll(s, e + 1, addr');
    }
  }

  lemma CombineFirst(fields: seq<string>, addr: int)
    requires fields != [] && forall k :: 0 <= k < |fields| ==> IsOctet(fields[k])
    ensures var addr' := addr * 0x100 + Octet(fields[0]);
      Combine(fields, addr) == Combine(fields[1..], addr') && (|fields| == 1 ==> Combine(fields, addr) == addr')
  {
  }

  /** ... and nothing else is. */
  lemma {:induction false} ReadIsSpelled(s: string, j: nat, addr: int) returns (fields: seq<string>)
    requires j < 6 && ParseFrom(s, 0, j, addr).Some?
    ensures |fields| == 6 - j && Spells(s, fields)
    decreases 6 - j
  {
    hide Octet, IsOctet, FieldEnd, Spells, Join, ParseFrom;
    ParseStep(s, 0, j, addr);
    var e := FieldEnd(s, 0);
    var f := s[0..e];
    var addr' := addr * 0x100 + Octet(f);
    if j == 5 {
      fields := [f];
      SpellsOne(s, e);
    } else {
      if e == |s| {
        NoFieldAt(s, e + 1, j + 1, addr');
      }
      ParseShift(s, 0, e + 1, j + 1, addr');
      var rest := ReadIsSpelled(s[e + 1..], j + 1, addr');
      fields := [f] + rest;
      SpellsCons(s, e, f, rest);
    }
  }

  lemma SpellsOne(s: string, e: nat)
    requires e <= |s| && IsOctet(s[0..e]) && (e < |s| ==> s[e] == ':')
    ensures Spells(s, [s[0..e]])
  {
  }

  lemma SpellsCons(s: string, e: nat, f: string, rest: seq<string>)
    requires e < |s| && s[0..e] == f && s[e] == ':' && IsOctet(f) && Spells(s[e + 1..], rest)
    ensures Spells(s, [f] + rest)
  {
    var fields, n := [f] + rest, |Join(rest)|;
    assert fields[1..] == rest;
    assert Join(fields) == f + ":" + Join(rest);
    assert s == f + ":" + s[e + 1..];
    assert s[e + 1..] == Join(rest) + s[e + 1..][n..];
    if |s| > |Join(fields)| {
      assert s[|Join(fields)|] == s[e + 1..][n];
    }
  }

  /** The constructor accepts exactly the texts of six octets, each with its leading zeros or without, and whatever
      follows a colon behind them; it reads the number that the octets make up. */
  lemma FromTextAccepts(s: string)
    ensures ParseFrom(s, 0, 0, 0).Some? <==> exists fields :: |fields| == 6 && Spells(s, fields)
    ensures forall fields :: |fields| == 6 && Spells(s, fields) ==> ParseFrom(s, 0, 0, 0) == Some(Combine(fields, 0))
  {
    hide ParseFrom, Spells, Combine, IsOctet;
    forall fields | |fields| == 6 && Spells(s, fields)
      ensures (forall k :: 0 <= k < 6 ==> IsOctet(fields[k])) && ParseFrom(s, 0, 0, 0) == Some(Combine(fields, 0))
    {
      SpelledIsRead(s, fields, 0, 0);
    }
    if ParseFrom(s, 0, 0, 0).Some? {
      var fields := ReadIsSpelled(s, 0, 0);
    }
  }

  /** The k low bytes of a, most significant first. */
  function Octets(a: int, k: nat): (f: seq<string>)
    ensures |f| == k
    decreases k
  {
    if k == 0 then [] else Octets(a / 0x100, k - 1) + [HexText(a, 2)]
  }

  /** Six octets of two digits. */
  function AddressText(a: int): string { Join(Octets(a, 6)) }

  lemma DigitsOctet(x: int)
    ensures IsOctet(HexText(x, 2)) && Octet(HexText(x, 2)) == x % 0x100
  {
    CharRoundTrip(x / 0x10 % 0x10);
    CharRoundTrip(x % 0x10);
  }

  lemma {:induction false} CombineLast(f: seq<string>, x: string, n: int)
    requires (forall k :: 0 <= k < |f| ==> IsOctet(f[k])) && IsOctet(x)
    ensures Combine(f + [x], n) == Combine(f, n) * 0x100 + Octet(x)
    decreases |f|
  {
    hide Octet, IsOctet;
    if f == [] {
      assert f + [x] == [x] && [x][1..] == [];
    } else {
      assert (f + [x])[1..] == f[1..] + [x];
      CombineLast(f[1..], x, n * 0x100 + Octet(f[0]));
    }
  }

  lemma {:induction false} OctetsCombine(a: int, k: nat)
    ensures forall i :: 0 <= i < k ==> IsOctet(Octets(a, k)[i])
    ensures Combine(Octets(a, k), 0) == a % Pow2(8 * k)
    decreases k
  {
    if k == 0 {
      assert Pow2(0) == 1;
    } else {
      hide HexText, IsOctet, Octet, Pow2, Combine;
      OctetsCombine(a / 0x100, k - 1);
      DigitsOctet(a);
      CombineLast(Octets(a / 0x100, k - 1), HexText(a, 2), 0);
      LowByte(a, k - 1);
    }
  }

  lemma {:induction false} JoinLast(f: seq<string>, x: string)
    requires f != []
    ensures Join(f + [x]) == Join(f) + ":" + x
  {
    if |f| > 1 {
      assert (f + [x])[1..] == f[1..] + [x];
      JoinLast(f[1..], x);
      assert f[0] + ":" + (Join(f[1..]) + ":" + x) == (f[0] + ":" + Join(f[1..])) + ":" + x;
    } else {
      assert (f + [x])[1..] == [x];
    }
  }

  lemma {:induction false} JoinLength(a: int, k: nat)
    requires k > 0
    ensures |Join(Octets(a, k))| == 3 * k - 1
    decreases k
  {
    if k > 1 {
      JoinLength(a / 0x100, k - 1);
      JoinLast(Octets(a / 0x100, k - 1), HexText(a, 2));
    }
  }

  /** Reading the text restores the address, as far as 48 bits go; the text has 17 characters. */
  lemma AddressTextRoundTrip(a: int)
    ensures |AddressText(a)| == 17 && ParseFrom(AddressText(a), 0, 0, 0) == Some(a % ADDRESSES)
  {
    hide Octet, IsOctet, ParseFrom, Combine, Join, Octets, Pow2;
    OctetsCombine(a, 6);
    JoinLength(a, 6);
    Pow2Add(32, 16);
    Pow2Values();
    assert Spells(AddressText(a), Octets(a, 6));
    SpelledIsRead(AddressText(a), Octets(a, 6), 0, 0);
  }

  /** A colon for every field is the address 0, and so is no more than that. */
  lemma NullAddress()
    ensures ParseFrom(":::::", 0, 0, 0) == Some(0)
  {
    var f := ["", "", "", "", "", ""];
    assert f[1..] == ["", "", "", "", ""] && f[1..][1..] == ["", "", "", ""] && f[1..][1..][1..] == ["", "", ""];
    assert ["", "", ""][1..] == ["", ""] && ["", ""][1..] == [""] && [""][1..] == [];
    assert Join([""]) == "" && Join(["", ""]) == ":" && Join(["", "", ""]) == "::";
    assert Join(["", "", "", ""]) == ":::" && Join(["", "", "", "", ""]) == "::::" && Join(f) == ":::::";
    assert Combine([""], 0) == 0 && Combine(["", ""], 0) == 0 && Combine(["", "", ""], 0) == 0;
    assert Combine(["", "", "", ""], 0) == 0 && Combine(["", "", "", "", ""], 0) == 0 && Combine(f, 0) == 0;
    SpelledIsRead(":::::", f, 0, 0);
  }

  /** A byte of the low 32 bits is the same byte of the number itself. */
  lemma ByteOfInt(x: int, p: int, r: int)
    requires p > 0 && r > 0 && p * (0x100 * r) == INTS
    ensures Cast(Cast(x, INTS) / p, BYTES) == Cast(x / p, BYTES)
  {
    hide Cast;
    FieldOfCast(x, INTS, p, 0x100, r);
    CastSame(Cast(x, INTS) / p, x / p, BYTES);
  }

  /** What the statements of toByteArray compute from the two halves of the address. */
  lemma AddressBytes(a: int)
    ensures var i1, i2 := Cast(a / 0x1_0000_0000, INTS), Cast(a, INTS);
      IntBytes(a, 6) == [Cast(i1 / 0x100, BYTES), Cast(i1, BYTES), Cast(i2 / 0x100_0000, BYTES), Cast(i2 / 0x1_0000, BYTES),
        Cast(i2 / 0x100, BYTES), Cast(i2, BYTES)]
  {
    hide Cast, IntBytes, ByteNumber;
    ByteOfInt(a / 0x1_0000_0000, 0x100, 0x1_0000);
    ByteOfInt(a / 0x1_0000_0000, 1, 0x100_0000);
    ByteOfInt(a, 0x100_0000, 1);
    ByteOfInt(a, 0x1_0000, 0x100);
    ByteOfInt(a, 0x100, 0x1_0000);
    ByteOfInt(a, 1, 0x100_0000);
    NestedDiv(a, 0x100, 0x100);
    NestedDiv(a, 0x1_0000, 0x100);
    NestedDiv(a, 0x100_0000, 0x100);
    NestedDiv(a, 0x1_0000_0000, 0x100);
    BytesLast(a, 5);
    BytesLast(a / 0x100, 4);
    BytesLast(a / 0x1_0000, 3);
    BytesLast(a / 0x100_0000, 2);
    BytesLast(a / 0x1_0000_0000, 1);
    BytesLast(a / 0x100_0000_0000, 0);
    NoBytes(a / 0x1_0000_0000_0000);
    NestedDiv(a, 0x100_0000_0000, 0x100);
  }

  lemma GuardSum(pos: int)
    requires 0 <= pos < TWO31
    ensures Cast(pos + 6, INTS) == if pos + 6 >= TWO31 then pos + 6 - INTS else pos + 6
  {
  }

  /** toByteArray returns, or throws IllegalArgumentException or ArrayIndexOutOfBoundsException. */
  datatype Outcome = Written | IllegalOffset | OutOfBounds

  class EthernetAddress {
    const address: int
    var asString: Option<string>

    ghost predicate Valid()
      reads this
    {
      asString.Some? ==> asString.value == AddressText(address)
    }

    /** EthernetAddress.java line 148; a text or an array of bytes gives an address below 2^48. */
    constructor (address: int)
      ensures Valid() && this.address == address
    {
      this.address := address;
      asString := None;
    }

    /** EthernetAddress.java line 128: null for its NumberFormatException. */
    static method FromBytes(addr: array<int>) returns (a: EthernetAddress?)
      requires AreBytes(addr[..])
      ensures a == null <==> addr.Length != 6
      ensures a != null ==> fresh(a) && a.Valid() && a.address == ByteNumber(addr[..])
    {
      if addr.Length != 6 {
        return null;
      }
      var l := Bits(addr[0], BYTES);
      hide ByteNumber;
      NoBytes(0);
      ByteNumberLast(addr[..1]);
      assert addr[..1][..0] == [];
      for i := 1 to 6
        invariant l == ByteNumber(addr[..i])
      {
        l := 0x100 * l + Bits(addr[i], BYTES);
        assert addr[..i + 1][..i] == addr[..i];
        ByteNumberLast(addr[..i + 1]);
      }
      assert addr[..6] == addr[..];
      a := new EthernetAddress(l);
    }

    /** EthernetAddress.java line 341, for an array and a position that Java has. The sum in the guard wraps around for the
        last positions, and then an access behind the end throws, after those before it have been made. */
    method ToByteArray(a: array<int>, pos: int) returns (o: Outcome)
      requires Fits(pos, INTS) && a.Length < TWO31
      modifies a
      ensures o == if pos < 0 then IllegalOffset else if pos + 6 >= TWO31 then OutOfBounds
        else if pos + 6 > a.Length then IllegalOffset else Written
      ensures o.Written? ==> a[..] == old(a[..pos]) + IntBytes(address, 6) + old(a[pos + 6..])
      ensures o.IllegalOffset? || (o.OutOfBounds? && pos >= a.Length) ==> a[..] == old(a[..])
      ensures o.OutOfBounds? && pos < a.Length ==> a[..] == old(a[..pos]) + IntBytes(address, 6)[..a.Length - pos]
    {
      hide Cast, IntBytes;
      if pos >= 0 {
        GuardSum(pos);
      }
      if pos < 0 || Cast(pos + 6, INTS) > a.Length {
        return IllegalOffset;
      }
      if pos + 6 > a.Length {
        WriteToEnd(a, pos, IntBytes(address, 6));
        return OutOfBounds;
      }
      AddressBytes(address);
      var i := Cast(address / 0x1_0000_0000, INTS);
      a[pos] := Cast(i / 0x100, BYTES);
      a[pos + 1] := Cast(i, BYTES);
      i := Cast(address, INTS);
      a[pos + 2] := Cast(i / 0x100_0000, BYTES);
      a[pos + 3] := Cast(i / 0x1_0000, BYTES);
      a[pos + 4] := Cast(i / 0x100, BYTES);
      a[pos + 5] := Cast(i, BYTES);
      o := Written;
    }

    /** The assignments of lines 347-353 until one is out of bounds. */
    method WriteToEnd(a: array<int>, pos: nat, b: seq<int>)
      requires a.Length - pos < |b|
      modifies a
      ensures a[..] == if pos < a.Length then old(a[..pos]) + b[..a.Length - pos] else old(a[..])
    {
      var i := pos;
      while i < a.Length
        invariant pos <= i && (i <= a.Length || i == pos)
        invariant a[..] == if pos < a.Length then old(a[..pos]) + b[..i - pos] + old(a[i..]) else old(a[..])
      {
        a[i] := b[i - pos];
        i := i + 1;
      }
    }

    /** EthernetAddress.java line 472. */
    method AppendHex(b: string, hex: int) returns (r: string)
      ensures r == b + HexText(hex, 2)
    {
      r := b + [Int2Char(hex / 0x10 % 0x10)];
      r := r + [Int2Char(hex % 0x10)];
      assert r == b + HexText(hex, 2);
    }

    /** EthernetAddress.java line 426. */
    method ToString() returns (str: string)
      requires Valid()
      modifies `asString
      ensures Valid() && str == AddressText(address)
    {
      hide HexText, Cast, AddressText;
      if asString.Some? {
        return asString.value;
      }
      SixFields(address);
      var i1 := Cast(address / 0x1_0000_0000, INTS);
      var i2 := Cast(address, INTS);
      var b := AppendHex("", i1 / 0x100);
      b := b + ":";
      b := AppendHex(b, i1);
      b := b + ":";
      b := AppendHex(b, i2 / 0x100_0000);
      b := b + ":";
      b := AppendHex(b, i2 / 0x1_0000);
      b := b + ":";
      b := AppendHex(b, i2 / 0x100);
      b := b + ":";
      b := AppendHex(b, i2);
      str := b;
      asString := Some(str);
    }
  }

  lemma SameDigits(x: int, y: int)
    requires Cast(x, BYTES) == Cast(y, BYTES)
    ensures HexText(x, 2) == HexText(y, 2)
  {
    CastKeepsBits(x, BYTES);
    CastKeepsBits(y, BYTES);
    hide Cast;
    DigitsOfBits(x);
    DigitsOfBits(y);
  }

  lemma DigitsOfBits(x: int)
    ensures HexText(x, 2) == HexText(x % 0x100, 2)
  {
    FloorDiv(x, 0x10, 0x10 * (x / 0x100) + x % 0x100 / 0x10, x % 0x10);
  }

  lemma JoinOctets(a: int, k: nat)
    requires k > 0
    ensures Join(Octets(a, k)) == if k == 1 then HexText(a, 2) else Join(Octets(a / 0x100, k - 1)) + ":" + HexText(a, 2)
  {
    hide Join, HexText;
    if k == 1 {
      JoinFirst(Octets(a, 1));
    } else {
      JoinLast(Octets(a / 0x100, k - 1), HexText(a, 2));
    }
  }

  /** What the statements of toString append, from the two halves of the address. */
  lemma SixFields(a: int)
    ensures var i1, i2 := Cast(a / 0x1_0000_0000, INTS), Cast(a, INTS);
      AddressText(a) == "" + HexText(i1 / 0x100, 2) + ":" + HexText(i1, 2) + ":" + HexText(i2 / 0x100_0000, 2) + ":"
        + HexText(i2 / 0x1_0000, 2) + ":" + HexText(i2 / 0x100, 2) + ":" + HexText(i2, 2)
  {
    hide Cast, HexText, Join, Octets;
    var i1, i2 := Cast(a / 0x1_0000_0000, INTS), Cast(a, INTS);
    ByteOfInt(a / 0x1_0000_0000, 0x100, 0x1_0000);
    ByteOfInt(a / 0x1_0000_0000, 1, 0x100_0000);
    ByteOfInt(a, 0x100_0000, 1);
    ByteOfInt(a, 0x1_0000, 0x100);
    ByteOfInt(a, 0x100, 0x1_0000);
    ByteOfInt(a, 1, 0x100_0000);
    SameDigits(i1 / 0x100, a / 0x1_0000_0000 / 0x100);
    SameDigits(i1, a / 0x1_0000_0000);
    SameDigits(i2 / 0x100_0000, a / 0x100_0000);
    SameDigits(i2 / 0x1_0000, a / 0x1_0000);
    SameDigits(i2 / 0x100, a / 0x100);
    SameDigits(i2, a);
    NestedDiv(a, 0x100, 0x100);
    NestedDiv(a, 0x1_0000, 0x100);
    NestedDiv(a, 0x100_0000, 0x100);
    JoinOctets(a, 6);
    JoinOctets(a / 0x100, 5);
    JoinOctets(a / 0x1_0000, 4);
    JoinOctets(a / 0x100_0000, 3);
    JoinOctets(a / 0x1_0000_0000, 2);
    JoinOctets(a / 0x1_0000_0000 / 0x100, 1);
  }

  /** The two byte conversions undo each other. */
  lemma AddressBytesRoundTrip(a: int, b: seq<int>)
    requires |b| == 6 && AreBytes(b)
    ensures ByteNumber(IntBytes(a, 6)) == a % ADDRESSES
    ensures 0 <= ByteNumber(b) < ADDRESSES && IntBytes(ByteNumber(b), 6) == b
  {
    hide Pow2, IntBytes, ByteNumber;
    Pow2Add(32, 16);
    Pow2Values();
    BytesRead(a, 6);
    ByteNumberBound(b);
    BytesDetermined(ByteNumber(b), b);
  }
}
