/** The public-key half of rsa.js. */
module Rsa {
  import opened BigIntegers
  import opened ByteNumbers
  import opened Digits
  import opened Exponent
  import opened JsNumbers
  import opened Modular
  import opened Options
  import opened Padding
  import opened Radix

  /** White space and line terminators, which parseInt skips. */
  predicate IsSpace(c: char) {
    var u := c as int;
    || 9 <= u <= 13 || u == 0x20 || u == 0xA0 || u == 0x1680 || 0x2000 <= u <= 0x200A
    || u == 0x2028 || u == 0x2029 || u == 0x202F || u == 0x205F || u == 0x3000 || u == 0xFEFF
  }

  function SkipSpace(s: string): string { if s != [] && IsSpace(s[0]) then SkipSpace(s[1..]) else s }

  /** The longest prefix of hexadecimal digits. */
  function HexPrefix(s: string): string { if s != [] && IsHexDigit(s[0]) then [s[0]] + HexPrefix(s[1..]) else [] }

  function DropHexMark(s: string): string {
    if |s| >= 2 && s[0] == '0' && (s[1] == 'x' || s[1] == 'X') then s[2..] else s
  }

  function ParseUnsigned(s: string): Option<int> {
    var digits := HexPrefix(DropHexMark(s));
    if digits == [] then None else Some(Number(digits, 4))
  }

  /** JavaScript's parseInt(s, 16); NaN is None. */
  function ParseInt(s: string): Option<int> {
    var t := SkipSpace(s);
    if t != [] && t[0] == '-' then
      var n := ParseUnsigned(t[1..]);
      if n.Some? then Some(-n.value) else None
    else if t != [] && t[0] == '+' then ParseUnsigned(t[1..])
    else ParseUnsigned(t)
  }

  ghost predicate AllSpace(s: string) { forall i :: 0 <= i < |s| ==> IsSpace(s[i]) }

  /** A text that parseInt reads, in parts: white space, a sign, the mark 0x, digits, and anything that is not one. Without
      the mark the digits do not look like its beginning. */
  ghost predicate IsNumeral(space: string, sign: string, mark: string, digits: string, rest: string) {
    && AllSpace(space) && (sign == "" || sign == "+" || sign == "-") && (mark == "" || mark == "0x" || mark == "0X")
    && digits != "" && AllHex(digits) && (rest == "" || !IsHexDigit(rest[0]))
    && (mark == "" && digits == "0" && rest != "" ==> rest[0] != 'x' && rest[0] != 'X')
  }

  lemma {:induction false} SpaceSkipped(space: string, rest: string)
    requires AllSpace(space) && (rest == "" || !IsSpace(rest[0]))
    ensures SkipSpace(space + rest) == rest
  {
    if space == "" {
      assert space + rest == rest;
    } else {
      assert (space + rest)[1..] == space[1..] + rest;
      SpaceSkipped(space[1..], rest);
    }
  }

  lemma {:induction false} PrefixFound(digits: string, rest: string)
    requires AllHex(digits) && (rest == "" || !IsHexDigit(rest[0]))
    ensures HexPrefix(digits + rest) == digits
  {
    if digits == "" {
      assert digits + rest == rest;
    } else {
      assert (digits + rest)[1..] == digits[1..] + rest;
      PrefixFound(digits[1..], rest);
      assert [digits[0]] + digits[1..] == digits;
    }
  }

  lemma UnsignedReads(mark: string, digits: string, rest: string)
    requires IsNumeral("", "", mark, digits, rest)
    ensures ParseUnsigned(mark + (digits + rest)) == Some(Number(digits, 4))
  {
    hide Number, IsSpace;
    PrefixFound(digits, rest);
    var t := mark + (digits + rest);
    if mark == "" {
      assert t == digits + rest;
      assert IsHexDigit(digits[0]) && !IsHexDigit('x') && !IsHexDigit('X');
      assert |t| >= 2 ==> t[1] == if |digits| > 1 then digits[1] else rest[0];
      assert DropHexMark(t) == t;
    } else {
      assert t[2..] == digits + rest;
    }
  }

  lemma PartsAreNoSpace(digits: string)
    requires digits != "" && AllHex(digits)
    ensures !IsSpace('+') && !IsSpace('-') && !IsSpace('0') && !IsSpace(digits[0]) && digits[0] != '+' && digits[0] != '-'
  {
  }

  /** It reads such a text as the number that the digits write. */
  lemma ParseIntReads(space: string, sign: string, mark: string, digits: string, rest: string)
    requires IsNumeral(space, sign, mark, digits, rest)
    ensures ParseInt(space + (sign + (mark + (digits + rest)))) ==
      Some(if sign == "-" then -Number(digits, 4) else Number(digits, 4))
  {
    hide Number, IsSpace, ParseUnsigned, SkipSpace, IsHexDigit;
    UnsignedReads(mark, digits, rest);
    PartsAreNoSpace(digits);
    var u := mark + (digits + rest);
    FirstOfNumeral(mark, digits, rest);
    SignFirst(sign, u);
    SpaceSkipped(space, sign + u);
  }

  lemma FirstOfNumeral(mark: string, digits: string, rest: string)
    requires digits != "" && (mark == "" || mark == "0x" || mark == "0X")
    ensures mark + (digits + rest) != "" && (mark + (digits + rest))[0] == if mark == "" then digits[0] else '0'
  {
  }

  lemma SignFirst(sign: string, u: string)
    requires u != "" && (sign == "" || sign == "+" || sign == "-")
    ensures sign + u != "" && (if sign == "" then sign + u == u else (sign + u)[0] == sign[0] && (sign + u)[1..] == u)
  {
  }

  lemma {:induction false} SpacePart(s: string) returns (space: string)
    ensures AllSpace(space) && s == space + SkipSpace(s)
  {
    if s != "" && IsSpace(s[0]) {
      var rest := SpacePart(s[1..]);
      space := [s[0]] + rest;
      assert s == [s[0]] + s[1..];
      assert space + SkipSpace(s) == [s[0]] + (rest + SkipSpace(s[1..]));
    } else {
      space := "";
      assert "" + SkipSpace(s) == s;
    }
  }

  lemma {:induction false} PrefixPart(s: string) returns (rest: string)
    ensures s == HexPrefix(s) + rest && AllHex(HexPrefix(s)) && (rest == "" || !IsHexDigit(rest[0]))
  {
    if s != "" && IsHexDigit(s[0]) {
      rest := PrefixPart(s[1..]);
      assert s == [s[0]] + s[1..];
      assert HexPrefix(s) + rest == [s[0]] + (HexPrefix(s[1..]) + rest);
    } else {
      rest := s;
      assert [] + s == s;
    }
  }

  lemma UnsignedParts(s: string) returns (mark: string, digits: string, rest: string)
    requires ParseUnsigned(s).Some?
    ensures IsNumeral("", "", mark, digits, rest) && s == mark + (digits + rest)
  {
    hide Number, IsSpace;
    var t := DropHexMark(s);
    mark := s[..|s| - |t|];
    rest := PrefixPart(t);
    digits := HexPrefix(t);
    assert s == mark + t;
    if mark == "" {
      assert s == t;
      if digits == "0" && rest != "" {
        assert s[0] == '0' && s[1] == rest[0];
      }
    } else {
      assert mark == s[..2] == [s[0], s[1]];
    }
  }

  /** And it reads no other text. */
  lemma ParseIntParts(s: string) returns (space: string, sign: string, mark: string, digits: string, rest: string)
    requires ParseInt(s).Some?
    ensures IsNumeral(space, sign, mark, digits, rest) && s == space + (sign + (mark + (digits + rest)))
  {
    hide Number, IsSpace, ParseUnsigned;
    space := SpacePart(s);
    var t := SkipSpace(s);
    if t != "" && (t[0] == '-' || t[0] == '+') {
      sign := [t[0]];
      mark, digits, rest := UnsignedParts(t[1..]);
      assert t == sign + t[1..];
    } else {
      sign := "";
      mark, digits, rest := UnsignedParts(t);
      assert t == sign + t;
    }
  }

  lemma {:induction false} WholePrefix(s: string)
    requires AllHex(s)
    ensures HexPrefix(s) == s
  {
    if s != [] {
      WholePrefix(s[1..]);
      assert [s[0]] + s[1..] == s;
    }
  }

  /** parseInt and the BigInteger constructor read a plain hexadecimal string alike. */
  lemma ParsersAgree(s: string)
    requires s != [] && AllHex(s)
    ensures ParseInt(s) == Some(Number(s, 4)) && !HasMinus(s) && InRadix(s, 4)
  {
    hide Pow2, Number;
    Pow2Values();
    WholePrefix(s);
    var c := s[0];
    assert IsHexDigit(c);
    assert !IsSpace(c) && c != '-' && c != '+';
    assert |s| >= 2 ==> IsHexDigit(s[1]) && s[1] != 'x' && s[1] != 'X';
    assert DropHexMark(s) == s && SkipSpace(s) == s;
    assert ParseInt(s) == ParseUnsigned(s) == Some(Number(s, 4));
  }

  /** A leading 0 does not change the number. */
  lemma EvenLength(t: string, v: int)
    requires v >= 0 && IsText(t, v, 4)
    ensures var h := if |t| % 2 == 0 then t else "0" + t;
      h != [] && (forall i :: 0 <= i < |h| ==> IsLowerDigit(h[i], 4)) && InRadix(h, 4) && !HasMinus(h) && Number(h, 4) == v
  {
    var h := "0" + t;
    assert h[1..] == t;
    NumberCons(h, 4);
    Pow2Values();
  }

  /** d undoes the public operation. */
  ghost predicate IsPrivateExponent(d: nat, e: nat, modulus: int)
    requires modulus > 0
  {
    forall x :: 0 <= x < modulus ==> IntPow(IntPow(x, e) % modulus, d) % modulus == x
  }

  /** From the ciphertext c of a text whose bytes fit, the holder of d gets the integer of the block, and the only
      bytes of that integer unpad and decode to the text. */
  lemma CiphertextRecovers(text: Text, b: seq<Byte>, ps: seq<Byte>, modulus: nat, e: nat, d: nat, c: int, b': seq<Byte>)
    requires modulus > 0 && IsBlock(b, text, BlockSize(modulus), ps) && 0 !in ps && |Encode(text)| <= BlockSize(modulus) - 11
    requires c == IntPow(BlockNumber(b), e) % modulus && IsPrivateExponent(d, e, modulus)
    requires |b'| == BlockSize(modulus) && ByteNumber(b') == IntPow(c, d) % modulus
    ensures Unpad(b').Some? && Decode(Unpad(b').value) == Some(text)
  {
    PaddedRange(b, text, modulus, ps);
    assert 0 <= BlockNumber(b) < modulus;
    hide ByteNumber, BlockNumber, Encode, Decode, Unpad, BlockSize, IntPow;
    ByteNumberUnique(b, b');
    LengthCheck(text, BlockSize(modulus));
    UnpadBlock(b, text, BlockSize(modulus), ps);
  }

  class RSAKey {
    var n: BigInteger?
    var e: Option<int>

    /** rsa.js line 64. */
    constructor ()
      ensures n == null && e == Some(0)
    {
      n := null;
      e := Some(0);
    }

    /** A public key was set. */
    ghost predicate Ready()
      reads this, n
    {
      n != null && n.Valid() && n.Clamped() && n.Value() >= 0 && e.Some?
    }

    /** rsa.js line 76: a missing or empty part leaves the key as it was. */
    method SetPublic(modulus: Option<string>, exponent: Option<string>)
      requires modulus.Some? ==> InRadix(modulus.value, 4)
      modifies this
      ensures if modulus.Some? && exponent.Some? && modulus.value != [] && exponent.value != [] then
          n != null && fresh(n) && n.Valid() && n.Clamped() && e == ParseInt(exponent.value)
          && n.Value() == if HasMinus(modulus.value) then -Number(modulus.value, 4) else Number(modulus.value, 4)
        else unchanged(this)
    {
      if modulus.Some? && exponent.Some? && |modulus.value| > 0 && |exponent.value| > 0 {
        var m := new BigInteger();
        FromString(m, modulus.value, 16);
        n := m;
        e := ParseInt(exponent.value);
      }
    }

    /** rsa.js line 86: x^e mod n, except that an e outside 1, ..., 2^32 - 1 gives 1. */
    method DoPublic(x: BigInteger) returns (r: BigInteger)
      requires Ready() && n.Value() > 0 && x.Valid() && x.Clamped()
      ensures fresh(r) && r.Valid() && r.Clamped()
      ensures r.Value() == if 1 <= e.value < TWO32 then IntPow(x.Value(), e.value) % n.Value() else 1
    {
      r := ModPowInt(x, e.value, n);
    }

    /** rsa.js line 91: the ciphertext as a hexadecimal string of even length, that is, of whole bytes. Line 92 shifts the
        bit length as a 32-bit number, which is exact for moduli below 256 MB. */
    method Encrypt(text: Text, rng: SecureRandom) returns (h: Option<string>, ghost b: seq<Byte>, ghost ps: seq<Byte>)
      requires Ready() && rng.Valid()
      modifies rng`pos
      ensures h.None? <==> BlockSize(n.Value()) < |text| + 11
      ensures h.Some? ==> |h.value| % 2 == 0 && h.value != [] && (forall i :: 0 <= i < |h.value| ==> IsLowerDigit(h.value[i], 4))
      ensures h.Some? ==> n.Value() > 0 && InRadix(h.value, 4) && !HasMinus(h.value)
      ensures h.Some? ==>
        Number(h.value, 4) == if 1 <= e.value < TWO32 then IntPow(BlockNumber(b), e.value) % n.Value() else 1
      ensures h.Some? ==> Drawn(rng.stream, old(rng.pos), rng.pos, ps) && IsBlock(b, text, BlockSize(n.Value()), ps)
    {
      hide Val, Part, Pow, Pow2, IntPow, IsBlock, Drawn, BlockNumber, Number, BitLen;
      var bits := n.BitLength();
      var m;
      m, b, ps := Pkcs1Pad2(text, (bits + 7) / 8, rng);
      if m == null {
        return None, b, ps;
      }
      BitLenBounds(n.Value());
      var c := DoPublic(m);
      var t := ToString(c, 16);
      EvenLength(t, c.Value());
      h := Some(if |t| % 2 == 0 then t else "0" + t);
    }
  }
}
