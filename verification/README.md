# Verified model of MaxKey's RSA arithmetic and id generators

This project models, in Dafny, the JavaScript that the MaxKey management console uses to encrypt passwords in
the browser, and the Java classes of MaxKey that promise unique identifiers, and proves what they compute.

**Big integers and RSA** (`jsbn.js`, `rsa.js`, `base64.js`). A `BigInteger` is an object with a digit array, a length
and a sign word, read as two's complement: `value = sum of d[i]*DV^i + s*DV^t`. Its methods overwrite digits in
place, and the target may be one of the operands wherever the source uses it that way. `ENGINE` in `Engine.dfy`
has no value, so every proof holds for all three digit sizes (26, 28 and 30 bits) and their kernels `am1`, `am3` and
`am2`. JavaScript numbers are mathematical integers; each bit operation and each product demands the range in which
JavaScript is exact, so every proof also shows that no intermediate leaves it (`JsNumbers.dfy`; `BitOperations.dfy`
justifies the arithmetic forms bit by bit).

**Identifiers** (`org.maxkey.uuid`, `IdSequence`, `UUIDGenerator`, `EthernetAddress`). The generators are classes
whose fields change with every call. Each method is proved equal to a transition function, and uniqueness is
proved about all runs of these functions. The clock and the random source are parameters.

## Files

| files | content |
|---|---|
| `Arith`, `JsNumbers`, `BitOperations`, `JavaNumbers`, `Options` | nonlinear arithmetic, JavaScript and Java numbers |
| `ByteNumbers`, `HexTexts`, `Calendar` | numbers from bytes, hexadecimal texts, days between years |
| `Engine`, `Digits`, `Kernels`, `Bits`, `Shifts`, `Products` | digit slices, the kernels, shifts and products as statements about digits |
| `BigInteger` | the class, up to multiplication and squaring |
| `QuotientDigit`, `DivisionSteps`, `Division` | `divRemTo` and `mod` |
| `Modular`, `InverseDigit`, `Montgomery`, `Exponent` | the two reducers, `exp` and `modPowInt` |
| `Radix`, `Padding`, `Rsa`, `Base64` | radix conversion, PKCS #1 padding, the public key, base64 |
| `Uuid`, `UuidText`, `UuidObject` | UUIDs |
| `UuidTimestamp` | the timestamp generators |
| `UuidRuns`, `UuidTicks`, `AnyClock`, `UnsynchronizedRuns` | their runs, on clocks that do not go back, that do so once, and on any |
| `IdSequence`, `CounterUuid`, `EthernetAddress` | the other identifiers |

`dafny verify dfyconfig.toml` verifies all of it.

## Where the code differs from what it promises

Each of these is stated as a lemma with the exact condition; the code was modelled as it is.

- `am1`: the operand bounds in its comment do not keep products below 2^53 (`Kernels.Am1Limit`, `Kernels.Am1Overflow`).
  No caller comes near the limit: every call of `am` in the model meets the condition.
- `divRemTo` with the quotient in place of the dividend loses a dividend shorter than the divisor (`LosesDividend` in
  `Division.DivRemTo`). The comment forbids `r == q` and `this == m`, but not `this == q`. No call in the file does this.
- `modPowInt` with exponent 0 and modulus 1 (`Exponent.ZeroExponent`).
- `pkcs1pad2` compares the block with the number of code units, not of bytes (`Padding.UnpadBlock`, `Padding.LengthCheck`).
- `hex2b64` and `b64tohex` are inverse for whole bytes only (`Base64.HexRoundTrip`).
- `UUID(String)` refuses half of the texts that `toString` writes (`UuidText.TextRoundTrip`), and takes a plus sign where
  its documentation asks for a hexadecimal digit (`UuidText.FieldsAccept`, `UuidText.PlusAccepted`).
- The timestamp generators can issue timestamps out of order and repeat a UUID when the clock moves inside a call whose
  counter is used up, forwards or back. On a clock that does not go back `UuidTicks.TimesRise`, `UuidTicks.TimesDiffer`
  and `UuidTicks.RunIsUniqueIf` state exactly when, for the synchronized one, and `UnsynchronizedRuns.TimesIncrease` and
  `UnsynchronizedRuns.RunIsUniqueIf` for the other one; if the clock goes back once, `UuidTicks.StepBackIsUniqueIf`,
  `UuidTicks.StepInsideCallIsUniqueIf` and `UnsynchronizedRuns.StepBackIsUniqueIf` do; and on every clock
  `AnyClock.RunIsUniqueIf` and `UnsynchronizedRuns.AnyRunIsUniqueIf`. The shortest runs that fail are
  `UuidTicks.TickInsideCall`, `UuidTicks.TickAfterException`, `UuidTicks.StepInsideCall` and
  `UnsynchronizedRuns.NextMillisecondRepeats`.
- `UUIDGenerator` drops four bits of negative counters in its variable mode (`CounterUuids.ReversedCollide`, line 47 of
  the file; `CounterUuids.ReversedCollideExample` is such a pair, `CounterUuids.IdsAgree` what it means for whole ids).
- `IdSequence` repeats an id whenever the clock returns to a second, as local time does once a year, and whenever one
  second draws more than 10000 ids, and in no other case (`IdSequences.IdsAreUnique`).
- `EthernetAddress(String)` ignores whatever follows a colon after the sixth octet (`EthernetAddresses.FromTextAccepts`).

## Model

| member | source | states |
|---|---|---|
| Division.DivRemTo | maxkey-web-manage/src/main/resources/static/jquery/encrypt/jsbn.js:353-398 | For every dividend and every divisor but 0 (for 0, nothing changes): the quotient is the one rounded toward 0 and the remainder carries the dividend's sign, with q or r null and with r the dividend or the divisor itself. The one exception is the condition LosesDividend: the quotient replaces the dividend, which is not 0 and has fewer digits than the divisor; then the remainder is 0 instead of the dividend. |
| Division.QuotientAndRemainder | maxkey-web-manage/src/main/resources/static/jquery/encrypt/jsbn.js:351-353 | Quotient and Remainder satisfy x = q*m + r with \|r\| < \|m\| and r of the sign of x. |
| Division.QuotientUnique | maxkey-web-manage/src/main/resources/static/jquery/encrypt/jsbn.js:351-353 | No other quotient and remainder do. |
| Division.SmallDividend | maxkey-web-manage/src/main/resources/static/jquery/encrypt/jsbn.js:357-361 | The right remainder of a dividend with fewer digits is the dividend itself, so the 0 left under LosesDividend is wrong every time. |
| Division.ShortestLoss | maxkey-web-manage/src/main/resources/static/jquery/encrypt/jsbn.js:357-361 | 1 divided by DV is such a case. |
| Division.LongDivide | maxkey-web-manage/src/main/resources/static/jquery/encrypt/jsbn.js:362-397 | The branch with at least as many digits as the divisor: scaling, long division and scaling back compute Quotient and Remainder. |
| Division.LongDivision | maxkey-web-manage/src/main/resources/static/jquery/encrypt/jsbn.js:367-389 | After the loop the remainder is in the low ys digits of r and the whole quotient above them, in the same buffer. |
| Division.Normalize | maxkey-web-manage/src/main/resources/static/jquery/encrypt/jsbn.js:364-366 | Both numbers are multiplied by the same power of two, after which the top bit of the divisor is set. |
| Division.LeadingOne | maxkey-web-manage/src/main/resources/static/jquery/encrypt/jsbn.js:372-377 | The quotient digit above all others is 1 or 0 and is placed on top of r exactly when the shifted divisor still fits. |
| Division.NegateDivisor | maxkey-web-manage/src/main/resources/static/jquery/encrypt/jsbn.js:378-380 | y becomes DV^ys - y in ys digits, so that am can subtract. |
| Division.EstimateDigit | maxkey-web-manage/src/main/resources/static/jquery/encrypt/jsbn.js:382-383 | With exact quotients d1 and d2 the estimate is the quotient digit or one more, in both branches, and never above DV. |
| QuotientDigit.EstimateIsClose | maxkey-web-manage/src/main/resources/static/jquery/encrypt/jsbn.js:370-383 | For a normalized divisor, floor(n / yt) of the two leading digits is never below the quotient digit and at most one above it. |
| QuotientDigit.EqualDigitIsClose | maxkey-web-manage/src/main/resources/static/jquery/encrypt/jsbn.js:383 | When the leading digits are equal, DM is the quotient digit or one more. |
| QuotientDigit.EstimateFloor | maxkey-web-manage/src/main/resources/static/jquery/encrypt/jsbn.js:371-383 | The real-valued expression with d1 and d2 is that integer division. |
| Division.TryDigit | maxkey-web-manage/src/main/resources/static/jquery/encrypt/jsbn.js:384-388 | From any digit that is not too small and at most DV, trying and taking back ends with the quotient digit on top of its remainder, and the digits above and below untouched. |
| Division.CorrectDigit | maxkey-web-manage/src/main/resources/static/jquery/encrypt/jsbn.js:385-388 | The correction loop terminates at the true digit whatever the overestimate. |
| Division.TakeBack | maxkey-web-manage/src/main/resources/static/jquery/encrypt/jsbn.js:386-387 | One subtraction removes one multiple of the negated divisor and keeps the length of r, so clamp never shortens it. |
| DivisionSteps.DividedStep | maxkey-web-manage/src/main/resources/static/jquery/encrypt/jsbn.js:381-389 | The invariant of the loop: the digits below j + ys are the remainder so far, the digits above the quotient so far, together worth the dividend. |
| DivisionSteps.TopIsSet | maxkey-web-manage/src/main/resources/static/jquery/encrypt/jsbn.js:374-389 | The top digit of r stays nonzero during the loop, in the remainder or in the quotient above it. |
| Division.TakeQuotient | maxkey-web-manage/src/main/resources/static/jquery/encrypt/jsbn.js:390-393 | The part above digit ys, with the sign of ts xor ms, is the rounded quotient. |
| Division.TakeRemainder | maxkey-web-manage/src/main/resources/static/jquery/encrypt/jsbn.js:394-397 | The part below digit ys, scaled back, with the sign of the dividend, is the remainder. |
| Division.Mod | maxkey-web-manage/src/main/resources/static/jquery/encrypt/jsbn.js:401-406 | For a positive modulus the result is x modulo a, in [0, a) also for a negative x. For a negative modulus it is congruent to x, and lies in [0, -a) if x is not negative, else it is 0 or strictly between 2*a and a. |
| MontgomeryReduction.Reduce | maxkey-web-manage/src/main/resources/static/jquery/encrypt/jsbn.js:478-494 | For every odd m of t digits and 0 <= x < m*DV^t the result y has y*DV^t = x modulo m and 0 <= y < m. |
| MontgomeryReduction.ReduceRow | maxkey-web-manage/src/main/resources/static/jquery/encrypt/jsbn.js:481-490 | Row i adds a multiple of m*DV^i to the whole number and leaves the i + 1 lowest digits 0. |
| MontgomeryReduction.AddRow | maxkey-web-manage/src/main/resources/static/jquery/encrypt/jsbn.js:481-487 | The single am call and the addition into digit i + t have that effect before the carry has been passed on; digit i + t may exceed DV once. |
| MontgomeryReduction.Propagate | maxkey-web-manage/src/main/resources/static/jquery/encrypt/jsbn.js:488-489 | The carry loop ends within the 2t + 1 padded digits and keeps the value. |
| MontgomeryReduction.RowRoom | maxkey-web-manage/src/main/resources/static/jquery/encrypt/jsbn.js:479-489 | Why it does: with all rows added the number is below 2*m*DV^t. |
| MontgomeryReduction.MulDigitIsProduct | maxkey-web-manage/src/main/resources/static/jquery/encrypt/jsbn.js:482-484 | The split product from 15-bit halves is x[i]*mp modulo DV, with every intermediate below 2^53. |
| MontgomeryReduction.ReducingEnd | maxkey-web-manage/src/main/resources/static/jquery/encrypt/jsbn.js:491-493 | After t rows DV^t divides the number, and the quotient is below 2*m and congruent to x/DV^t. |
| MontgomeryReduction.Montgomery.constructor | maxkey-web-manage/src/main/resources/static/jquery/encrypt/jsbn.js:451-458 | The reducer of an odd modulus holds the inverse digit and its halves. |
| MontgomeryReduction.InvDigit | maxkey-web-manage/src/main/resources/static/jquery/encrypt/jsbn.js:435-448 | For an odd number, z in (0, DV) with x[0]*z = -1 modulo DV; 0 for an even or empty one. |
| InverseDigit.InverseOf | maxkey-web-manage/src/main/resources/static/jquery/encrypt/jsbn.js:437-447 | The same for every digit size 16 < DB <= 32: four masked liftings and one with the signed remainder of JavaScript, all products below 2^53. |
| InverseDigit.Lift | maxkey-web-manage/src/main/resources/static/jquery/encrypt/jsbn.js:425-433 | If x*y = 1 modulo m then y*(2 - x*y) inverts x modulo m^2. |
| InverseDigit.JsRemCongruent | maxkey-web-manage/src/main/resources/static/jquery/encrypt/jsbn.js:445 | The remainder as JavaScript has it: congruent and smaller than the divisor, |
| InverseDigit.JsRemSign | maxkey-web-manage/src/main/resources/static/jquery/encrypt/jsbn.js:445 | and of the sign of the dividend. |
| Exponent.ModPowInt | maxkey-web-manage/src/main/resources/static/jquery/encrypt/jsbn.js:524-529 | x^e mod m for every x, every m > 0 and every 1 <= e < 2^32, whichever reducer is chosen; 1 for any other e. |
| Exponent.ZeroExponent | maxkey-web-manage/src/main/resources/static/jquery/encrypt/jsbn.js:524-525 | The comment promises x^e mod m for e = 0 as well: the result 1 keeps that promise for every modulus but 1, and only that one breaks it. |
| Exponent.Exp | maxkey-web-manage/src/main/resources/static/jquery/encrypt/jsbn.js:512-522 | Square-and-multiply over either reducer, with r and r2 exchanged by reference, is x^e mod m. |
| Exponent.NextBit | maxkey-web-manage/src/main/resources/static/jquery/encrypt/jsbn.js:516-520 | One more bit of e squares the power so far and multiplies by x exactly if the bit is set. |
| Exponent.ClassicConvert | maxkey-web-manage/src/main/resources/static/jquery/encrypt/jsbn.js:410-413 | The converted number is in [0, m) and congruent to x. |
| Exponent.MontgomeryConvert | maxkey-web-manage/src/main/resources/static/jquery/encrypt/jsbn.js:461-467 | The converted number is in [0, m) and congruent to x*DV^t, for negative x and for 0, which goes through the division unclamped. |
| Exponent.MontgomeryRevert | maxkey-web-manage/src/main/resources/static/jquery/encrypt/jsbn.js:470-475 | A number that stands for a is turned into a mod m. |
| Exponent.MulTo | maxkey-web-manage/src/main/resources/static/jquery/encrypt/jsbn.js:416-500 | In both reducers the product of reduced numbers is reduced again and stands for the product. |
| Exponent.SqrTo | maxkey-web-manage/src/main/resources/static/jquery/encrypt/jsbn.js:417-497 | The same for the square. |
| Exponent.MontgomeryProduct | maxkey-web-manage/src/main/resources/static/jquery/encrypt/jsbn.js:496-500 | (aR)(bR)/R = (ab)R: the Montgomery product refines the classic one. |
| Exponent.IsEven | maxkey-web-manage/src/main/resources/static/jquery/encrypt/jsbn.js:509 | Exactly the even numbers, negative ones and 0 included. |
| BigIntegers.BigInteger.Am1 | maxkey-web-manage/src/main/resources/static/jquery/encrypt/jsbn.js:25-41 | w[j..j+n) and the carry out together become the old slice + x*this[i..i+n) + c, in digits below DV, and no product passes 2^53, provided the first one cannot. |
| BigIntegers.BigInteger.Am2 | maxkey-web-manage/src/main/resources/static/jquery/encrypt/jsbn.js:42-55 | The same equation under c < 3*DV and x < 2*DV alone; every bit operation stays within 32 bits. |
| BigIntegers.BigInteger.Am3 | maxkey-web-manage/src/main/resources/static/jquery/encrypt/jsbn.js:56-69 | The same for 28-bit digits, with every bit operation within 31 bits. |
| BigIntegers.BigInteger.Am | maxkey-web-manage/src/main/resources/static/jquery/encrypt/jsbn.js:70-85 | The same for the kernel that the browser selects, so that everything else holds for all three digit sizes. |
| Kernels.Am1Limit | maxkey-web-manage/src/main/resources/static/jquery/encrypt/jsbn.js:25-33 | The bounds that the comment states for am1 are not enough for 2^53: every product fits exactly unless x = 2*DV-1 with c >= 2*DV, or x = 2*DV-2 with c = 3*DV-1. |
| Kernels.Am1Overflow | maxkey-web-manage/src/main/resources/static/jquery/encrypt/jsbn.js:25-33 | The largest operands within the stated bounds make 2^53 + 2^26 - 1. |
| BitOperations.MaskIsAnd | maxkey-web-manage/src/main/resources/static/jquery/encrypt/jsbn.js:33-69 | Bit by bit on two's complement, x & (2^k - 1) is the remainder that rounds down. |
| BitOperations.ShiftRightIsShr | maxkey-web-manage/src/main/resources/static/jquery/encrypt/jsbn.js:44-69 | k one-bit shifts to the right that keep the sign are the division by 2^k that rounds down. |
| BitOperations.OrIsSum | maxkey-web-manage/src/main/resources/static/jquery/encrypt/jsbn.js:148-162 | An or of numbers without a common bit is their sum. |
| BitOperations.TestIsBitSet | maxkey-web-manage/src/main/resources/static/jquery/encrypt/jsbn.js:518 | The test of one bit by a mask. |
| BigIntegers.BigInteger.SubTo | maxkey-web-manage/src/main/resources/static/jquery/encrypt/jsbn.js:289-319 | Exact signed subtraction in two's complement, clamped, also when the target is one of the operands or both. |
| BigIntegers.BigInteger.Clamp | maxkey-web-manage/src/main/resources/static/jquery/encrypt/jsbn.js:168-171 | The value stays and no digit at the top repeats the sign. |
| BigIntegers.BigInteger.CompareTo | maxkey-web-manage/src/main/resources/static/jquery/encrypt/jsbn.js:210-218 | On clamped operands the sign of the result is the sign of the difference. |
| BigIntegers.BigInteger.LShiftTo | maxkey-web-manage/src/main/resources/static/jquery/encrypt/jsbn.js:254-268 | Multiplication by 2^n, also in place. |
| BigIntegers.BigInteger.RShiftTo | maxkey-web-manage/src/main/resources/static/jquery/encrypt/jsbn.js:271-286 | Division by 2^n that rounds down, for negative numbers as well and in place. |
| BigIntegers.BigInteger.DLShiftTo | maxkey-web-manage/src/main/resources/static/jquery/encrypt/jsbn.js:238-244 | Multiplication by DV^n, also in place; a negative n, which divRemTo can pass, drops digits. |
| BigIntegers.BigInteger.DRShiftTo | maxkey-web-manage/src/main/resources/static/jquery/encrypt/jsbn.js:247-251 | Division by DV^n that rounds down, also in place. |
| BigIntegers.BigInteger.Negate | maxkey-web-manage/src/main/resources/static/jquery/encrypt/jsbn.js:204 | The number with its sign changed, in a new object. |
| BigIntegers.BigInteger.NegateInPlace | maxkey-web-manage/src/main/resources/static/jquery/encrypt/jsbn.js:164 | ZERO.subTo(this,this) changes the sign in place. |
| BigIntegers.BigInteger.Abs | maxkey-web-manage/src/main/resources/static/jquery/encrypt/jsbn.js:207 | The magnitude, in the same object unless the number is negative. |
| BigIntegers.BigInteger.FromInt | maxkey-web-manage/src/main/resources/static/jquery/encrypt/jsbn.js:117-124 | Every -DV <= x < DV, clamped. |
| BigIntegers.BigInteger.CopyTo | maxkey-web-manage/src/main/resources/static/jquery/encrypt/jsbn.js:110-114 | The same value, length and sign in the target. |
| BigIntegers.BigInteger.BitLength | maxkey-web-manage/src/main/resources/static/jquery/encrypt/jsbn.js:232-235 | The number of binary digits of the value, or of -1 minus it for a negative one. |
| Bits.NBits | maxkey-web-manage/src/main/resources/static/jquery/encrypt/jsbn.js:221-229 | The bit length of a 32-bit word, with 1 for 0. |
| BigIntegers.BigInteger.MultiplyTo | maxkey-web-manage/src/main/resources/static/jquery/encrypt/jsbn.js:323-332 | The exact signed product, clamped. |
| BigIntegers.BigInteger.SquareTo | maxkey-web-manage/src/main/resources/static/jquery/encrypt/jsbn.js:335-349 | The exact square for every length, so it agrees with MultiplyTo. |
| BigIntegers.BigInteger.SquareRow | maxkey-web-manage/src/main/resources/static/jquery/encrypt/jsbn.js:339-345 | One row with doubled cross terms: after at most one subtraction of DV and one carry of 1 all digits are digits again and the row's value has been added. |
| BigIntegers.BigInteger.SquareLast | maxkey-web-manage/src/main/resources/static/jquery/encrypt/jsbn.js:346 | The square of the top digit, added to the last digit but one, fits together with its carry. |
| Products.SquareFits | maxkey-web-manage/src/main/resources/static/jquery/encrypt/jsbn.js:346 | Why the last carry cannot overflow. |
| Radix.ToString | maxkey-web-manage/src/main/resources/static/jquery/encrypt/jsbn.js:174-201 | For every integer and every radix 2, 4, 8, 16 or 32: a minus sign if negative, then its digits without leading zeros, though they straddle the words. |
| Radix.FromString | maxkey-web-manage/src/main/resources/static/jquery/encrypt/jsbn.js:129-165 | The number that the digits write, negated if a minus sign precedes the first digit; other characters are skipped. |
| Radix.FromBytes | maxkey-web-manage/src/main/resources/static/jquery/encrypt/jsbn.js:129-165 | The bytes read as two's complement. |
| Radix.PutBits | maxkey-web-manage/src/main/resources/static/jquery/encrypt/jsbn.js:148-157 | k bits go above those already packed, across a word boundary if need be. |
| Radix.TakeDigit | maxkey-web-manage/src/main/resources/static/jquery/encrypt/jsbn.js:188-195 | The next k bits of the number, from one word or from two. |
| Radix.TextReadsBack | maxkey-web-manage/src/main/resources/static/jquery/encrypt/jsbn.js:129-201 | The text that toString promises for v is one that fromString reads as v. |
| Radix.RoundTrip | maxkey-web-manage/src/main/resources/static/jquery/encrypt/jsbn.js:129-201 | fromString(toString(x,b),b) has the value of x. |
| Radix.RadixIsPow2 | maxkey-web-manage/src/main/resources/static/jquery/encrypt/jsbn.js:131-136 | The bits a digit that the code picks are the logarithm of the radix. |
| Radix.DigitChars | maxkey-web-manage/src/main/resources/static/jquery/encrypt/jsbn.js:90-104 | Digit n is character n of 0-9a-z when written, and of 0-9a-z or 0-9A-Z when read. |
| Radix.OtherChars | maxkey-web-manage/src/main/resources/static/jquery/encrypt/jsbn.js:104-107 | No other character is read as a digit. |
| Radix.NumberGrows | maxkey-web-manage/src/main/resources/static/jquery/encrypt/jsbn.js:139-157 | What a string of digits writes: every digit multiplies the number before it by the radix, every other character leaves it as it is. |
| Radix.MinusIs | maxkey-web-manage/src/main/resources/static/jquery/encrypt/jsbn.js:143-146 | A minus sign counts exactly if no digit stands before it. |
| Radix.TwosComplement | maxkey-web-manage/src/main/resources/static/jquery/encrypt/jsbn.js:129-162 | The integer of n bytes is congruent to their number modulo 2^(8n) and lies in [-2^(8n-1), 2^(8n-1)). |
| Padding.PadBlock | maxkey-web-manage/src/main/resources/static/jquery/encrypt/rsa.js:28-59 | null exactly if n < s.length + 11, else n bytes: 00 02 PS 00 M, if the encoded text M leaves room for it; if it does not, the malformed block that the code then builds. PS are the bytes of the random stream at falling places, from the last one drawn to the first, and every other byte drawn is 0. |
| Padding.Pkcs1Pad2 | maxkey-web-manage/src/main/resources/static/jquery/encrypt/rsa.js:28-61 | The integer of that block in two's complement. |
| Padding.PutText | maxkey-web-manage/src/main/resources/static/jquery/encrypt/rsa.js:33-49 | The block ends with the encoding of the text, or with as much of its end as the block holds. |
| Padding.UnpadBlock | maxkey-web-manage/src/main/resources/static/jquery/encrypt/rsa.js:28-61 | A receiver that follows section 7.2.2 of RFC 8017 gets the text back exactly if its bytes number at most n - 11, though the code checks the number of code units. |
| Padding.DecodeEncode | maxkey-web-manage/src/main/resources/static/jquery/encrypt/rsa.js:36-48 | The 1-, 2- and 3-byte forms are read back as the same code units, for every string. |
| Padding.UnitIsShortest | maxkey-web-manage/src/main/resources/static/jquery/encrypt/rsa.js:36-48 | No shorter bytes, and no others of the same length, are read as the code unit. |
| Padding.UnitsInOrder | maxkey-web-manage/src/main/resources/static/jquery/encrypt/rsa.js:36-48 | Larger code units have larger bytes, as section 1 of RFC 3629 has it. |
| Padding.LengthCheck | maxkey-web-manage/src/main/resources/static/jquery/encrypt/rsa.js:29-32 | No text that fits is refused, and for ASCII texts no other is accepted. |
| Padding.LengthCheckFails | maxkey-web-manage/src/main/resources/static/jquery/encrypt/rsa.js:29-32 | Nine euro signs are accepted for a block of 20 bytes that they do not fit. |
| Padding.PaddedRange | maxkey-web-manage/src/main/resources/static/jquery/encrypt/rsa.js:58-60 | The padded integer lies in [2*w, 3*w) for w = 256^(n-2), and 256*w <= modulus: it is below every modulus of that many bytes. |
| Padding.BlockHolds | maxkey-web-manage/src/main/resources/static/jquery/encrypt/rsa.js:92 | The block is of the least number of bytes that hold the modulus. |
| Padding.PaddedDetermines | maxkey-web-manage/src/main/resources/static/jquery/encrypt/rsa.js:28-61 | Two texts that fit and are padded to the same integer are equal. |
| Padding.SecureRandom.NextNonZero | maxkey-web-manage/src/main/resources/static/jquery/encrypt/rsa.js:54-55 | The next byte of the stream that is not 0: all bytes drawn before it in this call are 0. The loop ends on every stream that keeps yielding one. |
| Rsa.RSAKey.Encrypt | maxkey-web-manage/src/main/resources/static/jquery/encrypt/rsa.js:91-98 | null exactly if the text is too long by code units for a block of BlockSize(n) bytes, which Padding.BlockHolds determines; else an even number of lower-case hexadecimal digits that write (padded integer)^e mod n, padded with the nonzero bytes of the random stream. |
| Rsa.RSAKey.DoPublic | maxkey-web-manage/src/main/resources/static/jquery/encrypt/rsa.js:86-88 | x^e mod n, and 1 for an e outside 1, ..., 2^32 - 1. |
| Rsa.RSAKey.SetPublic | maxkey-web-manage/src/main/resources/static/jquery/encrypt/rsa.js:76-83 | Both parts are read, or nothing changes if one is missing or empty. |
| Rsa.ParsersAgree | maxkey-web-manage/src/main/resources/static/jquery/encrypt/rsa.js:78-79 | On a plain hexadecimal string parseInt and the BigInteger constructor read the same number. |
| Rsa.ParseIntReads | maxkey-web-manage/src/main/resources/static/jquery/encrypt/rsa.js:79 | parseInt(s, 16) reads white space, a sign, the mark 0x, digits and anything after them as the number that the digits write. |
| Rsa.ParseIntParts | maxkey-web-manage/src/main/resources/static/jquery/encrypt/rsa.js:79 | It reads no other text. |
| Rsa.CiphertextRecovers | maxkey-web-manage/src/main/resources/static/jquery/encrypt/rsa.js:86-98 | Whoever holds an inverse exponent recovers the text from the ciphertext of any text whose bytes fit. |
| Base64.Hex2B64 | maxkey-web-manage/src/main/resources/static/jquery/encrypt/base64.js:4-22 | The letters of the digits, 12 bits at a time, padded to a multiple of four. |
| Base64.EncodesBytes | maxkey-web-manage/src/main/resources/static/jquery/encrypt/base64.js:4-22 | For the digits of bytes that is the encoding of section 4 of RFC 4648. |
| Base64.B64ToHex | maxkey-web-manage/src/main/resources/static/jquery/encrypt/base64.js:25-59 | For every string: the digits of the letters before the first pad character, other characters skipped. |
| Base64.Step | maxkey-web-manage/src/main/resources/static/jquery/encrypt/base64.js:34-54 | Each of the four states adds the digits that its letter completes and keeps the others. |
| Base64.SextetsBack | maxkey-web-manage/src/main/resources/static/jquery/encrypt/base64.js:4-59 | Decoding undoes encoding for whole bytes; of an odd number of digits the last is lost if three remain modulo six, else a 0 is appended. |
| Base64.HexRoundTrip | maxkey-web-manage/src/main/resources/static/jquery/encrypt/base64.js:4-59 | b64tohex(hex2b64(h)) = h exactly for the lower-case strings of even length. |
| Base64.B64ToBA | maxkey-web-manage/src/main/resources/static/jquery/encrypt/base64.js:62-71 | The bytes whose digits b64tohex returns. |
| Base64.StandardRoundTrip | maxkey-web-manage/src/main/resources/static/jquery/encrypt/base64.js:25-71 | Every sequence of bytes comes back from its standard encoding. |
| Base64.LetterIs | maxkey-web-manage/src/main/resources/static/jquery/encrypt/base64.js:1 | Letter v is character v of the table. |
| Base64.IndexIs | maxkey-web-manage/src/main/resources/static/jquery/encrypt/base64.js:1-33 | No other character has an index. |
| Base64.ToSextetsValue | maxkey-web-manage/src/main/resources/static/jquery/encrypt/base64.js:8-19 | For every number of digits the letters write the number of the digits, with zero bits behind it that fill the last letter. |
| Base64.PadFills | maxkey-web-manage/src/main/resources/static/jquery/encrypt/base64.js:20 | The pad characters are the fewest that make the length a multiple of four. |
| Base64.FromSextetsValue | maxkey-web-manage/src/main/resources/static/jquery/encrypt/base64.js:31-57 | For every number of letters the digits write the number of the letters without the bits left over; a lone last letter gets two zero bits more. |
| Base64.DigitsOfBytesValue | maxkey-web-manage/src/main/resources/static/jquery/encrypt/base64.js:62-71 | The digits of bytes write the number of the bytes. |
| Base64.ValuesSkip | maxkey-web-manage/src/main/resources/static/jquery/encrypt/base64.js:31-33 | A pad character ends the text, another character outside the table is skipped. |
| UuidTimestamp.NextRandomClockSequence | maxkey-core/src/main/java/org/maxkey/uuid/UUIDRandomness.java:49-57 | A clock sequence in range and different from the previous one. |
| UuidTimestamp.NextSequenceIsFair | maxkey-core/src/main/java/org/maxkey/uuid/UUIDRandomness.java:49-57 | Every other clock sequence comes from exactly one draw. |
| UuidTimestamp.UnsynchronizedTimestampUUIDGenerator.CheckSystemTime | maxkey-core/src/main/java/org/maxkey/uuid/UnsynchronizedTimestampUUIDGenerator.java:71-83 | The new state as a function of the old one and the clock: a new sequence if it went back, a cleared counter if it moved. |
| UuidTimestamp.UnsynchronizedTimestampUUIDGenerator.NextUUID | maxkey-core/src/main/java/org/maxkey/uuid/UnsynchronizedTimestampUUIDGenerator.java:101-112 | State, exception and UUID of one call; the clock is read only when the counter has passed CLOCK_RES. |
| UuidTimestamp.UnsynchronizedTimestampUUIDGenerator.Create | maxkey-core/src/main/java/org/maxkey/uuid/UnsynchronizedTimestampUUIDGenerator.java:52-65 | The constructor, with its exceptions; the node bytes are copied. |
| UuidTimestamp.TimestampUUIDGenerator.NextUUID | maxkey-core/src/main/java/org/maxkey/uuid/TimestampUUIDGenerator.java:48-54 | The same with the clock read before each UUID. |
| UuidTimestamp.PackReads | maxkey-core/src/main/java/org/maxkey/uuid/UnsynchronizedTimestampUUIDGenerator.java:103-111 | A reader that follows sections 4.1.1 to 4.1.5 of RFC 4122 finds variant, version, 60-bit timestamp, clock sequence and node. |
| UuidTimestamp.PackNumber | maxkey-core/src/main/java/org/maxkey/uuid/UnsynchronizedTimestampUUIDGenerator.java:103-111 | The 128 bits of the UUID as section 4.1.2 of RFC 4122 lays them out: low, middle and high time, version 1, variant 10 (binary), clock sequence, node. |
| UuidTimestamp.TimeCounts | maxkey-core/src/main/java/org/maxkey/uuid/UnsynchronizedTimestampUUIDGenerator.java:27-37 | A timestamp counts units of 100 ns from 15 October 1582, by the Gregorian calendar, and CLOCK_RES of them make a millisecond. |
| UuidTimestamp.SequencesFill | maxkey-core/src/main/java/org/maxkey/uuid/UUIDRandomness.java:49-57 | The clock sequences are all numbers of 14 bits. |
| UuidTimestamp.PackAgrees | maxkey-core/src/main/java/org/maxkey/uuid/UnsynchronizedTimestampUUIDGenerator.java:103-111 | Two UUIDs of a node are equal exactly if their clock sequences are and their timestamps agree modulo 2^60. |
| UuidTimestamp.PackWraps | maxkey-core/src/main/java/org/maxkey/uuid/UnsynchronizedTimestampUUIDGenerator.java:101-111 | A unique_time that overflows its long gives the same UUID as the exact number, on every clock. |
| UuidTicks.TimesRise | maxkey-core/src/main/java/org/maxkey/uuid/TimestampUUIDGenerator.java:48-54 | Over every run on a clock that does not go back, with ticks anywhere, timestamps strictly rise exactly if, each time the clock ticked inside a call whose counter was used up, the next call reads a time further on than that counter had run ahead. |
| UuidTicks.TimesDiffer | maxkey-core/src/main/java/org/maxkey/uuid/TimestampUUIDGenerator.java:48-54 | Over every such run no timestamp is issued twice exactly if no call that issues one arrives at a timestamp that an earlier call with such a tick has drawn in advance. |
| UuidTicks.RunIsUniqueIf | maxkey-core/src/main/java/org/maxkey/uuid/TimestampUUIDGenerator.java:48-54 | Over every run on a clock that does not go back, no UUID is issued twice exactly if no timestamp drawn in advance is reached and no two different timestamps agree modulo 2^60. |
| UuidTicks.ApartWithin | maxkey-core/src/main/java/org/maxkey/uuid/UnsynchronizedTimestampUUIDGenerator.java:103-111 | Timestamps within 3653 years of each other, whenever that is, do not agree modulo 2^60 unless they are equal. |
| UuidTicks.StampsAre | maxkey-core/src/main/java/org/maxkey/uuid/UnsynchronizedTimestampUUIDGenerator.java:71-104 | The timestamps of a run are those of the calls that do not throw: time read first, plus the number of calls before in that millisecond, those that threw included; all carry one clock sequence. |
| UuidTicks.StepBackIsUniqueIf | maxkey-core/src/main/java/org/maxkey/uuid/UnsynchronizedTimestampUUIDGenerator.java:71-83 | If the clock goes back once, between two calls, no UUID is issued twice exactly if that holds for the run before and for the run after: the new clock sequence keeps them apart. |
| UuidTicks.StepInsideCallIsUniqueIf | maxkey-core/src/main/java/org/maxkey/uuid/UnsynchronizedTimestampUUIDGenerator.java:71-104 | If it goes back once inside a call, between its two readings, that call carries the time before the step with the new clock sequence: no UUID is issued twice exactly if that holds for both runs and the run after does not reach that timestamp, or one that agrees with it modulo 2^60. |
| UuidTicks.StepInsideCall | maxkey-core/src/main/java/org/maxkey/uuid/UnsynchronizedTimestampUUIDGenerator.java:89-104 | A step back by one millisecond inside a call, after which the next call issues the same UUID. |
| UuidTicks.TickInsideCall | maxkey-core/src/main/java/org/maxkey/uuid/UnsynchronizedTimestampUUIDGenerator.java:89-104 | For every counter of CLOCK_RES or more the guard lets one UUID more through if the clock ticks inside that call; the next one comes after it exactly if the clock has moved on further than the counter had run ahead, and equals it exactly if it has moved on just as far. |
| UuidTicks.TickAfterException | maxkey-core/src/main/java/org/maxkey/uuid/UnsynchronizedTimestampUUIDGenerator.java:89-104 | A call that throws and then a call with a tick: timestamps fall, and the third UUID of the run is its first one again. |
| AnyClock.NoCollision | maxkey-core/src/main/java/org/maxkey/uuid/TimestampUUIDGenerator.java:48-54 | On every clock, however it moves: two calls do not issue the same UUID unless the clock moved inside the first one, whose counter was used up, and has not gone back since; or it has gone back twice in between; or 3653 years lie between their timestamps. |
| AnyClock.RunIsUniqueIf | maxkey-core/src/main/java/org/maxkey/uuid/TimestampUUIDGenerator.java:48-54 | On every clock no UUID is issued twice exactly if none of these pairs agrees in clock sequence and timestamp modulo 2^60. |
| AnyClock.RunIsUnique | maxkey-core/src/main/java/org/maxkey/uuid/TimestampUUIDGenerator.java:48-54 | So every run of less than 3653 years is free of repeats in which the clock goes back at most once and never moves inside a call that finds the counter used up. |
| UnsynchronizedRuns.TimesIncrease | maxkey-core/src/main/java/org/maxkey/uuid/UnsynchronizedTimestampUUIDGenerator.java:101-104 | Without a look at the clock before each UUID, timestamps strictly increase on a clock that does not go back exactly if the clock has moved on further than the counter had run ahead, each time it is read. |
| UnsynchronizedRuns.TimesAre | maxkey-core/src/main/java/org/maxkey/uuid/UnsynchronizedTimestampUUIDGenerator.java:101-104 | These are the times of the UUIDs of the run, and then that of the next one. |
| UnsynchronizedRuns.SameRun | maxkey-core/src/main/java/org/maxkey/uuid/UnsynchronizedTimestampUUIDGenerator.java:89-104 | Every run of the unsynchronized generator issues what the synchronized one issues in a run that finds the clock unmoved at the first reading of each call, and takes the reading of the other one for its second. |
| UnsynchronizedRuns.RunIsUniqueIf | maxkey-core/src/main/java/org/maxkey/uuid/UnsynchronizedTimestampUUIDGenerator.java:101-104 | On a clock that does not go back it issues no UUID twice exactly if, in that run, no timestamp drawn in advance is reached and no two different ones agree modulo 2^60. |
| UnsynchronizedRuns.StepBackIsUniqueIf | maxkey-core/src/main/java/org/maxkey/uuid/UnsynchronizedTimestampUUIDGenerator.java:71-104 | If the clock goes back once, which this generator sees only inside a call, no UUID is issued twice exactly if that holds for both runs and the run after does not reach the timestamp of that call, or one that agrees with it modulo 2^60. |
| UnsynchronizedRuns.AnyRunIsUniqueIf | maxkey-core/src/main/java/org/maxkey/uuid/UnsynchronizedTimestampUUIDGenerator.java:71-104 | On every clock no UUID is issued twice exactly if, in that run, none of the pairs that may collide does. |
| UnsynchronizedRuns.OutOfOrderOnly | maxkey-core/src/main/java/org/maxkey/uuid/UnsynchronizedTimestampUUIDGenerator.java:101-104 | A run whose timestamps fall and which has not repeated any: order and uniqueness fail under different conditions. |
| UnsynchronizedRuns.NextMillisecondRepeats | maxkey-core/src/main/java/org/maxkey/uuid/UnsynchronizedTimestampUUIDGenerator.java:101-104 | If it shows the very next millisecond when the counter is used up, the next UUID is a duplicate. |
| Uuids.BytesRoundTrip | maxkey-core/src/main/java/org/maxkey/uuid/UUID.java:167-197 | Reading the 16 bytes restores the fields. |
| Uuids.FieldsRoundTrip | maxkey-core/src/main/java/org/maxkey/uuid/UUID.java:156-197 | Writing fields that were read restores the 16 bytes. |
| Uuids.BytesNumber | maxkey-core/src/main/java/org/maxkey/uuid/UUID.java:189-197 | The 16 bytes as one number: the fields in their order, most significant first. |
| UuidText.TextRoundTrip | maxkey-core/src/main/java/org/maxkey/uuid/UUID.java:109-135 | Reading the text restores every field exactly if the top bit of time_low is clear; with that bit the constructor throws, although the text has only hexadecimal digits where the comment asks for them. |
| UuidText.TextIs | maxkey-core/src/main/java/org/maxkey/uuid/UUID.java:278-300 | The text is that of section 3 of RFC 4122: 36 characters, hyphens in the four places, lower-case digits elsewhere, which write the 16 bytes in order. |
| UuidText.FieldsWrite | maxkey-core/src/main/java/org/maxkey/uuid/UUID.java:116-135 | A text that is read, and has no plus sign, writes the 16 bytes in its digits, of either case. |
| UuidText.TextRefused | maxkey-core/src/main/java/org/maxkey/uuid/UUID.java:109-135 | A UUID that the generator can issue and whose text is refused. |
| UuidText.FieldAccepts | maxkey-core/src/main/java/org/maxkey/uuid/UUID.java:267-273 | A field of at most eight characters is read exactly if it consists of hexadecimal digits, or of a plus sign and at least one, and does not write 2^31 or more; the value is what the digits write. |
| UuidText.FieldsAccept | maxkey-core/src/main/java/org/maxkey/uuid/UUID.java:116-135 | The constructor takes exactly the texts of 36 characters with hyphens in the four places and hexadecimal digits in the others, the very first below 8, where a plus sign may stand for the first digit of any field. |
| UuidText.PlusAccepted | maxkey-core/src/main/java/org/maxkey/uuid/UUID.java:109-135 | Such a text with a plus sign in every field. |
| UuidText.TextDetermines | maxkey-core/src/main/java/org/maxkey/uuid/UUID.java:278-300 | Different UUIDs have different texts. |
| UuidObjects.UUID.Equals | maxkey-core/src/main/java/org/maxkey/uuid/UUID.java:207-228 | Equality of values, although different cached hash codes end the comparison early. |
| UuidObjects.UUID.HashCode | maxkey-core/src/main/java/org/maxkey/uuid/UUID.java:233-245 | A nonzero function of the value, cached. |
| UuidObjects.HashIs | maxkey-core/src/main/java/org/maxkey/uuid/UUID.java:233-245 | It is s[0]*31^35 + ... + s[35] of the text, with wrap-around, and -1 where that gives 0. |
| UuidObjects.UUID.ToString | maxkey-core/src/main/java/org/maxkey/uuid/UUID.java:278-300 | The text of the value, cached. |
| UuidObjects.UUID.Create | maxkey-core/src/main/java/org/maxkey/uuid/UUID.java:89-107 | The fields as given, with a copy of the node bytes; null for a missing node or one of another length. |
| UuidObjects.UUID.ToByteArray | maxkey-core/src/main/java/org/maxkey/uuid/UUID.java:306-322 | The 16 bytes, in an array of the caller's own. |
| UuidObjects.UUID.FromBytes | maxkey-core/src/main/java/org/maxkey/uuid/UUID.java:156-165 | The fields of 16 bytes, null for any other number. |
| UuidObjects.UUID.FromText | maxkey-core/src/main/java/org/maxkey/uuid/UUID.java:116-135 | The fields that the text writes, null where the constructor throws. |
| UuidObjects.AppendHex | maxkey-core/src/main/java/org/maxkey/uuid/UUID.java:250-262 | Masking and padding give exactly the low digits, for negative numbers as well. |
| IdSequences.IdSequence.Next | maxkey-core/src/main/java/org/maxkey/util/IdSequence.java:38-53 | Date, node number, time and the next counter; the counter starts again when the second changes. |
| IdSequences.CounterIs | maxkey-core/src/main/java/org/maxkey/util/IdSequence.java:97-120 | After any run the counter is the number of consecutive calls in the last second, modulo 10000. |
| IdSequences.IdIsDrawn | maxkey-core/src/main/java/org/maxkey/util/IdSequence.java:38-53 | The id of call i is the one that Next makes of the state after the calls up to it. |
| IdSequences.IdDetermines | maxkey-core/src/main/java/org/maxkey/util/IdSequence.java:48-52 | An id tells the second and the counter. |
| IdSequences.IdParts | maxkey-core/src/main/java/org/maxkey/util/IdSequence.java:48-52 | The parts in order: eight characters of the date, the node number, six of the time, and the counter in decimal digits. |
| IdSequences.FourDigitsAre | maxkey-core/src/main/java/org/maxkey/util/IdSequence.java:99 | Four decimal digits that write the counter. |
| IdSequences.LastCounter | maxkey-core/src/main/java/org/maxkey/util/IdSequence.java:98 | The largest counter is 9999. |
| IdSequences.IdsAreUnique | maxkey-core/src/main/java/org/maxkey/util/IdSequence.java:11-53 | On every clock, no id is drawn twice exactly if the clock never returns to a second that it has left and no second draws more than 10000 ids. |
| IdSequences.ReturningClockRepeats | maxkey-core/src/main/java/org/maxkey/util/IdSequence.java:106-120 | An example: the clock shows one second, another one and the first one again, as local time does once a year; the third id is the first one. |
| IdSequences.IdLength | maxkey-core/src/main/java/org/maxkey/util/IdSequence.java:48-52 | 20 characters exactly for a node number of two. |
| CounterUuids.CountersAgree | maxkey-core/src/main/java/org/maxkey/util/UUIDGenerator.java:41-50 | With both increments the counter returns to a value after 2^32 draws and not before. |
| CounterUuids.OneStep | maxkey-core/src/main/java/org/maxkey/util/UUIDGenerator.java:41-50 | Adding the increment with wrap-around is one step of that counter. |
| CounterUuids.ReversedCollide | maxkey-core/src/main/java/org/maxkey/util/UUIDGenerator.java:44-47 | In the variable mode two counters get the same four bytes exactly if they are equal, or both negative and different only in bits 24 to 27, because the shift in line 47 keeps the sign. |
| CounterUuids.ReversedText | maxkey-core/src/main/java/org/maxkey/util/UUIDGenerator.java:44-47 | The eight hexadecimal digits of the four bytes are those of the counter in reverse order, except that a negative counter has f at index 6. |
| CounterUuids.SequentialAgree | maxkey-core/src/main/java/org/maxkey/util/UUIDGenerator.java:53-56 | In the sequential mode only equal counters get the same four bytes. |
| CounterUuids.ReversedCollideExample | maxkey-core/src/main/java/org/maxkey/util/UUIDGenerator.java:44-47 | Two negative counters that get the same four bytes. |
| CounterUuids.ContentsAgree | maxkey-core/src/main/java/org/maxkey/util/UUIDGenerator.java:35-79 | Two ids of one mode, process and card are equal exactly if their times agree modulo 2^48 and their counters get the same four bytes. |
| CounterUuids.IdsAgree | maxkey-core/src/main/java/org/maxkey/util/UUIDGenerator.java:35-79 | Of 2^32 consecutive ids of one mode two are equal exactly if, in the variable mode, both counters are negative and different only in bits 24 to 27, and the times agree modulo 2^48; in the sequential mode never, whatever the clock shows. |
| CounterUuids.Shared.Generate | maxkey-core/src/main/java/org/maxkey/util/UUIDGenerator.java:35-79 | The counter takes one step, and the content is made of it, the process, the card and the time, as ContentParts and ReversedText say. |
| CounterUuids.ContentParts | maxkey-core/src/main/java/org/maxkey/util/UUIDGenerator.java:39-78 | Where the parts stand: the counter in bytes 0 to 3, the process in 4 and 5, version b and 28 bits of the card in 6 to 9, the time in 10 to 15. |
| CounterUuids.GettersReturn | maxkey-core/src/main/java/org/maxkey/util/UUIDGenerator.java:244-297 | The getters return what the id was made of, as far as its bytes go. |
| CounterUuids.IdRoundTrip | maxkey-core/src/main/java/org/maxkey/util/UUIDGenerator.java:92-238 | Reading the text restores all 16 bytes. |
| CounterUuids.IdTextIs | maxkey-core/src/main/java/org/maxkey/util/UUIDGenerator.java:196-238 | The text of an id is that of section 3 of RFC 4122 for its 16 bytes. |
| CounterUuids.ReadIdWrites | maxkey-core/src/main/java/org/maxkey/util/UUIDGenerator.java:92-116 | After trimming, exactly the texts of 36 characters are read that have hexadecimal digits of either case except in the four places of the hyphens, where anything may stand; the digits write the bytes. |
| CounterUuids.TrimIs | maxkey-core/src/main/java/org/maxkey/util/UUIDGenerator.java:92-98 | Trimming cuts off what is not above a space, on both sides and nothing else. |
| EthernetAddresses.FromText | maxkey-core/src/main/java/org/maxkey/util/EthernetAddress.java:49-121 | The loop computes ParseFrom, which reads the text field by field. |
| EthernetAddresses.FromTextAccepts | maxkey-core/src/main/java/org/maxkey/util/EthernetAddress.java:38-121 | It accepts exactly the texts that start with six octets separated by colons, each with its leading zeros or without, and then end or go on with a colon and anything; the address is what the octets make up. |
| EthernetAddresses.OctetIs | maxkey-core/src/main/java/org/maxkey/util/EthernetAddress.java:69-105 | An octet of two digits, one or none is the number that its digits write. |
| EthernetAddresses.CombineIs | maxkey-core/src/main/java/org/maxkey/util/EthernetAddress.java:106-121 | The address is the number whose bytes are the octets in order. |
| EthernetAddresses.NullAddress | maxkey-core/src/main/java/org/maxkey/util/EthernetAddress.java:42-46 | Five colons are the address 0. |
| EthernetAddresses.AddressTextRoundTrip | maxkey-core/src/main/java/org/maxkey/util/EthernetAddress.java:426-453 | The text has 17 characters and is read as the low 48 bits of the address. |
| EthernetAddresses.EthernetAddress.ToString | maxkey-core/src/main/java/org/maxkey/util/EthernetAddress.java:426-453 | The text of the address, cached. |
| EthernetAddresses.EthernetAddress.FromBytes | maxkey-core/src/main/java/org/maxkey/util/EthernetAddress.java:128-139 | The address that six bytes make up, null for any other number. |
| EthernetAddresses.EthernetAddress.ToByteArray | maxkey-core/src/main/java/org/maxkey/util/EthernetAddress.java:341-354 | Six bytes are written at pos and nothing else changes if they fit. If they do not, the illegal offset is reported and nothing changes, unless pos is so near 2^31 that pos + 6 overflows: then the guard lets it pass, and the bytes up to the end of the array are written before the access behind it fails. |
| EthernetAddresses.AddressBytesRoundTrip | maxkey-core/src/main/java/org/maxkey/util/EthernetAddress.java:128-354 | The two byte conversions undo each other, up to 48 bits. |
| Exponent.Convert | maxkey-web-manage/src/main/resources/static/jquery/encrypt/jsbn.js:410-467 | Either reducer: the result is reduced and stands for x, with the factor 1 or DV^t. |
| Exponent.Revert | maxkey-web-manage/src/main/resources/static/jquery/encrypt/jsbn.js:414-475 | Either reducer: a number that stands for a becomes a mod m. |
| Exponent.ReduceProduct | maxkey-web-manage/src/main/resources/static/jquery/encrypt/jsbn.js:415-500 | The common last step: a product of two reduced numbers is reduced and stands for the product. |
| Division.AddMultiple | maxkey-web-manage/src/main/resources/static/jquery/encrypt/jsbn.js:384 | qd times y goes into digits j, ..., j + ys, and no other digit changes. |
| BigIntegers.BigInteger.Settle | maxkey-web-manage/src/main/resources/static/jquery/encrypt/jsbn.js:314-318 | A carry of -2 to 1 out of i digits becomes a sign word and at most one more digit, clamped. |
| BigIntegers.BigInteger.CarryUp | maxkey-web-manage/src/main/resources/static/jquery/encrypt/jsbn.js:298-302 | The longer minuend: its remaining digits and the carry, the value kept. |
| BigIntegers.BigInteger.BorrowUp | maxkey-web-manage/src/main/resources/static/jquery/encrypt/jsbn.js:307-311 | The longer subtrahend: its remaining digits taken from the carry, the value kept. |
| BigIntegers.BigInteger.LShiftDigits | maxkey-web-manage/src/main/resources/static/jquery/encrypt/jsbn.js:255-262 | The shifted digits above digit ds, and the digit still to go there. |
| BigIntegers.BigInteger.RShiftDigit | maxkey-web-manage/src/main/resources/static/jquery/encrypt/jsbn.js:279-282 | One digit gives its low bits to the digit before and keeps the others. |
| BigIntegers.BigInteger.RShiftDigits | maxkey-web-manage/src/main/resources/static/jquery/encrypt/jsbn.js:278-282 | All digits from ds on, shifted right by bs bits. |
| BigIntegers.BigInteger.MultiplyDigits | maxkey-web-manage/src/main/resources/static/jquery/encrypt/jsbn.js:325-330 | The product of the magnitudes, row by row. |
| BigIntegers.BigInteger.SquareProducts | maxkey-web-manage/src/main/resources/static/jquery/encrypt/jsbn.js:340-341 | The two am calls of a row add its square and its doubled cross terms, all but their last carry. |
| BigIntegers.BigInteger.SquareDigits | maxkey-web-manage/src/main/resources/static/jquery/encrypt/jsbn.js:336-348 | The square of the magnitude. |
| Radix.PutStraddling | maxkey-web-manage/src/main/resources/static/jquery/encrypt/jsbn.js:151-152 | The low bits complete the last word, the others start a new one. |
| Radix.PutAbove | maxkey-web-manage/src/main/resources/static/jquery/encrypt/jsbn.js:155 | All bits go above those of the last word. |
| Radix.WriteDigits | maxkey-web-manage/src/main/resources/static/jquery/encrypt/jsbn.js:183-199 | The digits of a number that is not negative, none for 0. |
| Radix.WriteRest | maxkey-web-manage/src/main/resources/static/jquery/encrypt/jsbn.js:187-198 | From any full digit on, the remaining digits are written and the leading zeros are not. |
| Padding.PutRandom | maxkey-web-manage/src/main/resources/static/jquery/encrypt/rsa.js:53-57 | The nonzero bytes of the random stream, the latest first, down to index 2. |
| Padding.DrawnIsNonZero | maxkey-web-manage/src/main/resources/static/jquery/encrypt/rsa.js:53-57 | None of the drawn bytes is 0, as UnpadBlock and CiphertextRecovers demand of the padding. |
| UuidTimestamp.UnsynchronizedTimestampUUIDGenerator.AdjustmentOverflow | maxkey-core/src/main/java/org/maxkey/uuid/UnsynchronizedTimestampUUIDGenerator.java:89-94 | The clock is read, and the call succeeds exactly if the counter is below CLOCK_RES afterwards. |

## Left out

- BigIntegers.BigInteger.Am1: demands, beyond the operand bounds of its comment, that the first product cannot pass 2^53; Kernels.Am1Limit says for which operands that follows from the bounds.
- Exponent.ModPowInt: moduli below 1 are outside its precondition; for 0 the division leaves a number without any digits or sign.
- Radix.FromString: a digit that is too large for the radix is outside its precondition; the code ors it into the bits of its neighbour.
- Rsa.RSAKey.Encrypt: a key whose exponent text parseInt reads as NaN is outside its precondition, and so is a negative modulus.
- Rsa.RSAKey.DoPublic: the same, and a key that has no modulus yet, on which the code fails.
- Rsa.RSAKey.SetPublic: a modulus text with letters beyond f is outside its precondition.
- Base64.Hex2B64: a string with characters that are not hexadecimal, which parseInt cuts off or reads as NaN, is outside its precondition.
- Base64.HexRoundTrip: the same.
- UuidObjects.AppendHex: 1 to 15 digits; the method is private and its callers ask for 8, 4 and 2.
- Division.EstimateDigit: d1 and d2 are exact quotients; binary floating point is not modelled. Division.TryDigit, which uses the estimate, tolerates any overestimate up to DV, so what is assumed of rounding is only that `e` keeps the estimate from falling below the digit and above DV.
- IdSequences.IdSequence.Next: the node number is a constant; reading it from the configuration and the network cards is not modelled.
- The branch of IdSequence.next for a missing date: formatting a date never returns null.
- Rounding of integers above 2^53 by parseInt: it changes no result, since modPowInt returns 1 for all of them.
- BigInteger.ZERO and BigInteger.ONE are new objects wherever the source uses the shared ones.
- `fromRadix` and `toRadix`, for radices that are not powers of two: jsbn.js calls them but does not define them.
- The choice of the kernel from the browser's name: all three are covered.
- The generator behind SecureRandom (`rng.js`, `prng4.js`): a stream of bytes that keeps yielding nonzero ones.
- `linebrk`, `byte2Hex`, and the alerts of `rsa.js`: display only.
- The private-key fields of RSAKey, which `rsa.js` never uses.
- Locking in the generators: each call is one step, which is what `synchronized` provides.
- Inheritance between the two timestamp generators: the subclass holds its superclass as an object.
- `UUID.fromName` and `UUID.generate`, Java serialization, and reading from a DataInput that fails.
- Digits and white space outside ASCII in Integer.parseInt and Character.digit.
- `useSequentialIds` and `useVariableIds`, the process id and the network card: inputs of the model.
- The web application around these classes, its domain objects and its other utilities, `jquery.md5.js` included: wiring, or rounds that could only be proved against a copy of themselves.
