# FloatingBar Rational32 in Dafny

A model of `Rational32`, FloatingBar's 32-bit "floating bar" rational number,
with proofs about its encoding, its predicates, its integer conversion, its
reciprocal and its addition.

A `Rational32` is a single 32-bit word:

- bit 31 is the sign;
- bits 30..26 are the split `len`, the bit length of the denominator minus one;
- bits 25..0 are the payload. The low `len` bits hold the denominator below an
  implicit leading 1 at bit `len`. The remaining `26 - len` high bits hold the
  numerator. At `len == 26` no bits remain, and the numerator is implicitly 1;
- a split above 26 is NaN. The canonical NaN word is `0x7C000000`.

The project has three modules:

- `Bits` (Bits.dfy): the C# integer semantics the source relies on, written out
  explicitly. `uint32`/`int32` ranges; two's-complement wrap of `int` and
  `(uint)` casts; shift counts masked to 5 bits for `int` and 6 bits for `long`;
  shifts as multiplication and division by powers of two; `|`, `&` and `^` on
  naturals, bit by bit; `BitLen`.
- `Codec` (Codec.dfy): the word, its field accessors, the constructor
  `Rational32(bool, uint, uint)` as an imperative method `Encode` proved equal
  to the layout function `Pack`, the bit-count routine `LeadingZeros`, and the
  encode/decode round trips.
- `Arithmetic` (Arithmetic.dfy): `Sign`, `IsNegative`, `FromInt`, `Reciprocal`,
  `GCD`, `WouldOverflow` and `Add` with its precision-reduction loop. A ghost
  real `Value` gives each non-NaN word its meaning, numerator over
  denominator with the sign of bit 31, so results are stated as rationals.

C#'s `long` arithmetic in `Add` is modelled on unbounded `int`. For non-NaN
operands `ExactSum` proves `|num| < 2^54` and `den < 2^54`, so no 64-bit
overflow can occur. The `(uint)num` and `(uint)den` casts are written
literally as reductions modulo 2^32.

## Model

The source's operations without loops are functions whose meaning is stated
by the lemmas below rather than by their own contracts: `Codec.Pack` is the
word the constructor builds, `Arithmetic.IsNegative` is `IsNegative()`,
`Arithmetic.FromInt` is `FromInt(int)`, `Arithmetic.Reciprocal` is
`Reciprocal()`, and `Arithmetic.AddWord` is the result of `Add`, which the
method `Arithmetic.Add` computes.

| member | source | states |
|---|---|---|
| Codec.DenominatorSize | FloatingBar/Rational32.cs:130-133 | the split field read from bits 30..26 is below 32 |
| Codec.Denominator | FloatingBar/Rational32.cs:138-143 | below split 31 the denominator lies in [2^len, 2^(len+1)); for a non-NaN word it is in [1, 2^27); at split 31, `1 << 31` makes it negative |
| Codec.Numerator | FloatingBar/Rational32.cs:151-158 | the numerator fits in the 26 - len payload bits above the denominator, is 0 for a NaN split, and never exceeds MaxInt |
| Codec.IsNaN | FloatingBar/Rational32.cs:105-108 | a word is NaN exactly when its split exceeds 26; the `Value == SizeBits` test is subsumed |
| Codec.Split | FloatingBar/Rational32.cs:39 | `len = 32 - LeadingZeros(d) - 1` is -1 exactly for d == 0, else 2^len <= d < 2^(len+1); len <= 26 iff d < 2^27; len == 26 iff 2^26 <= d < 2^27 |
| Codec.SplitRange | FloatingBar/Rational32.cs:39 | the bit length of a 32-bit denominator is at most 27 exactly when it is below 2^27, and exactly 27 when it is in [2^26, 2^27) |
| Codec.LeadingZeros | FloatingBar/Rational32.cs:48-66 | returns 32 - BitLen(x): 32 for x == 0, else r with 2^(31-r) <= x < 2^(32-r) |
| Codec.Encode | FloatingBar/Rational32.cs:37-46 | an assignment and three or-assignment steps, with C# shift, wrap and cast semantics, build exactly the layout word `Pack(isNegative, numerator, denominator)` |
| Codec.EncodeSizeField | FloatingBar/Rational32.cs:42-43 | the sign and `(uint)(len << 26)` steps give sign plus len in bits 30..26, or 0xFC000000 for len == -1 |
| Codec.EncodeNumeratorField | FloatingBar/Rational32.cs:44 | the numerator step adds `numerator mod 2^(26-len)` shifted by len when len <= 26, and adds nothing when len is -1 or above 26 |
| Codec.NumeratorFieldInRange | FloatingBar/Rational32.cs:44 | the mask `(dfield ^ ValueBits) >> len` keeps exactly the low 26 - len bits of the numerator |
| Codec.EncodeDenominatorField | FloatingBar/Rational32.cs:45 | `denominator & dfield` completes the word to `Pack(...)` |
| Codec.SpilledFieldsBound | FloatingBar/Rational32.cs:39-46 | for a denominator of 2^27 or more, the split and masked denominator bits stay below the sign bit |
| Codec.PackDecode | FloatingBar/Rational32.cs:37-46 | for 1 <= d < 2^27 the constructed word decodes to split len, denominator d, numerator `n mod 2^(26-len)` (1 at len == 26), sign bit isNegative, and is not NaN |
| Codec.DecodePack | FloatingBar/Rational32.cs:130-158 | every non-NaN word is reconstructed exactly by the constructor from its own sign, numerator and denominator |
| Codec.PackOutOfRange | FloatingBar/Rational32.cs:37-46 | a denominator of 0 or of 2^27 or more yields a NaN word; d == 0 also sets the sign bit |
| Arithmetic.Sign | FloatingBar/Rational32.cs:96-100 | the sign is -1, 0 or 1 |
| Arithmetic.SignOfValue | FloatingBar/Rational32.cs:96-100 | Sign is 0 for NaN; otherwise it is 1, 0 or -1 exactly as the value is positive, zero or negative |
| Arithmetic.IsNegativeOfValue | FloatingBar/Rational32.cs:125-128 | IsNegative holds iff the word is not NaN and its value is negative |
| Arithmetic.ValueBySign | FloatingBar/Rational32.cs:96-100 | the value equals Numerator * Sign / Denominator |
| Arithmetic.FromIntExact | FloatingBar/Rational32.cs:77-83 | for abs(i) <= MaxInt: numerator abs(i), denominator 1, sign bit i < 0, value i |
| Arithmetic.FromIntSaturates | FloatingBar/Rational32.cs:77-83 | for abs(i) > MaxInt (except int.MinValue) the result equals FromInt(±MaxInt), value ±MaxInt |
| Arithmetic.FromIntMinValue | FloatingBar/Rational32.cs:77-83 | `-i` wraps for int.MinValue, so the word is 0x80000000: negative zero with Sign 0 and value 0 |
| Arithmetic.FromIntExamples | FloatingBar.Tests/ConversionTests.cs:22-58 | FromInt(1234) is 1234, FromInt(2^26-1) is 2^26-1, FromInt(±123456789) saturates to ±67108863 |
| Arithmetic.ReciprocalNaN | FloatingBar/Rational32.cs:113-120 | the reciprocal is NaN iff the split is at least 26 or the numerator is 0, and then it is the canonical NaN |
| Arithmetic.ReciprocalSwaps | FloatingBar/Rational32.cs:113-120 | otherwise numerator and denominator are swapped with no bits lost, the sign bit is kept, and the new split is below 26 - len |
| Arithmetic.ReciprocalValue | FloatingBar/Rational32.cs:113-120 | the reciprocal's value is 1 / value |
| Arithmetic.ReciprocalInvolution | FloatingBar/Rational32.cs:113-120 | taking the reciprocal twice gives back the same word |
| Arithmetic.ReciprocalOfInt | FloatingBar/Rational32.cs:113-120 | FromInt(0).Reciprocal() is NaN; for 0 < abs(i) <= MaxInt the reciprocal of FromInt(i) has value 1 / i |
| Arithmetic.ReciprocalExamples | FloatingBar.Tests/OperationTests.cs:10-12 | 1, 2 and 4 have reciprocals 1, 0.5 and 0.25, and the reciprocal of 0 is NaN (line 22) |
| Arithmetic.GCD | FloatingBar/Rational32.cs:220-229 | the loop terminates for a, b >= 0 and returns the recursive Euclid Gcd; GCD(0, b) == b |
| Arithmetic.GcdDivides | FloatingBar/Rational32.cs:220-229 | the result divides both arguments |
| Arithmetic.GcdGreatest | FloatingBar/Rational32.cs:220-229 | every common divisor divides the result |
| Arithmetic.WouldOverflow | FloatingBar/Rational32.cs:210-218 | holds iff BitLen(num) + BitLen(den) > 26, with bit lengths from LeadingZeros |
| Arithmetic.NeedsReduction | FloatingBar/Rational32.cs:192 | the loop guard num > MaxInt, or else WouldOverflow((uint)num, (uint)den), with the casts taken modulo 2^32 |
| Arithmetic.Reduce | FloatingBar/Rational32.cs:192-205 | the reduction loop ends with 1 <= den <= its starting value, and either the guard is false or den == 1 |
| Arithmetic.ReducePrecision | FloatingBar/Rational32.cs:192-205 | the imperative loop, with its `den < 1` break, computes Reduce; den strictly decreases each round |
| Arithmetic.ExactSum | FloatingBar/Rational32.cs:177-181 | for non-NaN operands the cross-multiplied numerator and denominator fit well inside a long: abs(num) < 2^54, 1 <= den < 2^54 |
| Arithmetic.ReducedSumValue | FloatingBar/Rational32.cs:177-190 | after the sign split and the GCD division, the fraction equals value(a) + value(b) |
| Arithmetic.Add | FloatingBar/Rational32.cs:172-208 | the method computes AddWord: the exact sum, reduced by GCD, then by the loop, then encoded with the `(uint)` casts |
| Arithmetic.AddCommutes | FloatingBar/Rational32.cs:172-208 | Add(a, b) and Add(b, a) are the same word |
| Arithmetic.AddExact | FloatingBar/Rational32.cs:172-208 | if the reduced exact sum has num <= MaxInt and BitLen(num) + BitLen(den) <= 26, the result decodes to exactly that fraction with sign `sum < 0`, and its value is value(a) + value(b) |
| Arithmetic.PackExact | FloatingBar/Rational32.cs:37-46 | the encoding holds n/d exactly whenever BitLen(n) + BitLen(d) <= 27, one bit more than WouldOverflow allows |
| Arithmetic.AddZeroHalves | FloatingBar/Rational32.cs:192-218 | for 2^25 <= i <= MaxInt, Add(FromInt(i), FromInt(0)) is FromInt(i / 2), although i + 0 fits the encoding |
| Arithmetic.AddTruncatedDenominator | FloatingBar/Rational32.cs:192-207 | 1/65536 + (-1/65537) has exact denominator 2^32 + 2^16; truncated to 65536 it passes the guard, and the result is 1/65536 |
| Arithmetic.ReduceFull | FloatingBar/Rational32.cs:192-205 | the loop with its fit test at full width ends with 1 <= den <= its start and either fits or has den == 1 |
| Arithmetic.AddIntendedExact | FloatingBar/Rational32.cs:192-207 | with the full-width test, a result that fits is encoded with exactly the loop's numerator and denominator and the sign of the sum |
| Arithmetic.AddIntendedTruncatedCase | FloatingBar/Rational32.cs:192-207 | with the full-width test, 1/65536 + (-1/65537) reduces to 0 |
| Arithmetic.AddTruncatedToNaN | FloatingBar/Rational32.cs:192-207 | 25/6147 + 1/1397419 is 34941622/(2^33 + 1) in lowest terms; one halving leaves den = 2^32, `(uint)den` is 0, and the constructor returns the NaN word 0xFC000000 |
| Arithmetic.AddIntendedIsNumber | FloatingBar/Rational32.cs:192-207 | with the full-width test, the sum of two non-NaN words is never NaN |

## Left out

- `FromFloat` and `ToFloat` (FloatingBar/Rational32.cs:88-91, 236-253): they depend on IEEE `double` truncation and the `Sigma` comparison. The meaning of a word is the ghost real `Arithmetic.Value` instead.
- `ToString` (FloatingBar/Rational32.cs:161-164): display formatting only.
- `Numerator64` and `Denominator64`: they widen the `int` accessors to `long`, which is the identity on unbounded `int`.
- The `Rational32(UInt32 bitPattern)` constructor: it is the datatype constructor `Codec.Rational32`.
- Arithmetic.Add: requires non-NaN operands. At split 31 `Denominator()` computes `1 << 31` as a negative `int`, and the source leaves that case undefined.
- Arithmetic.GCD: requires non-negative arguments, the only ones `Add` passes; C#'s `%` on negative `long` values is not modelled.
- Arithmetic.AddExact: stated for a reduced sum that fits with one bit to spare. When the loop runs, the result is a rounded value, and only its structure is proved (Reduce).
- Arithmetic.AddIntendedExact: covers the exit where the fit test passes. On the `den == 1` exit the constructor masks an oversized numerator, as in `Add`; that the result is still a number there is proved by `Arithmetic.AddIntendedIsNumber`.
- The test harness (NUnit), `Random`, `Console` output, the float round-trip fuzzing test, the `double` bit-pattern test and the empty `adding_works` test: they need floating point or assert nothing about `Rational32`.

## Findings

| source | as written | input that shows it | evidently intended | confidence | as-written member | corrected member |
|---|---|---|---|---|---|---|
| FloatingBar/Rational32.cs:192-207 | the reduction loop tests `WouldOverflow((uint)num, (uint)den)`, and the constructor receives `(uint)den`, both truncating the 64-bit denominator modulo 2^32 | 1/65536 + (-1/65537): exact sum 1/(2^32 + 2^16); `(uint)den` is 65536, so the loop exits at once and the result is 1/65536 | test the fit of the full 64-bit denominator, so the loop keeps reducing until the denominator fits; here the result is 0 | not executed | Arithmetic.AddTruncatedDenominator | Arithmetic.AddIntendedTruncatedCase |
| FloatingBar/Rational32.cs:192-207 | the same truncation lets a denominator that is a multiple of 2^32 pass the loop as `(uint)den == 0`; the constructor then computes split -1 and builds 0xFC000000, so adding two numbers gives NaN | 25/6147 + 1/1397419: the sum 34941622/(2^33 + 1) is halved once to 17470811/2^32, and `(uint)(2^32)` is 0 | adding two numbers always gives a number; with the fit test at full width the loop never hands the constructor a zero denominator | not executed | Arithmetic.AddTruncatedToNaN | Arithmetic.AddIntendedIsNumber |

`Arithmetic.AddIntended` is the corrected addition, built on `Arithmetic.ReduceFull`, `Arithmetic.AddIntendedExact` proves its exact encoding, and `Arithmetic.AddIntendedIsNumber` proves it never returns NaN for two numbers. `Arithmetic.Add` is kept as written, so its proved properties describe the source's behaviour.
