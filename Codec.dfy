/*
 * The word layout of Rational32 and its codec.
 *
 *   bit 31      sign (1 = negative)
 *   bits 30..26 the split `len`: the position of the denominator's leading 1
 *   bits 25..0  payload: the low `len` bits hold the denominator below its
 *               implicit leading 1, the high 26 - len bits the numerator;
 *               at len == 26 the numerator is implicitly 1
 *
 * A split above 26 is not a number (NaN).
 */
module Codec {
  import opened Bits

  const SignBit: uint32 := 0x8000_0000
  const SizeBits: uint32 := 0x7C00_0000
  const ValueBits: uint32 := 0x03FF_FFFF
  /** Largest representable integer, the same number as ValueBits. */
  const MaxInt: int := 67108863
  const FractionSize: nat := 26

  datatype Rational32 = Rational32(value: uint32)

  /** The canonical NaN: split 31, every other bit clear. */
  const NaN: Rational32 := Rational32(SizeBits)

  // ---------------------------------------------------------------------
  // Decoding

  /** The split field, bits 30..26. */
  function DenominatorSize(x: Rational32): (s: nat)
    ensures s < 32
  {
    x.value / 0x400_0000 % 32
  }

  /** Bit 31. */
  predicate SignBitSet(x: Rational32) {
    x.value >= SignBit
  }

  /**
   * The payload's low `s` bits under an implicit leading 1 at bit `s`. At
   * s == 31 the leading bit is `1 << 31`, which is int.MinValue, so the
   * 32-bit result is negative.
   */
  function Denominator(x: Rational32): (d: int)
    ensures DenominatorSize(x) < 31 ==>
      Pow2(DenominatorSize(x)) <= d < 2 * Pow2(DenominatorSize(x))
    ensures DenominatorSize(x) <= FractionSize ==> 1 <= d < 0x800_0000
    ensures DenominatorSize(x) == 31 ==> d < 0
  {
    var dsize := DenominatorSize(x);
    Pow2Of27();
    Pow2Le(if dsize <= 26 then dsize else 26, 26);
    if dsize < 31 then x.value % Pow2(dsize) + Pow2(dsize)
    else x.value % Pow2(31) - Pow2(31)
  }

  /** The payload above the split, or the implicit 1 at split 26. */
  function Numerator(x: Rational32): (n: nat)
    ensures DenominatorSize(x) < 26 ==> n < Pow2(26 - DenominatorSize(x))
    ensures DenominatorSize(x) > 26 ==> n == 0
    ensures n <= MaxInt
  {
    var dsize := DenominatorSize(x);
    PayloadShift(x.value % 0x400_0000, dsize);
    if dsize == FractionSize then 1 else Over(x.value % 0x400_0000, Pow2(dsize))
  }

  /** The part of a 26-bit payload above bit s has 26 - s bits, and none above 26. */
  lemma PayloadShift(p: nat, s: nat)
    requires p < 0x400_0000
    ensures s < 26 ==> p / Pow2(s) < Pow2(26 - s) <= 0x400_0000
    ensures s > 26 ==> p / Pow2(s) == 0
  {
    Pow2Of26();
    if s < 26 {
      ShiftBelow(p, 26 - s, s);
      Pow2Le(26 - s, 26);
    } else if s > 26 {
      Pow2Monotone(26, s);
      DivModUnique(p, Pow2(s), 0, p);
    }
  }

  /** The sentinel test is subsumed by the split test. */
  predicate IsNaN(x: Rational32)
    ensures IsNaN(x) <==> DenominatorSize(x) > FractionSize
  {
    x.value == SizeBits || DenominatorSize(x) > FractionSize
  }

  // ---------------------------------------------------------------------
  // Encoding

  /** The 26 payload bits for split `len`: numerator above, denominator remainder below. */
  function PayloadOf(numerator: nat, denominator: nat, len: nat): (p: nat)
    requires len <= FractionSize
    ensures p < 0x400_0000
    ensures p / Pow2(len) == numerator % Pow2(26 - len)
    ensures p % Pow2(len) == denominator % Pow2(len)
  {
    var a, b := Pow2(26 - len), Pow2(len);
    var hi, lo := numerator % a, denominator % b;
    Pow2Of26();
    Pow2Add(26 - len, len);
    Compose(hi, lo, a, b);
    hi * b + lo
  }

  /**
   * The split `len` for a denominator: the position of its leading 1, that
   * is 31 minus its leading zeros, and -1 for zero.
   */
  function Split(denominator: uint32): (len: int)
    ensures -1 <= len <= 31
    ensures len == -1 <==> denominator == 0
    ensures denominator > 0 ==> Pow2(len) <= denominator < 2 * Pow2(len)
    ensures len <= FractionSize <==> denominator < 0x800_0000
    ensures len == FractionSize <==> 0x400_0000 <= denominator < 0x800_0000
  {
    SplitRange(denominator);
    BitLen(denominator) - 1
  }

  lemma SplitRange(denominator: uint32)
    ensures BitLen(denominator) <= 32
    ensures BitLen(denominator) <= 27 <==> denominator < 0x800_0000
    ensures BitLen(denominator) == 27 <==> 0x400_0000 <= denominator < 0x800_0000
  {
    var n := BitLen(denominator);
    WordBitLen(denominator);
    Pow2Of26();
    Pow2Of27();
    if n <= 27 {
      Pow2Le(n, 27);
    } else {
      Pow2Le(27, n - 1);
    }
    if n < 27 {
      Pow2Le(n, 26);
    } else if n > 27 {
      Pow2Le(27, n - 1);
    }
  }

  /**
   * The word the constructor builds from a sign, a numerator and a
   * denominator, by the denominator's split `len` = floor(log2 denominator):
   * up to 26 the fields are apart; above 26 the denominator's low bits run
   * into the split field; a zero denominator sets every bit of the sign and
   * split fields.
   */
  function Pack(isNegative: bool, numerator: uint32, denominator: uint32): Rational32
  {
    var sign := if isNegative then SignBit else 0;
    if denominator == 0 then Rational32(0xFC00_0000)
    else
      var len := Split(denominator);
      if len <= FractionSize then
        Rational32(sign + len * 0x400_0000 + PayloadOf(numerator, denominator, len))
      else
        SpilledFieldsBound(denominator);
        Rational32(sign + Or(len * 0x400_0000, LowBits(denominator, len)))
  }

  /** A 32-bit word has at most 32 bits. */
  lemma WordBitLen(x: uint32)
    ensures BitLen(x) <= 32
  {
    Pow2Of32();
    BitLenAtMost(x, 32);
  }

  /**
   * For a denominator of 2^27 or more the split and the bits below its
   * leading 1 overlap, and their OR stays below the sign bit.
   */
  lemma SpilledFieldsBound(denominator: uint32)
    requires Split(denominator) > FractionSize
    ensures Or(Split(denominator) * 0x400_0000, LowBits(denominator, Split(denominator))) < 0x8000_0000
  {
    var len := Split(denominator);
    Pow2Le(len, 31);
    Pow2Of31();
    OrBound(len * 0x400_0000, LowBits(denominator, len), 31);
  }

  /** Number of leading zero bits of a 32-bit word, by halving the search range. */
  method LeadingZeros(x0: uint32) returns (r: int)
    ensures r == 32 - BitLen(x0)
    ensures x0 == 0 ==> r == 32
    ensures x0 > 0 ==> 0 <= r <= 31 && Pow2(31 - r) <= x0 < Pow2(32 - r)
  {
    WordBitLen(x0);
    var x: nat, n := x0, 32;
    x, n := Narrow(x, n, 16);
    x, n := Narrow(x, n, 8);
    x, n := Narrow(x, n, 4);
    x, n := Narrow(x, n, 2);
    var y := x / 2;
    LastStep(x0, x, n, y);
    r := if y != 0 then n - 2 else n - x;
    ghost var width := BitLen(x0);
    assert 32 - r == width && Pow2(32 - r) == Pow2(width);
  }

  /**
   * One step of the search, `y = x >> shift; if (y != 0) { n = n - shift; x = y; }`,
   * on an x of at most 2 * shift bits: afterwards x has at most shift bits,
   * and n - BitLen(x) is unchanged.
   */
  method Narrow(x: nat, n: int, shift: nat) returns (x': nat, n': int)
    requires BitLen(x) <= 2 * shift
    ensures BitLen(x') <= shift && n' - BitLen(x') == n - BitLen(x)
  {
    x', n' := x, n;
    var y := Shr(x, shift);
    BitLenShift(x, shift);
    if y != 0 {
      n' := n - shift;
      x' := y;
    }
  }

  /** The last two bits: a 2-bit x has length 2 when x >> 1 is not 0, else length x. */
  lemma LastStep(x0: nat, x: nat, n: int, y: nat)
    requires BitLen(x0) == 32 - n + BitLen(x) && BitLen(x) <= 2
    requires y == x / 2
    ensures (if y != 0 then n - 2 else n - x) == 32 - BitLen(x0)
  {
    Pow2Le(BitLen(x), 2);
    assert Pow2(2) == 4;
    if x >= 2 {
      assert BitLen(x / 2) == 1;
    }
  }

  /**
   * `(1 << len) - 1` on 32-bit ints, for the splits the constructor can
   * compute: at len == -1 the count is 31, `1 << 31` is int.MinValue and
   * subtracting 1 wraps round to int.MaxValue, so the mask is 2^31 - 1.
   */
  lemma LowMaskInt32(len: int)
    requires -1 <= len <= 31
    ensures ToInt32(ToInt32(Pow2(IntShiftCount(len))) - 1) == Pow2(IntShiftCount(len)) - 1
  {
    var count := IntShiftCount(len);
    var p := Pow2(count);
    if count < 31 {
      assert p < 0x8000_0000 by {
        Pow2Monotone(count, 31);
        Pow2Of31();
      }
    } else {
      assert p == 0x8000_0000 by {
        Pow2Of31();
      }
    }
  }

  /**
   * The constructor `Rational32(bool, uint, uint)`: the word is assembled by
   * successive ORs, with C#'s widening and wrap-around written out.
   */
  method Encode(isNegative: bool, numerator: uint32, denominator: uint32) returns (r: Rational32)
    ensures r == Pack(isNegative, numerator, denominator)
  {
    var lz := LeadingZeros(denominator);
    var len := 32 - lz - 1;
    WordBitLen(denominator);
    LowMaskInt32(len);
    // `(1 << len) - 1` as an int: the shift count is taken mod 32
    var dfield: nat := ToInt32(ToInt32(Pow2(IntShiftCount(len))) - 1);
    var value: nat := if isNegative then SignBit else 0;
    // `(uint)(len << FractionSize)`
    var sizeField := ToUInt32(ToInt32(len * 0x400_0000));
    EncodeSizeField(isNegative, len, value, sizeField);
    value := Or(value, sizeField);
    // `dfield ^ ValueBits` widens to a 64-bit long; long shift counts are taken mod 64
    var numeratorField := And(Shr(Xor(dfield, ValueBits), LongShiftCount(len)), numerator);
    var shifted := ToUInt32(Shl(numeratorField, LongShiftCount(len)));
    EncodeNumeratorField(isNegative, len, numerator, dfield, numeratorField, shifted, value);
    value := Or(value, shifted);
    // `(uint)(denominator & dfield)`
    var denominatorField := ToUInt32(And(denominator, dfield));
    EncodeDenominatorField(isNegative, numerator, denominator, len, dfield, value, denominatorField);
    value := Or(value, denominatorField);
    r := Rational32(value);
  }

  /** Sign and split fields: for a zero denominator `len` is -1 and fills both. */
  lemma EncodeSizeField(isNegative: bool, len: int, value: nat, sizeField: nat)
    requires -1 <= len <= 31
    requires value == if isNegative then SignBit else 0
    requires sizeField == ToUInt32(ToInt32(len * 0x400_0000))
    ensures len == -1 ==> Or(value, sizeField) == 0xFC00_0000
    ensures len >= 0 ==> Or(value, sizeField) == value + len * 0x400_0000
  {
    if len == -1 {
      SizeFieldOfZero(isNegative, value, sizeField);
    } else {
      assert sizeField == len * 0x400_0000;
      SignOr(isNegative, false, 0, sizeField);
    }
  }

  /** `(uint)(-1 << 26)` sets bits 31..26: the sign is set whatever it was. */
  lemma SizeFieldOfZero(isNegative: bool, value: nat, sizeField: nat)
    requires value == if isNegative then SignBit else 0
    requires sizeField == ToUInt32(ToInt32(-0x400_0000))
    ensures Or(value, sizeField) == 0xFC00_0000
  {
    var spill := sizeField - SignBit;
    assert 0 <= spill < 0x8000_0000;
    SignOr(isNegative, true, 0, spill);
  }

  /**
   * Numerator field: the numerator's low 26 - len bits at bit len, below the
   * split; above split 26 (and at len == -1) the mask is empty and the word
   * is unchanged.
   */
  lemma EncodeNumeratorField(isNegative: bool, len: int, numerator: nat, dfield: nat,
                             numeratorField: nat, shifted: nat, value: nat)
    requires -1 <= len <= 31
    requires dfield == Pow2(IntShiftCount(len)) - 1
    requires numeratorField == And(Shr(Xor(dfield, ValueBits), LongShiftCount(len)), numerator)
    requires shifted == ToUInt32(Shl(numeratorField, LongShiftCount(len)))
    requires len == -1 ==> value == 0xFC00_0000
    requires len >= 0 ==> value == (if isNegative then SignBit else 0) + len * 0x400_0000
    ensures len == -1 ==> Or(value, shifted) == 0xFC00_0000
    ensures 0 <= len <= FractionSize ==>
      Or(value, shifted) == (if isNegative then SignBit else 0) + len * 0x400_0000 + (numerator % Pow2(26 - len)) * Pow2(len)
    ensures len > FractionSize ==> Or(value, shifted) == (if isNegative then SignBit else 0) + len * 0x400_0000
  {
    if 0 <= len <= FractionSize {
      NumeratorPayload(isNegative, len, numerator, dfield, numeratorField, shifted, value);
    } else {
      NoNumeratorField(len, numerator, dfield, numeratorField, shifted);
    }
  }

  /** At len == -1 and above split 26 nothing of the numerator is shifted in. */
  lemma NoNumeratorField(len: int, numerator: nat, dfield: nat, numeratorField: nat, shifted: nat)
    requires len == -1 || FractionSize < len <= 31
    requires dfield == Pow2(IntShiftCount(len)) - 1
    requires numeratorField == And(Shr(Xor(dfield, ValueBits), LongShiftCount(len)), numerator)
    requires shifted == ToUInt32(Shl(numeratorField, LongShiftCount(len)))
    ensures shifted == 0
  {
    NumeratorFieldEmpty(IntShiftCount(len), LongShiftCount(len), numerator, dfield, numeratorField);
  }

  /** The in-range case: the numerator's low 26 - len bits land just above the split. */
  lemma NumeratorPayload(isNegative: bool, len: nat, numerator: nat, dfield: nat,
                         numeratorField: nat, shifted: nat, value: nat)
    requires len <= FractionSize && dfield == Pow2(len) - 1
    requires numeratorField == And(Shr(Xor(dfield, ValueBits), LongShiftCount(len)), numerator)
    requires shifted == ToUInt32(Shl(numeratorField, LongShiftCount(len)))
    requires value == (if isNegative then SignBit else 0) + len * 0x400_0000
    ensures Or(value, shifted) == value + (numerator % Pow2(26 - len)) * Pow2(len)
  {
    NumeratorFieldInRange(len, numerator, dfield, numeratorField);
    var hi := numerator % Pow2(26 - len);
    assert shifted == hi * Pow2(len) && shifted < 0x400_0000 by {
      PayloadSplit(len);
      Compose(hi, 0, Pow2(26 - len), Pow2(len));
    }
    var top := (if isNegative then 32 else 0) + len;
    assert value == top * 0x400_0000;
    DivModUnique(value, 0x400_0000, top, 0);
    OrPayload(value, shifted);
  }

  /** A payload ORs into a word whose payload bits are clear by addition. */
  lemma OrPayload(a: nat, b: nat)
    requires a % 0x400_0000 == 0 && b < 0x400_0000
    ensures Or(a, b) == a + b
  {
    Pow2Of26();
    OrDisjoint(a, b, 26);
  }

  lemma NumeratorFieldInRange(len: nat, numerator: nat, dfield: nat, numeratorField: nat)
    requires len <= FractionSize && dfield == Pow2(len) - 1
    requires numeratorField == And(Shr(Xor(dfield, ValueBits), LongShiftCount(len)), numerator)
    ensures numeratorField == numerator % Pow2(26 - len)
  {
    ValueMaskShift(len);
    var mask := Pow2(26 - len) - 1;
    assert numeratorField == And(mask, numerator);
    AndLowMask(numerator, 26 - len);
    AndCommutes(numerator, mask);
  }

  /** `(dfield ^ ValueBits) >> len` is the mask of the 26 - len numerator bits. */
  lemma ValueMaskShift(len: nat)
    requires len <= FractionSize
    ensures Shr(Xor(Pow2(len) - 1, ValueBits), LongShiftCount(len)) == Pow2(26 - len) - 1
  {
    var mask := Pow2(26 - len) - 1;
    var band := Xor(Pow2(len) - 1, ValueBits);
    ValueBitsXorBelow(len);
    PayloadSplit(len);
    MulLessOne(Pow2(26 - len), Pow2(len));
    DivModUnique(band, Pow2(len), mask, 0);
  }

  /** A low mask of at most 26 bits XOR ValueBits: the bits from the mask's top to 26. */
  lemma ValueBitsXorBelow(k: nat)
    requires k <= 26
    ensures Xor(Pow2(k) - 1, ValueBits) == 0x400_0000 - Pow2(k)
  {
    assert Pow2(26) == 0x400_0000 by { Pow2Of26(); }
    XorMasks(k, 26, Pow2(k), 0x400_0000, Pow2(k) - 1, ValueBits);
  }

  /** A low mask of at least 26 bits XOR ValueBits: the bits from 26 to the mask's top. */
  lemma ValueBitsXorAbove(k: nat)
    requires k >= 26
    ensures Xor(Pow2(k) - 1, ValueBits) == Pow2(k) - 0x400_0000
  {
    assert Pow2(26) == 0x400_0000 by { Pow2Of26(); }
    XorMasksReversed(26, k, 0x400_0000, Pow2(k), ValueBits, Pow2(k) - 1);
  }

  /** The payload's 26 bits are 26 - len numerator bits over len denominator bits. */
  lemma PayloadSplit(len: nat)
    requires len <= FractionSize
    ensures Pow2(26 - len) * Pow2(len) == 0x400_0000
  {
    Pow2Add(26 - len, len);
    Pow2Of26();
  }

  /** Above split 26 the mask `dfield ^ ValueBits` lies wholly above the shift count. */
  lemma NumeratorFieldEmpty(top: nat, count: nat, numerator: nat, dfield: nat, numeratorField: nat)
    requires FractionSize <= top <= count && dfield == Pow2(top) - 1
    requires numeratorField == And(Shr(Xor(dfield, ValueBits), count), numerator)
    ensures numeratorField == 0
  {
    var band := Xor(dfield, ValueBits);
    assert Shr(band, count) == 0 by {
      ValueBitsXorAbove(top);
      Pow2Le(top, count);
      DivModUnique(band, Pow2(count), 0, band);
    }
  }

  /** Denominator field: the bits below the leading 1, ORed over the rest. */
  lemma EncodeDenominatorField(isNegative: bool, numerator: uint32, denominator: uint32, len: int,
                               dfield: nat, value: nat, denominatorField: nat)
    requires len == Split(denominator)
    requires len >= 0 ==> dfield == Pow2(len) - 1
    requires denominatorField == ToUInt32(And(denominator, dfield))
    requires len == -1 ==> value == 0xFC00_0000
    requires 0 <= len <= FractionSize ==>
      value == (if isNegative then SignBit else 0) + len * 0x400_0000 + (numerator % Pow2(26 - len)) * Pow2(len)
    requires len > FractionSize ==> value == (if isNegative then SignBit else 0) + len * 0x400_0000
    ensures Or(value, denominatorField) == Pack(isNegative, numerator, denominator).value
  {
    var sign := if isNegative then SignBit else 0;
    if len == -1 {
      assert denominator == 0;
    } else {
      var low := LowBits(denominator, len);
      assert denominatorField == low by {
        AndLowMask(denominator, len);
      }
      if len <= FractionSize {
        PayloadField(isNegative, numerator, denominator, len, value);
      } else {
        assert low < 0x8000_0000 by {
          Pow2Le(len, 31);
          Pow2Of31();
        }
        SignOr(isNegative, false, len * 0x400_0000, low);
        assert Pack(isNegative, numerator, denominator).value == sign + Or(len * 0x400_0000, low);
      }
    }
  }

  /** Split at most 26: the denominator's low bits fill the zeros under the numerator. */
  lemma PayloadField(isNegative: bool, numerator: uint32, denominator: uint32, len: nat, value: nat)
    requires denominator > 0 && len == Split(denominator) <= FractionSize
    requires value == (if isNegative then SignBit else 0) + len * 0x400_0000 + (numerator % Pow2(26 - len)) * Pow2(len)
    ensures Or(value, LowBits(denominator, len)) == Pack(isNegative, numerator, denominator).value
  {
    var hi := numerator % Pow2(26 - len);
    var top := (if isNegative then 32 else 0) + len;
    var q := top * Pow2(26 - len) + hi;
    assert value == q * Pow2(len) by {
      PayloadSplit(len);
      ScaleDigits(top, hi, Pow2(26 - len), Pow2(len), 0x400_0000);
    }
    DivModUnique(value, Pow2(len), q, 0);
    OrDisjoint(value, LowBits(denominator, len), len);
  }

  /** Sign bits OR together, apart from anything below them. */
  lemma SignOr(signA: bool, signB: bool, a: nat, b: nat)
    requires a < 0x8000_0000 && b < 0x8000_0000
    ensures Or((if signA then SignBit else 0) + a, (if signB then SignBit else 0) + b) ==
      (if signA || signB then SignBit else 0) + Or(a, b)
  {
    var sa, sb := if signA then 1 else 0, if signB then 1 else 0;
    Pow2Of31();
    OrSplit(sa, sb, a, b, 31);
  }

  // ---------------------------------------------------------------------
  // Round trips

  /**
   * A denominator below 2^27 comes back exactly, under its split; the
   * numerator comes back modulo 2^(26 - len), or as the implicit 1 at
   * split 26; the sign comes back in bit 31.
   */
  lemma PackDecode(isNegative: bool, numerator: uint32, denominator: uint32)
    requires 1 <= denominator < 0x800_0000
    ensures DenominatorSize(Pack(isNegative, numerator, denominator)) == Split(denominator)
    ensures Denominator(Pack(isNegative, numerator, denominator)) == denominator
    ensures Numerator(Pack(isNegative, numerator, denominator)) ==
      if Split(denominator) == FractionSize then 1 else numerator % Pow2(26 - Split(denominator))
    ensures SignBitSet(Pack(isNegative, numerator, denominator)) == isNegative
    ensures !IsNaN(Pack(isNegative, numerator, denominator))
  {
    var len := Split(denominator);
    var p := PayloadOf(numerator, denominator, len);
    var x := Pack(isNegative, numerator, denominator);
    WordFields(isNegative, len, p);
    LowBitsOfWord(x.value, len);
    DivModUnique(denominator, Pow2(len), 1, denominator - Pow2(len));
  }

  /** Every number is the encoding of its own decoded sign bit, numerator and denominator. */
  lemma DecodePack(x: Rational32)
    requires !IsNaN(x)
    ensures Pack(SignBitSet(x), Numerator(x), Denominator(x)) == x
  {
    var s := DenominatorSize(x);
    var d := Denominator(x);
    var n := Numerator(x);
    var payload := x.value % 0x400_0000;
    assert Split(d) == s by {
      BitLenUnique(d, s + 1);
    }
    WordSplit(x);
    LowBitsOfWord(x.value, s);
    assert d % Pow2(s) == x.value % Pow2(s) by {
      DivModUnique(d, Pow2(s), 1, x.value % Pow2(s));
    }
    var p := PayloadOf(n, d, s);
    if s < 26 {
      DivModUnique(n, Pow2(26 - s), 0, n);
    } else {
      assert Pow2(s) == 0x400_0000 by {
        PayloadSplit(s);
      }
      DivModUnique(payload, Pow2(s), 0, payload);
      DivModUnique(p, Pow2(s), 0, p);
    }
    SameDivMod(p, payload, Pow2(s));
  }

  /** A zero denominator, or one of 2^27 or more, encodes a NaN. */
  lemma PackOutOfRange(isNegative: bool, numerator: uint32, denominator: uint32)
    requires denominator == 0 || denominator >= 0x800_0000
    ensures IsNaN(Pack(isNegative, numerator, denominator))
    ensures SignBitSet(Pack(isNegative, numerator, denominator)) == (isNegative || denominator == 0)
  {
    if denominator != 0 {
      var len := Split(denominator);
      var low := LowBits(denominator, len);
      var o := Or(len * 0x400_0000, low);
      SpilledFieldsBound(denominator);
      OrAtLeast(len * 0x400_0000, low);
      assert Pack(isNegative, numerator, denominator) == Rational32((if isNegative then SignBit else 0) + o);
      SignedWordFields(isNegative, o);
    }
  }

  /** A sign bit over a value o below bit 31: the split field is o's bits from 26 up. */
  lemma SignedWordFields(isNegative: bool, o: nat)
    requires o < 0x8000_0000
    ensures DenominatorSize(Rational32((if isNegative then SignBit else 0) + o)) == o / 0x400_0000
    ensures SignBitSet(Rational32((if isNegative then SignBit else 0) + o)) == isNegative
  {
    var q := o / 0x400_0000;
    var top := (if isNegative then 32 else 0) + q;
    DivModUnique((if isNegative then SignBit else 0) + o, 0x400_0000, top, o % 0x400_0000);
    DivModUnique(top, 32, if isNegative then 1 else 0, q);
  }

  /** The fields of a word assembled from a sign, a split below 32 and a 26-bit payload. */
  lemma WordFields(isNegative: bool, len: nat, p: nat)
    requires len < 32 && p < 0x400_0000
    ensures DenominatorSize(Rational32((if isNegative then SignBit else 0) + len * 0x400_0000 + p)) == len
    ensures Rational32((if isNegative then SignBit else 0) + len * 0x400_0000 + p).value % 0x400_0000 == p
    ensures SignBitSet(Rational32((if isNegative then SignBit else 0) + len * 0x400_0000 + p)) == isNegative
  {
    var top := (if isNegative then 32 else 0) + len;
    var v := top * 0x400_0000 + p;
    DivModUnique(v, 0x400_0000, top, p);
    DivModUnique(top, 32, if isNegative then 1 else 0, len);
  }

  /** A word is its sign, its split field and its payload. */
  lemma WordSplit(x: Rational32)
    ensures x.value == (if SignBitSet(x) then SignBit else 0) + DenominatorSize(x) * 0x400_0000 + x.value % 0x400_0000
  {
    var top := x.value / 0x400_0000;
    DivModUnique(top, 32, if SignBitSet(x) then 1 else 0, top % 32);
  }

  /** Digits (top, p) in base w = a * b, with p written as (hi, r) in base b: r is the last digit in base b. */
  lemma Recompose(v: int, p: int, top: int, hi: int, r: int, a: int, b: int, w: int)
    requires a * b == w && v == top * w + p && p == hi * b + r && 0 <= r < b
    ensures v % b == r
  {
    ScaleDigits(top, hi, a, b, w);
    DivModUnique(v, b, top * a + hi, r);
  }

  /** Below bit 26 the low bits of a word are those of its payload. */
  lemma LowBitsOfWord(v: nat, len: nat)
    requires len <= FractionSize
    ensures v % Pow2(len) == v % 0x400_0000 % Pow2(len)
  {
    var a, b := Pow2(26 - len), Pow2(len);
    var p := v % 0x400_0000;
    var top, hi, r := v / 0x400_0000, p / b, p % b;
    PayloadSplit(len);
    DivMod(v, 0x400_0000);
    DivMod(p, b);
    Recompose(v, p, top, hi, r, a, b, 0x400_0000);
  }
}
