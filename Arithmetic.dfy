/*
 * The operations of Rational32 on decoded words: sign predicates, the
 * saturating conversion from int, the exact reciprocal, and addition with
 * precision reduction.
 */
module Arithmetic {
  import opened Bits
  import opened Codec

  // ---------------------------------------------------------------------
  // Sign and value

  /** -1 for a negative number, 1 for a positive one, 0 for zero or NaN. */
  function Sign(x: Rational32): (s: int)
    ensures -1 <= s <= 1
  {
    if Numerator(x) == 0 || IsNaN(x) then 0
    else if SignBitSet(x) then -1 else 1
  }

  predicate IsNegative(x: Rational32) {
    Sign(x) < 0
  }

  /** The rational number a word stands for: the numerator over the denominator, negated by bit 31. */
  ghost function Value(x: Rational32): real
    requires !IsNaN(x)
  {
    Fraction(SignBitSet(x), Numerator(x), Denominator(x))
  }

  /** n / d, negated when `negative`. */
  ghost function Fraction(negative: bool, n: int, d: int): real
    requires d > 0
  {
    var magnitude := n as real / d as real;
    if negative then -magnitude else magnitude
  }

  /** Sign is the sign of the value; a NaN has sign 0. */
  lemma SignOfValue(x: Rational32)
    ensures IsNaN(x) ==> Sign(x) == 0
    ensures !IsNaN(x) ==> (Sign(x) == 1 <==> Value(x) > 0.0)
    ensures !IsNaN(x) ==> (Sign(x) == 0 <==> Value(x) == 0.0)
    ensures !IsNaN(x) ==> (Sign(x) == -1 <==> Value(x) < 0.0)
  {
    if !IsNaN(x) {
      var n, d := Numerator(x) as real, Denominator(x) as real;
      QuotientSign(n, d);
    }
  }

  lemma QuotientSign(n: real, d: real)
    requires n >= 0.0 && d > 0.0
    ensures n / d >= 0.0 && (n / d == 0.0 <==> n == 0.0)
  {
  }

  /** A number is negative exactly when its value is below zero; NaN is not negative. */
  lemma IsNegativeOfValue(x: Rational32)
    ensures IsNegative(x) <==> !IsNaN(x) && Value(x) < 0.0
  {
    SignOfValue(x);
  }

  /** The value as the signed numerator over the denominator. */
  lemma ValueBySign(x: Rational32)
    requires !IsNaN(x)
    ensures Value(x) == (Numerator(x) * Sign(x)) as real / Denominator(x) as real
  {
    SignedQuotient(SignBitSet(x), Sign(x), Numerator(x), Denominator(x) as real);
  }

  lemma SignedQuotient(negative: bool, s: int, n: nat, d: real)
    requires d > 0.0
    requires n == 0 ==> s == 0
    requires n != 0 ==> s == if negative then -1 else 1
    ensures (if negative then -(n as real / d) else n as real / d) == (n * s) as real / d
  {
    if s == -1 {
      assert (n * s) as real == -(n as real);
    }
  }

  // ---------------------------------------------------------------------
  // Conversion from int

  /**
   * FromInt: the magnitude over 1, saturated to MaxInt. Negating
   * int.MinValue wraps round to itself, which is not above MaxInt, and its
   * `(uint)` cast is 2^31.
   */
  function FromInt(i: int32): Rational32
  {
    var neg := i < 0;
    var magnitude := if neg then ToInt32(-(i as int)) else i as int;
    var clamped := if magnitude > MaxInt then MaxInt else magnitude;
    Pack(neg, ToUInt32(clamped), 1)
  }

  /** The split of the denominator 1 is 0. */
  lemma SplitOfOne()
    ensures Split(1) == 0
  {
    BitLenUnique(1, 1);
  }

  /** An int of at most 26 bits comes back exactly: |i| over 1 with the sign of i. */
  lemma FromIntExact(i: int32)
    requires -MaxInt <= i <= MaxInt
    ensures !IsNaN(FromInt(i))
    ensures Numerator(FromInt(i)) == if i < 0 then -i else i
    ensures Denominator(FromInt(i)) == 1
    ensures SignBitSet(FromInt(i)) == (i < 0)
    ensures Value(FromInt(i)) == i as real
  {
    var m := if i < 0 then -i else i;
    PackDecode(i < 0, m, 1);
    SplitOfOne();
    Pow2Of26();
    DivModUnique(m, 0x400_0000, 0, m);
  }

  /** Beyond MaxInt in either direction the magnitude saturates to MaxInt and the sign is kept. */
  lemma FromIntSaturates(i: int32)
    requires i > MaxInt || -0x8000_0000 < i < -MaxInt
    ensures FromInt(i) == FromInt(if i > 0 then MaxInt else -MaxInt)
    ensures Numerator(FromInt(i)) == MaxInt && Denominator(FromInt(i)) == 1
    ensures !IsNaN(FromInt(i)) && Value(FromInt(i)) == if i > 0 then MaxInt as real else -MaxInt as real
  {
    FromIntExact(if i > 0 then MaxInt else -MaxInt);
  }

  /** int.MinValue has no 26-bit magnitude: it becomes zero with bit 31 set. */
  lemma FromIntMinValue()
    ensures FromInt(-0x8000_0000) == Rational32(SignBit)
    ensures Sign(FromInt(-0x8000_0000)) == 0
    ensures !IsNaN(FromInt(-0x8000_0000)) && Value(FromInt(-0x8000_0000)) == 0.0
  {
    var x := FromInt(-0x8000_0000);
    assert ToUInt32(ToInt32(0x8000_0000)) == 0x8000_0000;
    SplitOfOne();
    Pow2Of26();
    assert PayloadOf(0x8000_0000, 1, 0) == 0;
    PackDecode(true, 0x8000_0000, 1);
    DivModUnique(0x8000_0000, 0x400_0000, 32, 0);
  }

  /** The conversions the source's tests make: 1234, 2^26 - 1, and +-123456789 saturated. */
  lemma FromIntExamples()
    ensures !IsNaN(FromInt(1234)) && Value(FromInt(1234)) == 1234.0
    ensures !IsNaN(FromInt(0x3FF_FFFF)) && Value(FromInt(0x3FF_FFFF)) == 67108863.0
    ensures !IsNaN(FromInt(123456789)) && Value(FromInt(123456789)) == 67108863.0
    ensures !IsNaN(FromInt(-123456789)) && Value(FromInt(-123456789)) == -67108863.0
  {
    FromIntExact(1234);
    FromIntExact(0x3FF_FFFF);
    FromIntSaturates(123456789);
    FromIntSaturates(-123456789);
  }

  // ---------------------------------------------------------------------
  // Reciprocal

  /**
   * The reciprocal swaps numerator and denominator and keeps the sign. A
   * split of 26 or more (a denominator with no room for a numerator, or a
   * NaN) and a zero numerator give NaN.
   */
  function Reciprocal(x: Rational32): Rational32
  {
    if DenominatorSize(x) >= 26 then NaN
    else
      var num := Numerator(x);
      if num == 0 then NaN
      else Pack(IsNegative(x), ToUInt32(Denominator(x)), ToUInt32(num))
  }

  /** The reciprocal is NaN exactly when the split is 26 or more or the numerator is 0. */
  lemma ReciprocalNaN(x: Rational32)
    ensures IsNaN(Reciprocal(x)) <==> DenominatorSize(x) >= 26 || Numerator(x) == 0
    ensures IsNaN(Reciprocal(x)) ==> Reciprocal(x) == NaN
  {
    if DenominatorSize(x) < 26 && Numerator(x) != 0 {
      ReciprocalSwaps(x);
    } else {
      assert DenominatorSize(NaN) == 31;
    }
  }

  /**
   * Otherwise numerator and denominator are exchanged exactly, with no bit
   * lost, and the sign bit is kept.
   */
  lemma ReciprocalSwaps(x: Rational32)
    requires DenominatorSize(x) < 26 && Numerator(x) != 0
    ensures !IsNaN(Reciprocal(x))
    ensures Numerator(Reciprocal(x)) == Denominator(x)
    ensures Denominator(Reciprocal(x)) == Numerator(x)
    ensures SignBitSet(Reciprocal(x)) == SignBitSet(x)
    ensures DenominatorSize(Reciprocal(x)) < 26 - DenominatorSize(x)
  {
    var s, n, d := DenominatorSize(x), Numerator(x), Denominator(x);
    var neg := SignBitSet(x);
    assert Reciprocal(x) == Pack(neg, d, n) by {
      assert IsNegative(x) == neg;
    }
    PackDecode(neg, d, n);
    SwapFits(s, n, d);
  }

  /**
   * A numerator below 2^(26 - s) has a split below 26 - s, which leaves at
   * least s + 1 numerator bits: room for a denominator below 2^(s + 1).
   */
  lemma SwapFits(s: nat, n: uint32, d: uint32)
    requires s < 26 && 1 <= n < Pow2(26 - s) && d < 2 * Pow2(s)
    ensures Split(n) < 26 - s && d % Pow2(26 - Split(n)) == d
  {
    var len := Split(n);
    if len >= 26 - s {
      Pow2Le(26 - s, len);
    }
    Pow2Le(s + 1, 26 - len);
    Pow2Add(s, 1);
    DivModUnique(d, Pow2(26 - len), 0, d);
  }

  /** Where it is a number, the reciprocal's value is the inverse of the value. */
  lemma ReciprocalValue(x: Rational32)
    requires DenominatorSize(x) < 26 && Numerator(x) != 0
    ensures !IsNaN(Reciprocal(x)) && Value(x) != 0.0
    ensures Value(Reciprocal(x)) == 1.0 / Value(x)
  {
    ReciprocalSwaps(x);
    SwappedValues(x, Reciprocal(x));
  }

  /** Words with swapped numerator and denominator and the same sign bit have inverse values. */
  lemma SwappedValues(x: Rational32, r: Rational32)
    requires !IsNaN(x) && !IsNaN(r) && Numerator(x) != 0
    requires Numerator(r) == Denominator(x) && Denominator(r) == Numerator(x)
    requires SignBitSet(r) == SignBitSet(x)
    ensures Value(x) != 0.0 && Value(r) == 1.0 / Value(x)
  {
    var neg, n, d := SignBitSet(x), Numerator(x), Denominator(x);
    FractionInverse(neg, n, d);
    assert Value(r) == Fraction(neg, d, n);
    assert Value(x) == Fraction(neg, n, d);
  }

  /** The signed fraction d / n is the inverse of n / d. */
  lemma FractionInverse(negative: bool, n: int, d: int)
    requires n > 0 && d > 0
    ensures Fraction(negative, n, d) != 0.0
    ensures Fraction(negative, d, n) == 1.0 / Fraction(negative, n, d)
  {
  }

  /** Taking the reciprocal twice gives back the same word. */
  lemma ReciprocalInvolution(x: Rational32)
    requires DenominatorSize(x) < 26 && Numerator(x) != 0
    ensures Reciprocal(Reciprocal(x)) == x
  {
    var r := Reciprocal(x);
    ReciprocalSwaps(x);
    DecodePack(x);
  }

  /** The reciprocal of a non-zero int i of at most 26 bits is 1/i; that of 0 is NaN. */
  lemma ReciprocalOfInt(i: int32)
    requires -MaxInt <= i <= MaxInt
    ensures i == 0 ==> IsNaN(Reciprocal(FromInt(i)))
    ensures i != 0 ==> !IsNaN(Reciprocal(FromInt(i))) && Value(Reciprocal(FromInt(i))) == 1.0 / i as real
  {
    var x := FromInt(i);
    FromIntExact(i);
    SplitOfOne();
    PackDecode(i < 0, if i < 0 then -i else i, 1);
    ReciprocalNaN(x);
    if i != 0 {
      ReciprocalValue(x);
    }
  }

  /** For a positive int, 1/i as a fraction. */
  lemma ReciprocalOfPositive(i: int32)
    requires 0 < i <= MaxInt
    ensures !IsNaN(Reciprocal(FromInt(i))) && Value(Reciprocal(FromInt(i))) == Fraction(false, 1, i)
  {
    ReciprocalOfInt(i);
    assert 1.0 / (i as real) == Fraction(false, 1, i);
  }

  /** The reciprocals the source's tests take: of 1, 2 and 4, and of 0. */
  lemma ReciprocalExamples()
    ensures !IsNaN(Reciprocal(FromInt(1))) && Value(Reciprocal(FromInt(1))) == 1.0
    ensures !IsNaN(Reciprocal(FromInt(2))) && Value(Reciprocal(FromInt(2))) == 0.5
    ensures !IsNaN(Reciprocal(FromInt(4))) && Value(Reciprocal(FromInt(4))) == 0.25
    ensures IsNaN(Reciprocal(FromInt(0)))
  {
    ReciprocalOfPositive(1);
    ReciprocalOfPositive(2);
    ReciprocalOfPositive(4);
    ReciprocalOfInt(0);
  }

  // ---------------------------------------------------------------------
  // Greatest common divisor

  /** The remainder loop of GCD on non-negative operands, step by step. */
  function Gcd(a: nat, b: nat): (g: nat)
    ensures a > 0 || b > 0 ==> g > 0
    decreases a + b
  {
    if a == 0 || b == 0 then (if a == 0 then b else a)
    else if a > b then Gcd(a % b, b)
    else Gcd(a, b % a)
  }

  /** GCD(long, long) with non-negative operands: its loop computes Gcd. */
  method GCD(a0: int, b0: int) returns (g: int)
    requires a0 >= 0 && b0 >= 0
    ensures g == Gcd(a0, b0)
    ensures a0 == 0 ==> g == b0
  {
    var a, b := a0, b0;
    while a != 0 && b != 0
      invariant 0 <= a && 0 <= b
      invariant Gcd(a, b) == Gcd(a0, b0)
      invariant a0 == 0 ==> a == 0 && b == b0
      decreases a + b
    {
      if a > b {
        a := a % b;
      } else {
        b := b % a;
      }
    }
    g := if a == 0 then b else a;
  }

  /** A sum of multiples of c is a multiple of c. */
  lemma MultipleSum(x: int, y: int, q: int, c: int)
    requires c > 0 && x % c == 0 && y % c == 0
    ensures (x + q * y) % c == 0
  {
    var kx, ky := x / c, y / c;
    assert x + q * y == (kx + q * ky) * c by {
      assert x == kx * c && y == ky * c;
      assert q * y == (q * ky) * c;
    }
    DivModUnique(x + q * y, c, kx + q * ky, 0);
  }

  /** A common divisor of a and b divides a % b. */
  lemma DividesRemainder(a: nat, b: nat, c: int)
    requires b > 0 && c > 0 && a % c == 0 && b % c == 0
    ensures (a % b) % c == 0
  {
    MultipleSum(a, b, -(a / b), c);
    assert a % b == a + -(a / b) * b;
  }

  /** A common divisor of a % b and b divides a. */
  lemma DividesFromRemainder(a: nat, b: nat, c: int)
    requires b > 0 && c > 0 && (a % b) % c == 0 && b % c == 0
    ensures a % c == 0
  {
    MultipleSum(a % b, b, a / b, c);
    assert a == a % b + (a / b) * b;
  }

  /** Gcd divides both operands. */
  lemma {:induction false} GcdDivides(a: nat, b: nat)
    requires a > 0 || b > 0
    ensures a % Gcd(a, b) == 0 && b % Gcd(a, b) == 0
    decreases a + b
  {
    var g := Gcd(a, b);
    if a == 0 || b == 0 {
      DivModUnique(0, g, 0, 0);
      DivModUnique(g, g, 1, 0);
    } else if a > b {
      GcdDivides(a % b, b);
      DividesFromRemainder(a, b, g);
    } else {
      GcdDivides(a, b % a);
      DividesFromRemainder(b, a, g);
    }
  }

  /** Every common divisor of the operands divides Gcd: it is the greatest. */
  lemma {:induction false} GcdGreatest(a: nat, b: nat, c: int)
    requires c > 0 && a % c == 0 && b % c == 0
    ensures Gcd(a, b) % c == 0
    decreases a + b
  {
    if a == 0 || b == 0 {
    } else if a > b {
      DividesRemainder(a, b, c);
      GcdGreatest(a % b, b, c);
    } else {
      DividesRemainder(b, a, c);
      GcdGreatest(a, b % a, c);
    }
  }

  /** Long division `a / g` of a non-negative long by a positive one. */
  function Quotient(a: nat, g: int): (q: nat)
    requires g >= 1
    ensures q * g <= a < (q + 1) * g
  {
    a / g
  }

  /** Dividing by a divisor of den leaves at least 1; by 2 or more, less than den. */
  lemma QuotientBounds(den: int, g: int)
    requires den >= 1 && g >= 1
    ensures den % g == 0 ==> den / g >= 1
    ensures g >= 2 ==> den / g < den
  {
    var q := den / g;
    assert den == q * g + den % g;
    if g >= 2 && q >= den {
      MulMonotone(den, q, g);
    }
  }

  // ---------------------------------------------------------------------
  // Addition

  /** WouldOverflow's test: the bit lengths of numerator and denominator add up to more than 26. */
  predicate Overflows(num: uint32, den: uint32) {
    BitLen(num) + BitLen(den) > 26
  }

  /** WouldOverflow(uint, uint), with the lengths taken as 32 minus the leading zeros. */
  method WouldOverflow(num: uint32, den: uint32) returns (r: bool)
    ensures r == Overflows(num, den)
  {
    var lz1 := LeadingZeros(num);
    var l1 := 32 - lz1;
    var lz2 := LeadingZeros(den);
    var l2 := 32 - lz2;
    var bitsUsed := l1 + l2;
    r := bitsUsed > 26;
  }

  /**
   * The loop test of Add, `num > MaxInt || WouldOverflow((uint)num, (uint)den)`,
   * with both casts keeping the low 32 bits.
   */
  predicate TooBig(num: int, den: int) {
    num > MaxInt || Overflows(ToUInt32(num), ToUInt32(den))
  }

  /** The test computed as Add computes it: WouldOverflow only when num is at most MaxInt. */
  method NeedsReduction(num: int, den: int) returns (more: bool)
    ensures more == TooBig(num, den)
  {
    more := num > MaxInt;
    if !more {
      more := WouldOverflow(ToUInt32(num), ToUInt32(den));
    }
  }

  /**
   * The precision-reduction loop of Add as a function: while the pair fails
   * the test, divide both by their gcd, or halve both when they are
   * coprime; a denominator that drops below 1 becomes 1 and ends the loop.
   * It ends with the test passed or with the denominator 1.
   */
  function Reduce(num: nat, den: nat): (r: (nat, nat))
    requires den >= 1
    ensures 1 <= r.1 <= den
    ensures !TooBig(r.0, r.1) || r.1 == 1
    decreases den
  {
    if !TooBig(num, den) then (num, den)
    else
      var g := Gcd(num, den);
      QuotientBounds(den, g);
      var n1: nat := Quotient(num, if g == 1 then 2 else g);
      var d1: nat := Quotient(den, if g == 1 then 2 else g);
      if d1 < 1 then (n1, 1) else Reduce(n1, d1)
  }

  /**
   * The exact sum a/b + c/d as Add forms it in 64-bit longs: the signed
   * cross products over the product of the denominators. Both stay below
   * 2^54, so no long overflows.
   */
  function ExactSum(a: Rational32, b: Rational32): (s: (int, int))
    requires !IsNaN(a) && !IsNaN(b)
    ensures -0x40_0000_0000_0000 < s.0 < 0x40_0000_0000_0000
    ensures 1 <= s.1 < 0x40_0000_0000_0000
  {
    var na, da, nb, db := Numerator(a), Denominator(a), Numerator(b), Denominator(b);
    SumBounds(na, Sign(a), da, nb, Sign(b), db);
    (na * Sign(a) * db + da * (nb * Sign(b)), da * db)
  }

  /** Numerators of at most 26 bits and denominators of at most 27 keep the cross sum below 2^54. */
  lemma SumBounds(na: nat, sa: int, da: int, nb: nat, sb: int, db: int)
    requires na <= MaxInt && nb <= MaxInt && -1 <= sa <= 1 && -1 <= sb <= 1
    requires 1 <= da < 0x800_0000 && 1 <= db < 0x800_0000
    ensures -0x20_0000_0000_0000 < na * sa * db < 0x20_0000_0000_0000
    ensures -0x20_0000_0000_0000 < da * (nb * sb) < 0x20_0000_0000_0000
    ensures 1 <= da * db < 0x40_0000_0000_0000
  {
    CrossBound(na, sa, db);
    CrossBound(nb, sb, da);
    assert da * (nb * sb) == nb * sb * da;
    MulMonotone(da, 0x800_0000, db);
    MulMonotone(db, 0x800_0000, 0x800_0000);
    MulAtLeast(da, db);
  }

  lemma CrossBound(n: nat, s: int, d: int)
    requires n <= MaxInt && -1 <= s <= 1 && 1 <= d < 0x800_0000
    ensures -0x20_0000_0000_0000 < n * s * d < 0x20_0000_0000_0000
  {
    MulMonotone(n, MaxInt, d);
    MulMonotone(d, 0x800_0000, MaxInt);
    assert n * s * d == s * (n * d);
  }

  /** The magnitude of the sum over its denominator, in lowest terms. */
  function Lowest(num: int, den: int): (r: (nat, nat))
    requires den >= 1
    ensures r.1 >= 1
  {
    var m := if num < 0 then -num else num;
    var g := Gcd(m, den);
    GcdDivides(m, den);
    QuotientBounds(den, g);
    (m / g, den / g)
  }

  /** Add as the source computes it. */
  function AddWord(a: Rational32, b: Rational32): Rational32
    requires !IsNaN(a) && !IsNaN(b)
  {
    var s := ExactSum(a, b);
    var l := Lowest(s.0, s.1);
    var r := Reduce(l.0, l.1);
    Pack(s.0 < 0, ToUInt32(r.0), ToUInt32(r.1))
  }

  /**
   * Add(Rational32, Rational32) for operands that are numbers: the exact
   * sum, reduced by its gcd, then the precision-reduction loop, then the
   * constructor.
   */
  method Add(a: Rational32, b: Rational32) returns (r: Rational32)
    requires !IsNaN(a) && !IsNaN(b)
    ensures r == AddWord(a, b)
  {
    var aSign := Sign(a);
    var bSign := Sign(b);
    var num := (Numerator(a) * aSign) * Denominator(b);
    num := num + Denominator(a) * (Numerator(b) * bSign);
    var den := Denominator(a) * Denominator(b);
    ghost var s := ExactSum(a, b);
    assert (num, den) == s;
    var sign := num < 0;
    if sign {
      num := -num;
    }
    var gcd := GCD(num, den);
    assert (num / gcd, den / gcd) == Lowest(s.0, s.1);
    num := num / gcd;
    den := den / gcd;
    num, den := ReducePrecision(num, den);
    r := Encode(sign, ToUInt32(num), ToUInt32(den));
  }

  /** The precision-reduction loop of Add, on the gcd-reduced magnitude and denominator. */
  method ReducePrecision(num0: int, den0: int) returns (num: int, den: int)
    requires num0 >= 0 && den0 >= 1
    ensures (num, den) == Reduce(num0, den0)
  {
    num, den := num0, den0;
    var more := NeedsReduction(num, den);
    while more
      invariant num >= 0 && den >= 1
      invariant Reduce(num, den) == Reduce(num0, den0)
      invariant more == TooBig(num, den)
      decreases den
    {
      var gcd := GCD(num, den);
      QuotientBounds(den, gcd);
      if gcd == 1 {
        num := num / 2;
        den := den / 2;
      } else {
        num := num / gcd;
        den := den / gcd;
      }
      if den < 1 {
        den := 1;
        break;
      }
      more := NeedsReduction(num, den);
    }
  }

  /** The cross sum and the product of denominators do not depend on the order of the operands. */
  lemma CrossSumSymmetric(na: int, sa: int, da: int, nb: int, sb: int, db: int)
    ensures na * sa * db + da * (nb * sb) == nb * sb * da + db * (na * sa)
    ensures da * db == db * da
  {
  }

  /** Add(a, b) and Add(b, a) give the same word. */
  lemma AddCommutes(a: Rational32, b: Rational32)
    requires !IsNaN(a) && !IsNaN(b)
    ensures AddWord(a, b) == AddWord(b, a)
  {
    assert ExactSum(a, b) == ExactSum(b, a) by {
      CrossSumSymmetric(Numerator(a), Sign(a), Denominator(a), Numerator(b), Sign(b), Denominator(b));
    }
  }

  /** The exact sum in lowest terms: its magnitude and denominator, divided by their gcd. */
  function ReducedSum(a: Rational32, b: Rational32): (nat, nat)
    requires !IsNaN(a) && !IsNaN(b)
  {
    var s := ExactSum(a, b);
    Lowest(s.0, s.1)
  }

  /** The value of the exact sum in lowest terms, signed by the sum, is the sum of the values. */
  lemma ReducedSumValue(a: Rational32, b: Rational32)
    requires !IsNaN(a) && !IsNaN(b)
    ensures ReducedSum(a, b).1 >= 1
    ensures Fraction(ExactSum(a, b).0 < 0, ReducedSum(a, b).0, ReducedSum(a, b).1) == Value(a) + Value(b)
  {
    var s := ExactSum(a, b);
    var p, q, r, t := Numerator(a) * Sign(a), Denominator(a), Numerator(b) * Sign(b), Denominator(b);
    assert Value(a) + Value(b) == s.0 as real / s.1 as real by {
      ValueBySign(a);
      ValueBySign(b);
      QuotientSum(p, q, r, t);
      assert s == (p * t + q * r, q * t);
    }
    assert Fraction(s.0 < 0, ReducedSum(a, b).0, ReducedSum(a, b).1) == s.0 as real / s.1 as real by {
      LowestValue(s.0, s.1);
    }
  }

  /** p/q + r/s == (p*s + q*r) / (q*s). */
  lemma QuotientSum(p: int, q: int, r: int, s: int)
    requires q > 0 && s > 0
    ensures p as real / q as real + r as real / s as real == (p * s + q * r) as real / (q * s) as real
  {
  }

  /** A fraction in lowest terms has the value of the fraction it was reduced from. */
  lemma LowestValue(num: int, den: int)
    requires den >= 1
    ensures Fraction(num < 0, Lowest(num, den).0, Lowest(num, den).1) == num as real / den as real
  {
    var m := if num < 0 then -num else num;
    var g := Gcd(m, den);
    GcdDivides(m, den);
    ExactQuotient(m, g);
    ExactQuotient(den, g);
    ScaledFraction(num < 0, num, m / g, den / g, g, den);
  }

  lemma ExactQuotient(m: int, g: int)
    requires g > 0 && m % g == 0
    ensures m == (m / g) * g
  {
  }

  /** n/d signed is num/den when num = +-n*g and den = d*g. */
  lemma ScaledFraction(negative: bool, num: int, n: int, d: int, g: int, den: int)
    requires g > 0 && d > 0 && den == d * g
    requires num == if negative then -(n * g) else n * g
    ensures Fraction(negative, n, d) == num as real / den as real
  {
    assert (n * g) as real / (d * g) as real == n as real / d as real;
  }

  /**
   * When the exact sum in lowest terms passes the fit test at full width
   * (numerator at most MaxInt, bit lengths adding up to at most 26), Add
   * returns exactly that fraction, negative when the sum is.
   */
  lemma AddExact(a: Rational32, b: Rational32)
    requires !IsNaN(a) && !IsNaN(b)
    requires ReducedSum(a, b).0 <= MaxInt
    requires BitLen(ReducedSum(a, b).0) + BitLen(ReducedSum(a, b).1) <= 26
    ensures !IsNaN(AddWord(a, b))
    ensures Numerator(AddWord(a, b)) == ReducedSum(a, b).0
    ensures Denominator(AddWord(a, b)) == ReducedSum(a, b).1
    ensures SignBitSet(AddWord(a, b)) == (ExactSum(a, b).0 < 0)
    ensures Value(AddWord(a, b)) == Value(a) + Value(b)
  {
    var l := ReducedSum(a, b);
    var n, d := l.0, l.1;
    FitsExactly(ExactSum(a, b).0 < 0, n, d);
    ReducedSumValue(a, b);
  }

  /**
   * A pair passing the fit test at full width is left alone by the loop and
   * encoded exactly: 26 bits hold both the numerator and the denominator.
   */
  lemma FitsExactly(negative: bool, n: nat, d: nat)
    requires d >= 1 && n <= MaxInt && BitLen(n) + BitLen(d) <= 26
    ensures d < 0x400_0000 && Reduce(n, d) == (n, d)
    ensures !IsNaN(Pack(negative, n, d))
    ensures Numerator(Pack(negative, n, d)) == n
    ensures Denominator(Pack(negative, n, d)) == d
    ensures SignBitSet(Pack(negative, n, d)) == negative
  {
    Pow2Le(BitLen(d), 26);
    Pow2Of26();
    assert !TooBig(n, d);
    PackExact(negative, n, d);
  }

  /**
   * The encoding holds a numerator and a denominator below 2^26 exactly
   * when their bit lengths add up to at most 27: one bit more than
   * WouldOverflow allows.
   */
  lemma PackExact(negative: bool, n: uint32, d: uint32)
    requires 1 <= d < 0x400_0000 && BitLen(n) + BitLen(d) <= 27
    ensures !IsNaN(Pack(negative, n, d))
    ensures Numerator(Pack(negative, n, d)) == n
    ensures Denominator(Pack(negative, n, d)) == d
    ensures SignBitSet(Pack(negative, n, d)) == negative
  {
    PackDecode(negative, n, d);
    var len := Split(d);
    Pow2Le(BitLen(n), 26 - len);
    DivModUnique(n, Pow2(26 - len), 0, n);
  }

  /**
   * WouldOverflow is one bit stricter than the encoding: adding 0 to an
   * integer of 26 bits halves it, although the integer itself fits.
   */
  lemma AddZeroHalves(i: int32)
    requires 0x200_0000 <= i <= MaxInt
    ensures !IsNaN(FromInt(i)) && !IsNaN(FromInt(0)) && AddWord(FromInt(i), FromInt(0)) == FromInt(i / 2)
    ensures Overflows(i, 1) && Numerator(Pack(false, i, 1)) == i
    ensures !IsNaN(FromInt(i / 2)) && Value(AddWord(FromInt(i), FromInt(0))) == (i / 2) as real
    ensures Value(FromInt(i)) + Value(FromInt(0)) == i as real
  {
    FromIntExact(i);
    FromIntExact(0);
    FromIntExact(i / 2);
    assert ExactSum(FromInt(i), FromInt(0)) == (i, 1);
    assert Gcd(i, 1) == 1 by {
      assert Gcd(i, 1) == Gcd(0, 1);
    }
    assert Lowest(i, 1) == (i, 1);
    assert BitLen(i) == 26 by {
      Pow2Of25();
      Pow2Of26();
      BitLenUnique(i, 26);
    }
    assert BitLen(1) == 1 by {
      BitLenUnique(1, 1);
    }
    assert Reduce(i, 1) == (i / 2, 1);
    assert BitLen(i / 2) + BitLen(1) <= 27 by {
      BitLenShift(i, 1);
    }
    PackExact(false, i, 1);
  }

  // ---------------------------------------------------------------------
  // The fit test on a truncated denominator

  /**
   * Add tests the reduced denominator through `(uint)den`, its low 32 bits.
   * 1/65536 + -1/65537 is 1/4295032832 in lowest terms; the denominator
   * 2^32 + 2^16 truncates to 2^16, so the test passes at once and the
   * constructor stores the truncated denominator: the sum comes out as
   * 1/65536, the first operand.
   */
  lemma AddTruncatedDenominator()
    ensures !IsNaN(Pack(false, 1, 0x1_0000)) && !IsNaN(Pack(true, 1, 0x1_0001))
    ensures ExactSum(Pack(false, 1, 0x1_0000), Pack(true, 1, 0x1_0001)) == (1, 0x1_0001_0000)
    ensures ReducedSum(Pack(false, 1, 0x1_0000), Pack(true, 1, 0x1_0001)) == (1, 0x1_0001_0000)
    ensures Value(Pack(false, 1, 0x1_0000)) + Value(Pack(true, 1, 0x1_0001)) == Fraction(false, 1, 0x1_0001_0000)
    ensures !TooBig(1, 0x1_0001_0000) && Reduce(1, 0x1_0001_0000) == (1, 0x1_0001_0000)
    ensures AddWord(Pack(false, 1, 0x1_0000), Pack(true, 1, 0x1_0001)) == Pack(false, 1, 0x1_0000)
    ensures Denominator(AddWord(Pack(false, 1, 0x1_0000), Pack(true, 1, 0x1_0001))) == 0x1_0000
  {
    var a, b := Pack(false, 1, 0x1_0000), Pack(true, 1, 0x1_0001);
    Pow2Of16();
    BitLenUnique(0x1_0000, 17);
    BitLenUnique(0x1_0001, 17);
    BitLenUnique(1, 1);
    PackExact(false, 1, 0x1_0000);
    PackExact(true, 1, 0x1_0001);
    assert ExactSum(a, b) == (1, 0x1_0001_0000);
    assert Gcd(1, 0x1_0001_0000) == Gcd(1, 0);
    ReducedSumValue(a, b);
  }

  /** The fit test as intended: the bit lengths of the full-width numerator and denominator. */
  predicate TooBigFull(num: nat, den: nat) {
    num > MaxInt || BitLen(num) + BitLen(den) > 26
  }

  /** The precision-reduction loop with the fit test at full width. */
  function ReduceFull(num: nat, den: nat): (r: (nat, nat))
    requires den >= 1
    ensures 1 <= r.1 <= den
    ensures !TooBigFull(r.0, r.1) || r.1 == 1
    decreases den
  {
    if !TooBigFull(num, den) then (num, den)
    else
      var g := Gcd(num, den);
      QuotientBounds(den, g);
      var n1: nat := Quotient(num, if g == 1 then 2 else g);
      var d1: nat := Quotient(den, if g == 1 then 2 else g);
      if d1 < 1 then (n1, 1) else ReduceFull(n1, d1)
  }

  /** Add with the full-width fit test. */
  function AddIntended(a: Rational32, b: Rational32): Rational32
    requires !IsNaN(a) && !IsNaN(b)
  {
    var l := ReducedSum(a, b);
    var r := ReduceFull(l.0, l.1);
    Pack(ExactSum(a, b).0 < 0, ToUInt32(r.0), ToUInt32(r.1))
  }

  /**
   * With the full-width test, a loop that ends by passing the test hands the
   * constructor a fraction it stores exactly.
   */
  lemma AddIntendedExact(a: Rational32, b: Rational32)
    requires !IsNaN(a) && !IsNaN(b)
    requires !TooBigFull(ReduceFull(ReducedSum(a, b).0, ReducedSum(a, b).1).0,
                         ReduceFull(ReducedSum(a, b).0, ReducedSum(a, b).1).1)
    ensures !IsNaN(AddIntended(a, b))
    ensures Numerator(AddIntended(a, b)) == ReduceFull(ReducedSum(a, b).0, ReducedSum(a, b).1).0
    ensures Denominator(AddIntended(a, b)) == ReduceFull(ReducedSum(a, b).0, ReducedSum(a, b).1).1
    ensures SignBitSet(AddIntended(a, b)) == (ExactSum(a, b).0 < 0)
  {
    var l := ReducedSum(a, b);
    var r := ReduceFull(l.0, l.1);
    FitsExactly(ExactSum(a, b).0 < 0, r.0, r.1);
  }

  /**
   * On the same operands the full-width test halves the sum away to 0, the
   * nearest value the loop can reach, where Add returns 1/65536.
   */
  lemma AddIntendedTruncatedCase()
    ensures !IsNaN(Pack(false, 1, 0x1_0000)) && !IsNaN(Pack(true, 1, 0x1_0001))
    ensures AddIntended(Pack(false, 1, 0x1_0000), Pack(true, 1, 0x1_0001)) == FromInt(0)
  {
    AddTruncatedDenominator();
    ReduceFullTruncatedCase();
  }

  /** 1/(2^32 + 2^16) is halved to 0/(2^31 + 2^15), then divided by its gcd to 0/1. */
  lemma ReduceFullTruncatedCase()
    ensures ReduceFull(1, 0x1_0001_0000) == (0, 1)
  {
    HalveCoprime(0x1_0001_0000);
    assert 0x1_0001_0000 / 2 == 0x8000_8000;
    ClearZero(0x8000_8000);
    ZeroFits();
  }

  /** 0/1 passes the fit test unchanged. */
  lemma ZeroFits()
    ensures ReduceFull(0, 1) == (0, 1)
  {
    BitLenUnique(1, 1);
  }

  /** A wide 1/den has gcd 1, so it is halved. */
  lemma HalveCoprime(den: nat)
    requires den >= 0x400_0000
    ensures ReduceFull(1, den) == ReduceFull(0, den / 2)
  {
    WideBitLen(den);
    assert Gcd(1, den) == 1 by {
      assert den % 1 == 0;
    }
  }

  /** A wide 0/den has gcd den, so it is divided down to 0/1. */
  lemma ClearZero(den: nat)
    requires den >= 0x400_0000
    ensures ReduceFull(0, den) == ReduceFull(0, 1)
  {
    WideBitLen(den);
    DivModUnique(den, den, 1, 0);
  }

  /** A number of 2^26 or more has more than 26 bits. */
  lemma WideBitLen(x: nat)
    requires x >= 0x400_0000
    ensures BitLen(x) > 26
  {
    Pow2Of26();
    if BitLen(x) <= 26 {
      Pow2Le(BitLen(x), 26);
    }
  }


  // ---------------------------------------------------------------------
  // A truncated denominator of 0

  /**
   * 25/6147 + 1/1397419 is 34941622/(2^33 + 1) in lowest terms. `(uint)den`
   * is 1, so the fit test fails once and the coprime pair is halved to
   * 17470811/2^32. Now `(uint)den` is 0: the test passes, and the
   * constructor turns the zero denominator into the word 0xFC000000, which
   * is NaN. Two numbers add up to NaN.
   */
  lemma AddTruncatedToNaN()
    ensures !IsNaN(Pack(false, 25, 6147)) && !IsNaN(Pack(false, 1, 1397419))
    ensures ReducedSum(Pack(false, 25, 6147), Pack(false, 1, 1397419)) == (34941622, 0x2_0000_0001)
    ensures Reduce(34941622, 0x2_0000_0001) == (17470811, 0x1_0000_0000)
    ensures AddWord(Pack(false, 25, 6147), Pack(false, 1, 1397419)) == Rational32(0xFC00_0000)
    ensures IsNaN(AddWord(Pack(false, 25, 6147), Pack(false, 1, 1397419)))
  {
    FirstOperand();
    SecondOperand();
    AddOfDecoded(Pack(false, 25, 6147), Pack(false, 1, 1397419));
    HalveToWordBoundary();
  }

  /** The first operand decodes to 25/6147. */
  lemma FirstOperand()
    ensures !IsNaN(Pack(false, 25, 6147)) && !SignBitSet(Pack(false, 25, 6147))
    ensures Numerator(Pack(false, 25, 6147)) == 25 && Denominator(Pack(false, 25, 6147)) == 6147
  {
    assert BitLen(25) + BitLen(6147) <= 27 by {
      OperandBitLens();
    }
    PackExact(false, 25, 6147);
  }

  /** The second operand decodes to 1/1397419. */
  lemma SecondOperand()
    ensures !IsNaN(Pack(false, 1, 1397419)) && !SignBitSet(Pack(false, 1, 1397419))
    ensures Numerator(Pack(false, 1, 1397419)) == 1 && Denominator(Pack(false, 1, 1397419)) == 1397419
  {
    assert BitLen(1) + BitLen(1397419) <= 27 by {
      OperandBitLens();
    }
    PackExact(false, 1, 1397419);
  }

  /** The sum of any two positive words that decode to 25/6147 and 1/1397419. */
  lemma AddOfDecoded(a: Rational32, b: Rational32)
    requires !IsNaN(a) && !SignBitSet(a) && Numerator(a) == 25 && Denominator(a) == 6147
    requires !IsNaN(b) && !SignBitSet(b) && Numerator(b) == 1 && Denominator(b) == 1397419
    ensures ReducedSum(a, b) == (34941622, 0x2_0000_0001)
    ensures AddWord(a, b) == Rational32(0xFC00_0000) && IsNaN(AddWord(a, b))
  {
    var s := ExactSum(a, b);
    assert s == (34941622, 0x2_0000_0001) by {
      ExactSumOfDecoded(a, b);
    }
    assert Lowest(s.0, s.1) == (34941622, 0x2_0000_0001) by {
      LowestSum();
    }
    assert Reduce(34941622, 0x2_0000_0001) == (17470811, 0x1_0000_0000) by {
      HalveToWordBoundary();
    }
    assert ToUInt32(17470811) == 17470811 && ToUInt32(0x1_0000_0000) == 0;
    assert AddWord(a, b) == Pack(false, 17470811, 0);
    assert IsNaN(Pack(false, 17470811, 0)) by {
      PackOutOfRange(false, 17470811, 0);
    }
  }

  /** 25 * 1397419 + 6147 * 1 over 6147 * 1397419. */
  lemma ExactSumOfDecoded(a: Rational32, b: Rational32)
    requires !IsNaN(a) && !SignBitSet(a) && Numerator(a) == 25 && Denominator(a) == 6147
    requires !IsNaN(b) && !SignBitSet(b) && Numerator(b) == 1 && Denominator(b) == 1397419
    ensures ExactSum(a, b) == (34941622, 0x2_0000_0001)
  {
  }

  /** The sum is already in lowest terms. */
  lemma LowestSum()
    ensures Lowest(34941622, 0x2_0000_0001) == (34941622, 0x2_0000_0001)
  {
    SumCoprime();
  }

  /** Bit lengths of the operands' numerators and denominators. */
  lemma OperandBitLens()
    ensures BitLen(25) == 5 && BitLen(6147) == 13 && BitLen(1) == 1 && BitLen(1397419) == 21
  {
    Pow2Values();
    Pow2Add(8, 4);
    Pow2Add(16, 4);
    BitLenUnique(25, 5);
    BitLenUnique(6147, 13);
    BitLenUnique(1, 1);
    BitLenUnique(1397419, 21);
  }

  /** Euclid's remainders on 34941622 and 2^33 + 1 end in 1. */
  lemma SumCoprime()
    ensures Gcd(34941622, 0x2_0000_0001) == 1
  {
  }

  /** The loop halves 34941622/(2^33 + 1) once, to a denominator that truncates to 0. */
  lemma HalveToWordBoundary()
    ensures Reduce(34941622, 0x2_0000_0001) == (17470811, 0x1_0000_0000)
  {
    Pow2Values();
    Pow2Add(16, 8);
    BitLenUnique(34941622, 26);
    BitLenUnique(1, 1);
    BitLenUnique(17470811, 25);
    SumCoprime();
    assert TooBig(34941622, 0x2_0000_0001);
    assert !TooBig(17470811, 0x1_0000_0000);
  }

  /**
   * With the full-width test the sum of two numbers is never NaN: the loop
   * ends either passing the test, which the encoding holds exactly, or with
   * the denominator 1.
   */
  lemma AddIntendedIsNumber(a: Rational32, b: Rational32)
    requires !IsNaN(a) && !IsNaN(b)
    ensures !IsNaN(AddIntended(a, b))
  {
    var l := ReducedSum(a, b);
    var r := ReduceFull(l.0, l.1);
    if !TooBigFull(r.0, r.1) {
      FitsExactly(ExactSum(a, b).0 < 0, r.0, r.1);
    } else {
      PackDecode(ExactSum(a, b).0 < 0, ToUInt32(r.0), 1);
    }
  }
}
