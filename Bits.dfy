/*
 * Machine-word arithmetic on unbounded integers: powers of two, the bitwise
 * operators |, & and ^ on natural numbers, the bit length of a number, and
 * C#'s unchecked wrap-around of 32-bit integers. The codec and the
 * arithmetic of Rational32 are written in these terms.
 */
module Bits {

  type uint32 = x: int | 0 <= x < 0x1_0000_0000
  type int32 = x: int | -0x8000_0000 <= x < 0x8000_0000

  const TwoTo32: int := 0x1_0000_0000

  function Pow2(k: nat): (p: nat)
    ensures p >= 1
  {
    if k == 0 then 1 else 2 * Pow2(k - 1)
  }

  /** The powers of two the word layout uses. */
  lemma Pow2Values()
    ensures Pow2(2) == 4 && Pow2(4) == 0x10 && Pow2(8) == 0x100
    ensures Pow2(16) == 0x1_0000 && Pow2(25) == 0x200_0000 && Pow2(26) == 0x400_0000
    ensures Pow2(27) == 0x800_0000 && Pow2(31) == 0x8000_0000 && Pow2(32) == 0x1_0000_0000
  {
    Pow2Add(8, 8);
    Pow2Add(16, 8);
    Pow2Add(24, 7);
  }

  lemma Pow2Of16()
    ensures Pow2(16) == 0x1_0000 && Pow2(17) == 0x2_0000
  {
    Pow2Values();
  }

  lemma Pow2Of25()
    ensures Pow2(25) == 0x200_0000
  {
    Pow2Values();
  }

  lemma Pow2Of26()
    ensures Pow2(26) == 0x400_0000
  {
    Pow2Values();
  }

  lemma Pow2Of27()
    ensures Pow2(27) == 0x800_0000
  {
    Pow2Values();
  }

  lemma Pow2Of31()
    ensures Pow2(31) == 0x8000_0000
  {
    Pow2Values();
  }

  lemma Pow2Of32()
    ensures Pow2(32) == 0x1_0000_0000
  {
    Pow2Values();
  }

  lemma {:induction false} Pow2Add(a: nat, b: nat)
    ensures Pow2(a + b) == Pow2(a) * Pow2(b)
  {
    if a > 0 {
      Pow2Add(a - 1, b);
    }
  }

  lemma {:induction false} Pow2Monotone(a: nat, b: nat)
    requires a < b
    ensures 2 * Pow2(a) <= Pow2(b)
  {
    if a + 1 < b {
      Pow2Monotone(a, b - 1);
    }
  }

  lemma Pow2Le(a: nat, b: nat)
    requires a <= b
    ensures Pow2(a) <= Pow2(b)
  {
    if a < b {
      Pow2Monotone(a, b);
    }
  }

  /** Division by a positive number is determined by quotient and remainder. */
  lemma DivModUnique(x: int, m: int, q: int, r: int)
    requires m > 0 && 0 <= r < m && x == q * m + r
    ensures x / m == q && x % m == r
  {
    var q', r' := x / m, x % m;
    assert (q - q') * m == r' - r;
    if q - q' >= 1 {
      MulAtLeast(q - q', m);
    } else if q' - q >= 1 {
      assert (q' - q) * m == r - r';
      MulAtLeast(q' - q, m);
    }
  }

  /** A digit pair (hi, lo) in base b: below a * b, with quotient hi and remainder lo. */
  lemma Compose(hi: int, lo: int, a: int, b: int)
    requires 0 <= hi < a && 0 <= lo < b
    ensures 0 <= hi * b + lo < a * b
    ensures (hi * b + lo) / b == hi && (hi * b + lo) % b == lo
  {
    MulMonotone(hi, a - 1, b);
    assert (a - 1) * b == a * b - b;
    DivModUnique(hi * b + lo, b, hi, lo);
  }

  /** x as its quotient and remainder by m. */
  lemma DivMod(x: int, m: int)
    requires m > 0
    ensures x == (x / m) * m + x % m && 0 <= x % m < m
  {
  }

  /** Numbers with the same quotient and remainder are equal. */
  lemma SameDivMod(a: int, b: int, m: int)
    requires m > 0 && a / m == b / m && a % m == b % m
    ensures a == b
  {
  }

  lemma MulAtLeast(d: int, m: int)
    requires m > 0 && d >= 1
    ensures d * m >= m
  {
    assert d * m == m + (d - 1) * m;
  }

  lemma MulMonotone(a: int, b: int, c: int)
    requires 0 <= a <= b && 0 <= c
    ensures a * c <= b * c
  {
    assert b * c - a * c == (b - a) * c;
  }

  /** A number below 2^(j + k) has fewer than 2^j multiples of 2^k beneath it. */
  lemma ShiftBelow(x: nat, j: nat, k: nat)
    requires x < Pow2(j + k)
    ensures x / Pow2(k) < Pow2(j)
  {
    Pow2Add(j, k);
    var q := x / Pow2(k);
    if q >= Pow2(j) {
      MulMonotone(Pow2(j), q, Pow2(k));
    }
  }

  /** Shifting right by k bits is halving once, then shifting by k - 1. */
  lemma HalveThenShift(a: nat, k: nat)
    requires k >= 1
    ensures a / Pow2(k) == (a / 2) / Pow2(k - 1)
    ensures a % Pow2(k) == 2 * ((a / 2) % Pow2(k - 1)) + a % 2
  {
    var h, q, t := Pow2(k - 1), (a / 2) / Pow2(k - 1), (a / 2) % Pow2(k - 1);
    assert a / 2 == q * h + t;
    assert a == q * (2 * h) + (2 * t + a % 2);
    DivModUnique(a, 2 * h, q, 2 * t + a % 2);
  }

  // ---------------------------------------------------------------------
  // C# unchecked conversions

  /** A 32-bit signed int holding x after two's-complement wrap-around. */
  function ToInt32(x: int): (r: int32)
    ensures -0x8000_0000 <= x < 0x8000_0000 ==> r == x
  {
    (x + 0x8000_0000) % TwoTo32 - 0x8000_0000
  }

  /** The `(uint)` cast: the low 32 bits of x. */
  function ToUInt32(x: int): (r: uint32)
    ensures 0 <= x < TwoTo32 ==> r == x
  {
    x % TwoTo32
  }

  // ---------------------------------------------------------------------
  // Bitwise operators on natural numbers, bit by bit from the lowest

  /** The count C# uses for a shift of a 32-bit int: its low five bits. */
  function IntShiftCount(c: int): (r: nat)
    ensures r < 32
    ensures 0 <= c < 32 ==> r == c
    ensures c == -1 ==> r == 31
  {
    c % 32
  }

  /** The count C# uses for a shift of a 64-bit long: its low six bits. */
  function LongShiftCount(c: int): (r: nat)
    ensures r < 64
    ensures 0 <= c < 64 ==> r == c
    ensures c == -1 ==> r == 63
  {
    c % 64
  }

  /** `a << k` on a non-negative number, before any truncation. */
  function Shl(a: nat, k: nat): nat
  {
    a * Pow2(k)
  }

  /** `a >> k` on a non-negative number. */
  function Shr(a: nat, k: nat): nat
  {
    Over(a, Pow2(k))
  }

  /** The k low bits of a, `a & ((1 << k) - 1)`. */
  function LowBits(a: nat, k: nat): nat
  {
    Mod(a, Pow2(k))
  }

  /** Division of a non-negative number by a positive one. */
  function Over(a: nat, p: int): nat
    requires p >= 1
  {
    a / p
  }

  /** Remainder of a non-negative number by a positive one. */
  function Mod(a: nat, p: int): nat
    requires p >= 1
  {
    a % p
  }

  function Or(a: nat, b: nat): nat
    decreases a
  {
    if a == 0 then b
    else if b == 0 then a
    else 2 * Or(a / 2, b / 2) + (if a % 2 == 1 || b % 2 == 1 then 1 else 0)
  }

  function And(a: nat, b: nat): nat
    decreases a
  {
    if a == 0 || b == 0 then 0
    else 2 * And(a / 2, b / 2) + (if a % 2 == 1 && b % 2 == 1 then 1 else 0)
  }

  function Xor(a: nat, b: nat): nat
    decreases a
  {
    if a == 0 then b
    else if b == 0 then a
    else 2 * Xor(a / 2, b / 2) + (if a % 2 != b % 2 then 1 else 0)
  }

  lemma OrStep(a: nat, b: nat)
    ensures Or(a, b) == 2 * Or(a / 2, b / 2) + (if a % 2 == 1 || b % 2 == 1 then 1 else 0)
  {
  }

  lemma AndStep(a: nat, b: nat)
    ensures And(a, b) == 2 * And(a / 2, b / 2) + (if a % 2 == 1 && b % 2 == 1 then 1 else 0)
  {
  }

  lemma XorStep(a: nat, b: nat)
    ensures Xor(a, b) == 2 * Xor(a / 2, b / 2) + (if a % 2 != b % 2 then 1 else 0)
  {
  }

  /** Masking with the k low bits is the remainder modulo 2^k. */
  lemma {:induction false} AndLowMask(a: nat, k: nat)
    ensures And(a, Pow2(k) - 1) == a % Pow2(k)
  {
    if k > 0 {
      var m := Pow2(k) - 1;
      assert m / 2 == Pow2(k - 1) - 1 && m % 2 == 1;
      AndLowMask(a / 2, k - 1);
      AndStep(a, m);
      HalveThenShift(a, k);
    }
  }

  lemma {:induction false} AndCommutes(a: nat, b: nat)
    ensures And(a, b) == And(b, a)
    decreases a
  {
    if a > 0 && b > 0 {
      AndCommutes(a / 2, b / 2);
    }
  }

  /** OR acts separately on the bits above and below position k. */
  lemma {:induction false} OrSplit(hiA: nat, hiB: nat, loA: nat, loB: nat, k: nat)
    requires loA < Pow2(k) && loB < Pow2(k)
    ensures Or(hiA * Pow2(k) + loA, hiB * Pow2(k) + loB) == Or(hiA, hiB) * Pow2(k) + Or(loA, loB)
  {
    if k > 0 {
      var p, h := Pow2(k), Pow2(k - 1);
      OrSplit(hiA, hiB, loA / 2, loB / 2, k - 1);
      MulDouble(hiA, h, p);
      MulDouble(hiB, h, p);
      MulDouble(Or(hiA, hiB), h, p);
      OrDoubleStep(hiA * h, hiB * h, Or(hiA, hiB) * h, hiA * p, hiB * p, Or(hiA, hiB) * p, loA, loB);
    } else {
      assert Pow2(k) == 1 && loA == 0 && loB == 0 && Or(loA, loB) == 0;
      assert hiA * Pow2(k) + loA == hiA && hiB * Pow2(k) + loB == hiB;
    }
  }

  lemma MulLessOne(a: int, b: int)
    ensures (a - 1) * b == a * b - b
  {
  }

  /** Digits (top, hi) in base a, scaled by b, where a * b == w. */
  lemma ScaleDigits(top: int, hi: int, a: int, b: int, w: int)
    requires a * b == w
    ensures (top * a + hi) * b == top * w + hi * b
  {
    assert (top * a + hi) * b == top * (a * b) + hi * b;
  }

  lemma MulDouble(x: nat, h: nat, p: int)
    requires p == 2 * h
    ensures x * p == 2 * (x * h) && x * h >= 0
  {
  }

  /** One bit down: the OR of 2x + loA and 2y + loB from the OR of their halves. */
  lemma OrDoubleStep(x: nat, y: nat, z: nat, x2: nat, y2: nat, z2: nat, loA: nat, loB: nat)
    requires x2 == 2 * x && y2 == 2 * y && z2 == 2 * z
    requires Or(x + loA / 2, y + loB / 2) == z + Or(loA / 2, loB / 2)
    ensures Or(x2 + loA, y2 + loB) == z2 + Or(loA, loB)
  {
    OrStep(x2 + loA, y2 + loB);
    OrStep(loA, loB);
    assert (x2 + loA) / 2 == x + loA / 2 && (y2 + loB) / 2 == y + loB / 2;
  }

  /** OR of two words whose set bits are apart is their sum. */
  lemma OrDisjoint(a: nat, b: nat, k: nat)
    requires a % Pow2(k) == 0 && b < Pow2(k)
    ensures Or(a, b) == a + b
  {
    var p := Pow2(k);
    var q := a / p;
    DivExact(a, p);
    OrSplit(q, 0, 0, b, k);
    assert q * p + 0 == a && 0 * p + b == b;
  }

  lemma DivExact(a: nat, p: int)
    requires p >= 1 && a % p == 0
    ensures a == (a / p) * p
  {
  }

  lemma {:induction false} OrBound(a: nat, b: nat, k: nat)
    requires a < Pow2(k) && b < Pow2(k)
    ensures Or(a, b) < Pow2(k)
  {
    if k > 0 {
      OrStep(a, b);
      OrBound(a / 2, b / 2, k - 1);
    }
  }

  lemma {:induction false} OrAtLeast(a: nat, b: nat)
    ensures a <= Or(a, b)
    decreases a
  {
    if a > 0 {
      OrStep(a, b);
      OrAtLeast(a / 2, b / 2);
    }
  }

  /** XOR of the low masks x of a = 2^j and y of b = 2^k is the band of bits between them. */
  lemma XorMasks(j: nat, k: nat, a: nat, b: nat, x: nat, y: nat)
    requires j <= k && a == Pow2(j) && b == Pow2(k) && x == a - 1 && y == b - 1
    ensures Xor(x, y) == b - a
  {
    XorLowMasks(j, k, a, b);
  }

  /** The same with the longer mask first. */
  lemma XorMasksReversed(j: nat, k: nat, a: nat, b: nat, x: nat, y: nat)
    requires j <= k && a == Pow2(j) && b == Pow2(k) && x == a - 1 && y == b - 1
    ensures Xor(y, x) == b - a
  {
    XorMasks(j, k, a, b, x, y);
    XorCommutes(x, y);
  }

  lemma {:induction false} XorLowMasks(j: nat, k: nat, a: nat, b: nat)
    requires j <= k && a == Pow2(j) && b == Pow2(k)
    ensures Xor(a - 1, b - 1) == b - a
  {
    if j > 0 {
      XorLowMasks(j - 1, k - 1, a / 2, b / 2);
      XorMaskStep(a / 2, b / 2, a, b);
    } else {
      XorZero(a - 1, b - 1);
    }
  }

  lemma XorZero(a: nat, b: nat)
    requires a == 0
    ensures Xor(a, b) == b
  {
  }

  /** Masks of ones one bit longer: the band between them doubles. */
  lemma XorMaskStep(a: nat, b: nat, p: nat, q: nat)
    requires a >= 1 && b >= 1 && p == 2 * a && q == 2 * b
    requires Xor(a - 1, b - 1) == b - a
    ensures Xor(p - 1, q - 1) == q - p
  {
    XorStep(p - 1, q - 1);
    assert (p - 1) / 2 == a - 1 && (q - 1) / 2 == b - 1;
  }


  lemma {:induction false} XorCommutes(a: nat, b: nat)
    ensures Xor(a, b) == Xor(b, a)
    decreases a
  {
    if a > 0 && b > 0 {
      XorCommutes(a / 2, b / 2);
    }
  }

  // ---------------------------------------------------------------------
  // Bit length

  /** The number of bits needed to write x: 0 for 0, else 1 + floor(log2 x). */
  function BitLen(x: nat): (n: nat)
    ensures x < Pow2(n)
    ensures x > 0 ==> n >= 1 && Pow2(n - 1) <= x
  {
    if x == 0 then 0 else 1 + BitLen(x / 2)
  }

  lemma BitLenUnique(x: nat, k: nat)
    requires k >= 1 && Pow2(k - 1) <= x < Pow2(k)
    ensures BitLen(x) == k
  {
    var n := BitLen(x);
    if n < k - 1 {
      Pow2Monotone(n, k - 1);
    } else if n > k {
      Pow2Monotone(k - 1, n - 1);
    }
  }

  lemma BitLenAtMost(x: nat, k: nat)
    requires x < Pow2(k)
    ensures BitLen(x) <= k
  {
    var n := BitLen(x);
    if n > k {
      if k < n - 1 { Pow2Monotone(k, n - 1); }
    }
  }

  /** Shifting right by s bits removes s bits of length. */
  lemma {:induction false} BitLenShift(x: nat, s: nat)
    ensures BitLen(Shr(x, s)) == if BitLen(x) >= s then BitLen(x) - s else 0
  {
    if s > 0 {
      HalveThenShift(x, s);
      assert Shr(x, s) == Shr(x / 2, s - 1);
      BitLenShift(x / 2, s - 1);
    } else {
      assert Shr(x, 0) == x;
    }
  }
}
