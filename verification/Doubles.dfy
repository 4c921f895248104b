/** IEEE 754-2008 binary64 numbers as bit patterns, and the real numbers they stand for (section 3.4). */
module Doubles {
  import opened Words

  const EXPONENT_SHIFT: nat := 52
  const EXPONENT_WIDTH: nat := 11
  const EXPONENT_BIAS: nat := 1023

  type Bits64 = n: nat | n < Pow2(64)

  function Negative(d: Bits64): bool {
    Shr(d, 63) == 1
  }

  function BiasedExponent(d: Bits64): nat {
    Low(Shr(d, EXPONENT_SHIFT), EXPONENT_WIDTH)
  }

  function Fraction(d: Bits64): nat {
    Low(d, EXPONENT_SHIFT)
  }

  predicate IsFinite(d: Bits64) {
    BiasedExponent(d) != Pow2(EXPONENT_WIDTH) - 1
  }

  predicate IsNaN(d: Bits64) {
    !IsFinite(d) && Fraction(d) != 0
  }

  /** The significand with its implicit leading one, which subnormals lack. */
  function Significand(d: Bits64): nat {
    if BiasedExponent(d) == 0 then Fraction(d) else Pow2(EXPONENT_SHIFT) + Fraction(d)
  }

  /** The power of two that scales the significand. */
  function Exponent(d: Bits64): int {
    (if BiasedExponent(d) == 0 then 1 else BiasedExponent(d)) - EXPONENT_BIAS - EXPONENT_SHIFT
  }

  function Times2To(m: nat, e: int): real {
    if e >= 0 then (m * Pow2(e)) as real else (m as real) / (Pow2(-e) as real)
  }

  function Magnitude(d: Bits64): real {
    Times2To(Significand(d), Exponent(d))
  }

  /** The real number a finite double denotes. */
  function Value(d: Bits64): real
    requires IsFinite(d)
  {
    if Negative(d) then -Magnitude(d) else Magnitude(d)
  }

  /** sign(d) * floor(abs(d)), the integer part that ECMA-262 6th edition sections 7.1.4 to 7.1.10 speak of. */
  function Integral(d: Bits64): int
    requires IsFinite(d)
  {
    var v := Value(d);
    if v < 0.0 then -((-v).Floor) else v.Floor
  }

  // ---- The fields of the encoding ----

  /** Assembles a double from its three fields. */
  function Encode(negative: bool, biased: nat, fraction: nat): Bits64
    requires biased < Pow2(EXPONENT_WIDTH) && fraction < Pow2(EXPONENT_SHIFT)
  {
    hide *;
    EncodeSplit(negative, biased, fraction);
    Scale(TopFields(negative, biased), EXPONENT_SHIFT) + fraction
  }

  /** The sign and exponent fields together. */
  function TopFields(negative: bool, biased: nat): nat {
    if negative then Pow2(EXPONENT_WIDTH) + biased else biased
  }

  lemma PowersOfOne()
    ensures Pow2(0) == 1 && Pow2(1) == 2
  {
  }

  lemma TopFieldsSplit(negative: bool, biased: nat)
    requires biased < Pow2(EXPONENT_WIDTH)
    ensures TopFields(negative, biased) < Pow2(12)
    ensures !negative ==> TopFields(negative, biased) == biased
    ensures Low(TopFields(negative, biased), EXPONENT_WIDTH) == biased
    ensures Shr(TopFields(negative, biased), EXPONENT_WIDTH) == if negative then 1 else 0
  {
    hide Pow2, Low, Shr, Scale;
    PowersOfOne();
    var sign := if negative then 1 else 0;
    ScaleOne(EXPONENT_WIDTH);
    JoinSplit(sign, biased, EXPONENT_WIDTH, 1);
  }

  lemma Widths()
    ensures EXPONENT_SHIFT + 12 == 64
    ensures EXPONENT_SHIFT + EXPONENT_WIDTH == 63
    ensures 0 < EXPONENT_SHIFT < EXPONENT_BIAS
    ensures Pow2(EXPONENT_WIDTH) == 2 * EXPONENT_BIAS + 2
  {
  }

  lemma EncodeSplit(negative: bool, biased: nat, fraction: nat)
    requires biased < Pow2(EXPONENT_WIDTH) && fraction < Pow2(EXPONENT_SHIFT)
    ensures var n := Scale(TopFields(negative, biased), EXPONENT_SHIFT) + fraction;
      && n < Pow2(64)
      && (!negative ==> n < Pow2(63))
      && Low(n, EXPONENT_SHIFT) == fraction
      && Low(Shr(n, EXPONENT_SHIFT), EXPONENT_WIDTH) == biased
      && Shr(n, 63) == if negative then 1 else 0
  {
    hide *;
    Widths();
    TopFieldsSplit(negative, biased);
    var top := TopFields(negative, biased);
    JoinSplit(top, fraction, EXPONENT_SHIFT, 12);
    if !negative {
      JoinSplit(top, fraction, EXPONENT_SHIFT, EXPONENT_WIDTH);
    }
    ShrShr(Scale(top, EXPONENT_SHIFT) + fraction, EXPONENT_SHIFT, EXPONENT_WIDTH);
  }

  /** Encoding and taking apart are inverse to each other. */
  lemma EncodeFields(negative: bool, biased: nat, fraction: nat)
    requires biased < Pow2(EXPONENT_WIDTH) && fraction < Pow2(EXPONENT_SHIFT)
    ensures var d := Encode(negative, biased, fraction);
      Negative(d) == negative && BiasedExponent(d) == biased && Fraction(d) == fraction
  {
    hide Pow2, Scale, TopFields, Low, Shr;
    EncodeSplit(negative, biased, fraction);
  }

  lemma FieldsEncode(d: Bits64)
    ensures BiasedExponent(d) < Pow2(EXPONENT_WIDTH) && Fraction(d) < Pow2(EXPONENT_SHIFT)
    ensures d == Encode(Negative(d), BiasedExponent(d), Fraction(d))
  {
    hide Pow2, Scale, Low, Shr;
    var top := Shr(d, EXPONENT_SHIFT);
    ShrLowSplit(d, EXPONENT_SHIFT);
    ShrLowSplit(top, EXPONENT_WIDTH);
    ShrShr(d, EXPONENT_SHIFT, EXPONENT_WIDTH);
    TopIsBit(d);
  }

  lemma TopIsBit(d: Bits64)
    ensures Shr(d, 63) < 2
    ensures Scale(Shr(d, 63), EXPONENT_WIDTH) == if Negative(d) then Pow2(EXPONENT_WIDTH) else 0
  {
    hide Pow2, Shr, Scale;
    PowersOfOne();
    ShrBelow(d, 63, 1);
    ScaleOne(EXPONENT_WIDTH);
  }

  const SIGN_PATTERN: nat := 0x8000_0000_0000_0000
  const INFINITY_PATTERN: nat := 0x7ff0_0000_0000_0000

  lemma Patterns()
    ensures Pow2(EXPONENT_SHIFT) == 0x10_0000_0000_0000
    ensures Pow2(63) == SIGN_PATTERN && Pow2(64) == 0x1_0000_0000_0000_0000
    ensures Pow2(EXPONENT_WIDTH) == 0x800
  {
    SmallPowers();
    hide Pow2;
    Pow2Add(13, 13);
    Pow2Add(26, 26);
    Pow2Add(EXPONENT_SHIFT, EXPONENT_WIDTH);
    Pow2Add(63, 1);
  }

  lemma SmallPowers()
    ensures Pow2(1) == 2 && Pow2(11) == 0x800 && Pow2(13) == 0x2000
  {
    assert Pow2(6) == 0x40;
  }

  /** The classes of patterns as numbers: without its sign bit a pattern is finite below infinity, and NaN above. */
  lemma PatternClasses(d: Bits64)
    ensures Negative(d) <==> d >= SIGN_PATTERN
    ensures IsFinite(d) <==> d % SIGN_PATTERN < INFINITY_PATTERN
    ensures IsNaN(d) <==> d % SIGN_PATTERN > INFINITY_PATTERN
  {
    Patterns();
    FieldsEncode(d);
    ShrIsDiv(d, 63);
    LowSplit(d, EXPONENT_SHIFT, EXPONENT_WIDTH);
    ScaleIsMul(BiasedExponent(d), EXPONENT_SHIFT);
    TopIsBit(d);
    hide Pow2, Shr, Scale, Low;
    FieldBounds(BiasedExponent(d), Fraction(d), d % SIGN_PATTERN);
  }

  lemma FieldBounds(biased: nat, fraction: nat, low: nat)
    requires biased < 0x800 && fraction < 0x10_0000_0000_0000
    requires low == biased * 0x10_0000_0000_0000 + fraction
    ensures biased != 0x7ff <==> low < INFINITY_PATTERN
    ensures biased == 0x7ff && fraction != 0 <==> low > INFINITY_PATTERN
  {
  }

  // ---- Integer parts ----

  /** floor(m * 2^e) */
  function FloorTimes2To(m: nat, e: int): nat {
    if e >= 0 then Scale(m, e) else Shr(m, -e)
  }

  lemma FloorQuotient(m: nat, k: nat)
    requires k > 0
    ensures ((m as real) / (k as real)).Floor == m / k
  {
    var q, x := m / k, (m as real) / (k as real);
    assert x * (k as real) == m as real;
    assert q * k <= m < q * k + k;
    assert (q * k) as real == (q as real) * (k as real);
    QuotientAtLeast(x, q as real, k as real);
    QuotientBelow(x, q as real + 1.0, k as real);
  }

  lemma QuotientAtLeast(x: real, q: real, k: real)
    requires k > 0.0 && q * k <= x * k
    ensures q <= x
  {
  }

  lemma QuotientBelow(x: real, q: real, k: real)
    requires k > 0.0 && x * k < q * k
    ensures x < q
  {
  }

  lemma FloorOfScaled(m: nat, e: int)
    ensures Times2To(m, e) >= 0.0
    ensures Times2To(m, e).Floor == FloorTimes2To(m, e)
  {
    if e >= 0 {
      ScaleIsMul(m, e);
    } else {
      ShrIsDiv(m, -e);
      FloorQuotient(m, Pow2(-e));
      QuotientAtLeast((m as real) / (Pow2(-e) as real), 0.0, Pow2(-e) as real);
    }
  }

  /** The integer part read off the bits. */
  lemma IntegralOfFields(d: Bits64)
    requires IsFinite(d)
    ensures var n: int := FloorTimes2To(Significand(d), Exponent(d));
      Integral(d) == if Negative(d) then -n else n
  {
    FloorOfScaled(Significand(d), Exponent(d));
  }

  /** A double whose magnitude is whole is its own integer part. */
  lemma WholeMagnitude(d: Bits64, n: nat)
    requires IsFinite(d) && Magnitude(d) == n as real
    ensures Integral(d) == if Negative(d) then 0 - n else n
    ensures Value(d) == Integral(d) as real
  {
    hide Negative, Magnitude, BiasedExponent, Fraction;
  }

  lemma Times2ToCancel(q: nat, k: nat)
    ensures Times2To(Scale(q, k), 0 - k) == q as real
  {
    ScaleIsMul(q, k);
    if k > 0 {
      assert (q * Pow2(k)) as real == (q as real) * (Pow2(k) as real);
    }
  }

  // ---- Order and uniqueness ----

  lemma Times2ToSum(m: nat, n: nat, e: int)
    ensures Times2To(m + n, e) == Times2To(m, e) + Times2To(n, e)
  {
    if e >= 0 {
      Distribute(m, n, Pow2(e));
    } else {
      SumOfQuotients(m as real, n as real, Pow2(-e) as real);
    }
  }

  lemma SumOfQuotients(x: real, y: real, k: real)
    requires k > 0.0
    ensures (x + y) / k == x / k + y / k
  {
  }

  lemma Times2ToDouble(m: nat, e: int)
    ensures Times2To(2 * m, e) == Times2To(m, e + 1)
  {
    if e >= 0 {
      assert Pow2(e + 1) == 2 * Pow2(e);
      Regroup(m, Pow2(e));
    } else if e == -1 {
      assert Pow2(1) == 2 && Pow2(0) == 1;
    } else {
      var k := -(e + 1);
      assert Pow2(-e) == 2 * Pow2(k);
      hide Pow2;
      HalveQuotient(m as real, Pow2(k) as real);
    }
  }

  lemma Regroup(m: nat, p: nat)
    ensures (2 * m) * p == m * (2 * p)
  {
  }

  lemma HalveQuotient(x: real, k: real)
    requires k > 0.0
    ensures (2.0 * x) / (2.0 * k) == x / k
  {
    assert (x / k) * k == x;
    assert (x / k) * (2.0 * k) == 2.0 * x;
  }

  lemma Times2ToPositive(m: nat, e: int)
    requires m > 0
    ensures Times2To(m, e) > 0.0
  {
    if e >= 0 {
      MulAtLeast(m, Pow2(e));
    } else {
      QuotientAtLeast(1.0 / (Pow2(-e) as real), 0.0, Pow2(-e) as real);
      var x := (m as real) / (Pow2(-e) as real);
      assert x * (Pow2(-e) as real) == m as real;
    }
  }

  lemma PositiveFields(d: Bits64)
    requires d < Pow2(63)
    ensures BiasedExponent(d) == Shr(d, EXPONENT_SHIFT)
    ensures Fraction(d) < Pow2(EXPONENT_SHIFT)
  {
    hide Pow2, Low, Shr;
    ShrLowSplit(d, EXPONENT_SHIFT);
    ShrBelow(d, EXPONENT_SHIFT, EXPONENT_WIDTH);
    LowSmall(Shr(d, EXPONENT_SHIFT), EXPONENT_WIDTH);
  }

  /** How the fields change from one positive number to the next. */
  lemma SuccessorFields(d: Bits64, next: Bits64)
    requires next == d + 1 < Pow2(63)
    ensures || (Exponent(next) == Exponent(d) && Significand(next) == Significand(d) + 1)
            || (Exponent(next) == Exponent(d) + 1 && 2 * Significand(next) == Significand(d) + 1)
  {
    hide Pow2, Low, Shr;
    PositiveFields(d);
    PositiveFields(next);
    Increment(d, EXPONENT_SHIFT);
  }

  /** The next bit pattern is one unit in the last place further from zero. */
  lemma MagnitudeSuccessor(d: Bits64, next: Bits64)
    requires next == d + 1 < Pow2(63)
    ensures Magnitude(next) == Magnitude(d) + Times2To(1, Exponent(d))
  {
    hide Significand, Exponent, Times2To;
    SuccessorFields(d, next);
    Times2ToSum(Significand(d), 1, Exponent(d));
    Times2ToDouble(Significand(next), Exponent(d));
  }

  /** Bit patterns of positive numbers are ordered as the numbers are. */
  lemma {:induction false} MagnitudeOrder(a: Bits64, b: Bits64)
    requires a < b < Pow2(63)
    ensures Magnitude(a) < Magnitude(b)
    decreases b
  {
    hide *;
    var c: Bits64 := b - 1;
    MagnitudeSuccessor(c, b);
    Times2ToPositive(1, Exponent(c));
    if a == c {
    } else {
      MagnitudeOrder(a, c);
    }
  }

  /** The pattern with the sign bit cleared. */
  function Abs(d: Bits64): Bits64 {
    hide *;
    FieldsEncode(d);
    Encode(false, BiasedExponent(d), Fraction(d))
  }

  lemma AbsFields(d: Bits64)
    ensures Abs(d) < Pow2(63)
    ensures Magnitude(Abs(d)) == Magnitude(d)
  {
    hide Pow2, Scale, Low, Shr, TopFields;
    FieldsEncode(d);
    EncodeSplit(false, BiasedExponent(d), Fraction(d));
  }

  lemma MagnitudeInjective(a: Bits64, b: Bits64)
    requires a < Pow2(63) && b < Pow2(63) && Magnitude(a) == Magnitude(b)
    ensures a == b
  {
    hide *;
    if a < b {
      MagnitudeOrder(a, b);
    } else if b < a {
      MagnitudeOrder(b, a);
    }
  }

  lemma MagnitudeNonnegative(d: Bits64)
    ensures Magnitude(d) >= 0.0
  {
    FloorOfScaled(Significand(d), Exponent(d));
  }

  lemma AbsAndSign(a: Bits64, b: Bits64)
    requires Negative(a) == Negative(b) && Abs(a) == Abs(b)
    ensures a == b
  {
    hide Pow2, Scale, Low, Shr, TopFields;
    FieldsEncode(a);
    FieldsEncode(b);
    EncodeSplit(false, BiasedExponent(a), Fraction(a));
    EncodeSplit(false, BiasedExponent(b), Fraction(b));
  }

  /** A number has one encoding for each sign; only zero has both signs. */
  lemma EncodingUnique(a: Bits64, b: Bits64)
    requires IsFinite(a) && IsFinite(b) && Value(a) == Value(b)
    ensures Negative(a) == Negative(b) ==> a == b
    ensures Negative(a) != Negative(b) ==> Value(a) == 0.0
  {
    hide Negative, Magnitude, Abs, Pow2, Scale, Low, Shr;
    MagnitudeNonnegative(a);
    MagnitudeNonnegative(b);
    if Negative(a) == Negative(b) {
      AbsFields(a);
      AbsFields(b);
      MagnitudeInjective(Abs(a), Abs(b));
      AbsAndSign(a, b);
    }
  }
}
