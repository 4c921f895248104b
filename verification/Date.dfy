/** Clipping of times to the range of JavaScript dates (ECMA-262 6th edition, section 20.3.1.15). */
module Date {
  import opened Words
  import opened Doubles
  import opened Conversions
  import opened ConversionLaws

  const MAX_TIME_MAGNITUDE: real := 8_640_000_000_000_000.0

  /** The NaN with every bit set. */
  const UNSPECIFIED_NAN: Bits64 := Pow2(64) - 1

  datatype ClippedTime = ClippedTime(t: Bits64) {
    predicate IsValid() {
      !IsNaN(t)
    }
  }

  /** IEEE 754 addition of +0.0, which turns -0.0 into +0.0 and changes no other number. */
  function AddPositiveZero(d: Bits64): Bits64
    requires IsFinite(d)
  {
    if Value(d) == 0.0 then 0 else d
  }

  function TimeClip(time: Bits64): ClippedTime {
    if !IsFinite(time) || Value(time) > MAX_TIME_MAGNITUDE || -Value(time) > MAX_TIME_MAGNITUDE then
      ClippedTime(UNSPECIFIED_NAN)
    else
      ToIntegerExact(time, time);
      ClippedTime(AddPositiveZero(ToInteger(time)))
  }

  /** The times that are dates: finite and at most 100,000,000 days from the epoch. */
  predicate InDateRange(time: Bits64) {
    IsFinite(time) && -8_640_000_000_000_000.0 <= Value(time) <= 8_640_000_000_000_000.0
  }

  lemma UnspecifiedNaN()
    ensures IsNaN(UNSPECIFIED_NAN)
  {
    hide Pow2, Low, Shr;
    Widths();
    LowOfOnes(EXPONENT_SHIFT, 12);
    ShrOfOnes(EXPONENT_SHIFT, 12);
    LowOfOnes(EXPONENT_WIDTH, 1);
    assert Pow2(EXPONENT_SHIFT) > 1 by {
      PowersOfOne();
      Pow2Mono(1, EXPONENT_SHIFT);
    }
  }

  lemma {:induction false} LowOfOnes(k: nat, rest: nat)
    ensures Low(Pow2(k + rest) - 1, k) == Pow2(k) - 1
  {
    if k == 0 {
    } else {
      var n := Pow2(k + rest) - 1;
      assert n == 2 * (Pow2(k - 1 + rest) - 1) + 1;
      assert Low(n, k) == 2 * Low(n / 2, k - 1) + n % 2;
      hide Low;
      LowOfOnes(k - 1, rest);
    }
  }

  lemma {:induction false} ShrOfOnes(k: nat, rest: nat)
    ensures Shr(Pow2(k + rest) - 1, k) == Pow2(rest) - 1
  {
    if k == 0 {
    } else {
      ShrOfOnes(k - 1, rest);
      assert (Pow2(k + rest) - 1) / 2 == Pow2(k + rest - 1) - 1;
    }
  }

  /**
   Clipping is valid exactly for times in range, and then gives their integer part, never
   negative zero; every other time becomes the NaN with all bits set.
   */
  lemma TimeClipExact(time: Bits64)
    ensures TimeClip(time).IsValid() <==> InDateRange(time)
    ensures !InDateRange(time) ==> TimeClip(time).t == 0xffff_ffff_ffff_ffff
    ensures InDateRange(time) ==> var t := TimeClip(time).t;
      && IsFinite(t) && Value(t) == Integral(time) as real
      && (Value(t) == 0.0 ==> t == 0)
  {
    UnspecifiedNaN();
    Patterns();
    hide Value, Integral, ToInteger, IsFinite, Pow2, Fraction;
    ZeroDouble();
    FiniteIsNumber(TimeClip(time).t);
    if InDateRange(time) {
      ToIntegerExact(time, time);
    }
  }

  /** A whole number of milliseconds is a valid time exactly up to 100,000,000 days from the epoch. */
  lemma TimeClipOfInt(n: int)
    requires AbsInt(n) < 2 * Pow2(EXPONENT_SHIFT)
    ensures TimeClip(EncodeInt(n)).IsValid() <==> -8_640_000_000_000_000 <= n <= 8_640_000_000_000_000
    ensures TimeClip(EncodeInt(n)).IsValid() ==> TimeClip(EncodeInt(n)).t == EncodeInt(n)
  {
    var d := EncodeInt(n);
    EncodeIntExact(n);
    TimeClipExact(d);
    hide TimeClip, Value, Integral, IsFinite, Negative, Pow2, EncodeInt;
    if InDateRange(d) {
      var t := TimeClip(d).t;
      ZeroDouble();
      SignOfValue(t);
      SignOfValue(d);
      ZeroIsInt(n);
      if n != 0 {
        EncodingUnique(t, d);
      }
    }
  }

  lemma ZeroIsInt(n: int)
    requires AbsInt(n) < 2 * Pow2(EXPONENT_SHIFT)
    ensures n == 0 ==> EncodeInt(n) == 0
  {
  }

  /** The edges: the last valid millisecond on either side, and the first invalid ones. */
  lemma TimeClipEdges()
    ensures AbsInt(8_640_000_000_000_001) < 2 * Pow2(EXPONENT_SHIFT)
    ensures TimeClip(EncodeInt(8_640_000_000_000_000)).IsValid()
    ensures TimeClip(EncodeInt(-8_640_000_000_000_000)).IsValid()
    ensures !TimeClip(EncodeInt(8_640_000_000_000_001)).IsValid()
    ensures !TimeClip(EncodeInt(-8_640_000_000_000_001)).IsValid()
  {
    Patterns();
    TimeClipOfInt(8_640_000_000_000_000);
    TimeClipOfInt(-8_640_000_000_000_000);
    TimeClipOfInt(8_640_000_000_000_001);
    TimeClipOfInt(-8_640_000_000_000_001);
    hide *;
  }

  lemma FiniteIsNumber(d: Bits64)
    ensures IsFinite(d) ==> !IsNaN(d)
  {
  }

  lemma IntegralTowardZero(d: Bits64)
    requires IsFinite(d)
    ensures 0.0 <= Value(d) ==> 0.0 <= Integral(d) as real <= Value(d) < Integral(d) as real + 1.0
    ensures Value(d) <= 0.0 ==> Integral(d) as real - 1.0 < Value(d) <= Integral(d) as real <= 0.0
  {
    hide Value, IsFinite;
  }

  /** Clipping keeps a clipped time unchanged. */
  lemma TimeClipIdempotent(time: Bits64)
    ensures TimeClip(TimeClip(time).t) == TimeClip(time)
  {
    var r := TimeClip(time).t;
    TimeClipExact(time);
    UnspecifiedNaN();
    if InDateRange(time) {
      hide TimeClip, Value, Integral, IsFinite;
      IntegralTowardZero(time);
      IntegralOfWhole(r, Integral(time));
      TimeClipSame(r, time);
    } else {
      hide Value, Integral, IsFinite, Pow2, Fraction;
      FiniteIsNumber(UNSPECIFIED_NAN);
    }
  }

  /** Two times in range clip to the same bits exactly if they have the same integer part. */
  lemma TimeClipSame(a: Bits64, b: Bits64)
    requires InDateRange(a) && InDateRange(b)
    ensures TimeClip(a) == TimeClip(b) <==> Integral(a) == Integral(b)
  {
    TimeClipExact(a);
    TimeClipExact(b);
    hide TimeClip, Value, Integral, IsFinite, Negative;
    var x, y := TimeClip(a).t, TimeClip(b).t;
    if Integral(a) == Integral(b) {
      SignOfValue(x);
      SignOfValue(y);
      EncodingUnique(x, y);
    }
  }

  lemma SignOfValue(d: Bits64)
    requires IsFinite(d)
    ensures Value(d) != 0.0 ==> (Negative(d) <==> Value(d) < 0.0)
  {
    hide Magnitude, Negative, IsFinite;
    MagnitudeNonnegative(d);
  }

  lemma IntegralMonotone(a: Bits64, b: Bits64)
    requires IsFinite(a) && IsFinite(b) && Value(a) <= Value(b)
    ensures Integral(a) <= Integral(b)
  {
    var x, y := Integral(a), Integral(b);
    hide Value, Integral, IsFinite;
    IntegralTowardZero(a);
    IntegralTowardZero(b);
    assert x <= y || x as real >= y as real + 1.0;
  }

  /** Clipping never reorders valid times. */
  lemma TimeClipMonotone(a: Bits64, b: Bits64)
    requires InDateRange(a) && InDateRange(b) && Value(a) <= Value(b)
    ensures IsFinite(TimeClip(a).t) && IsFinite(TimeClip(b).t)
    ensures Value(TimeClip(a).t) <= Value(TimeClip(b).t)
  {
    hide TimeClip, Value, Integral, IsFinite;
    TimeClipExact(a);
    TimeClipExact(b);
    IntegralMonotone(a, b);
  }
}
