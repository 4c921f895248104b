/** How the conversions of one number relate to each other across widths, signs and representations. */
module ConversionLaws {
  import opened Words
  import opened Doubles
  import opened Conversions

  /**
   `Modular` of a finite double is the only number in range that is congruent to the integer part; a
   double whose exponent field is all ones converts to 0.
   */
  lemma ModularUnique(d: Bits64, width: nat, r: nat)
    requires r < Pow2(width)
    ensures IsFinite(d) ==> (r == Modular(d, width) <==> exists k: int :: Integral(d) == k * Pow2(width) + r)
    ensures BiasedExponent(d) == Pow2(EXPONENT_WIDTH) - 1 ==> Modular(d, width) == 0
  {
    hide Integral, BiasedExponent, Pow2;
    if IsFinite(d) {
      ResidueUnique(Integral(d), Pow2(width), r);
    }
  }

  /** `SignedResidue` is the only number in the signed range congruent to its argument. */
  lemma SignedResidueUnique(n: int, width: nat, r: int)
    requires 0 < width && 0 <= r + Pow2(width - 1) < Pow2(width)
    ensures r == SignedResidue(n, width) <==> exists k: int :: n == k * Pow2(width) + r
  {
    var half, m := Pow2(width - 1), Pow2(width);
    hide Pow2;
    if r == SignedResidue(n, width) {
      SignedResidueSplits(n, width);
    }
    forall k: int | n == k * m + r ensures r == SignedResidue(n, width) {
      DivModUnique(k, m, r + half);
    }
  }

  /**
   The signed conversion of a finite double is the only number in the signed range congruent to the
   integer part; a double whose exponent field is all ones converts to 0.
   */
  lemma SignedModularUnique(d: Bits64, width: nat, r: int)
    requires 0 < width && 0 <= r + Pow2(width - 1) < Pow2(width)
    ensures IsFinite(d) ==> (r == SignedModular(d, width) <==> exists k: int :: Integral(d) == k * Pow2(width) + r)
    ensures BiasedExponent(d) == Pow2(EXPONENT_WIDTH) - 1 ==> SignedModular(d, width) == 0
  {
    hide Integral, BiasedExponent, Pow2, SignedResidue;
    if IsFinite(d) {
      SignedResidueUnique(Integral(d), width, r);
    }
  }

  /** Reducing first to a wider signed type does not change the representative in a narrower one. */
  lemma SignedNarrow(n: int, narrow: nat, wide: nat)
    requires 0 < narrow <= wide
    ensures SignedResidue(SignedResidue(n, wide), narrow) == SignedResidue(n, narrow)
  {
    var half, m, shift := Pow2(narrow - 1), Pow2(narrow), Pow2(wide - narrow);
    var r := SignedResidue(n, wide);
    SignedResidueSplits(n, wide);
    var k := SignedQuotient(n, wide);
    Pow2Add(wide - narrow, narrow);
    hide Pow2;
    assert k * (shift * m) == (k * shift) * m;
    DivModShift(k * shift, m, r + half);
  }

  /**
   Converting to a narrower type equals converting to a wider one of the same signedness and
   dropping the upper bits.
   */
  lemma NarrowFromWide(d: Bits64, narrow: nat, wide: nat)
    requires narrow <= wide
    ensures Modular(d, narrow) == Modular(d, wide) % Pow2(narrow)
    ensures 0 < narrow ==> SignedModular(d, narrow) == SignedResidue(SignedModular(d, wide), narrow)
  {
    hide Integral, IsFinite, Pow2, SignedResidue;
    if IsFinite(d) {
      ModMod(Integral(d), narrow, wide);
      if 0 < narrow {
        SignedNarrow(Integral(d), narrow, wide);
      }
    } else {
      DivModUnique(0, Pow2(narrow), 0);
      if 0 < narrow {
        SignedResidueOfZero(narrow);
      }
    }
  }

  /** The pattern with the sign bit inverted. */
  function Negate(d: Bits64): Bits64 {
    hide *;
    FieldsEncode(d);
    Encode(!Negative(d), BiasedExponent(d), Fraction(d))
  }

  lemma NegateFields(d: Bits64)
    ensures Negative(Negate(d)) == !Negative(d)
    ensures BiasedExponent(Negate(d)) == BiasedExponent(d) && Fraction(Negate(d)) == Fraction(d)
  {
    hide Encode, Negative, BiasedExponent, Fraction, Pow2;
    FieldsEncode(d);
    EncodeFields(!Negative(d), BiasedExponent(d), Fraction(d));
  }

  /** Flipping the sign bit negates the result modulo 2^width. */
  lemma NegateModular(d: Bits64, width: nat)
    ensures Modular(Negate(d), width) == (0 - Modular(d, width)) % Pow2(width)
  {
    NegateFields(d);
    hide Negate, Negative, BiasedExponent, Fraction, Pow2, Integral, FloorTimes2To;
    if IsFinite(d) {
      IntegralOfFields(d);
      IntegralOfFields(Negate(d));
      NegMod(Integral(d), Pow2(width));
    } else {
      DivModUnique(0, Pow2(width), 0);
    }
  }

  // ---- ToInteger ----

  /** The fraction field without the bits that lie behind the binary point. */
  function WholeFraction(d: Bits64): (f: nat)
    requires EXPONENT_BIAS <= BiasedExponent(d) < EXPONENT_BIAS + EXPONENT_SHIFT
    ensures f < Pow2(EXPONENT_SHIFT)
  {
    hide Pow2, Scale, Shr, Low;
    var k := EXPONENT_BIAS + EXPONENT_SHIFT - BiasedExponent(d);
    ShrLowSplit(Fraction(d), k);
    FieldsEncode(d);
    Scale(Shr(Fraction(d), k), k)
  }

  /** The double without its digits behind the binary point. */
  function RoundTowardZero(d: Bits64): Bits64
    requires IsFinite(d)
  {
    hide Pow2, Shr, Low;
    FieldsEncode(d);
    var biased := BiasedExponent(d);
    if biased < EXPONENT_BIAS then Encode(Negative(d), 0, 0)
    else if biased < EXPONENT_BIAS + EXPONENT_SHIFT then Encode(Negative(d), biased, WholeFraction(d))
    else d
  }

  /** The C library's `floor`, for the positive doubles it is used on. */
  function FloorDouble(d: Bits64): (r: Bits64)
    requires IsFinite(d) && Value(d) > 0.0
    ensures IsFinite(r) && Value(r) == Value(d).Floor as real
  {
    hide Value, IsFinite, Negative, RoundTowardZero;
    RoundExact(d);
    RoundTowardZero(d)
  }

  /** The C library's `ceil`, for the negative doubles it is used on. */
  function CeilDouble(d: Bits64): (r: Bits64)
    requires IsFinite(d) && Value(d) < 0.0
    ensures IsFinite(r) && Value(r) == -((-Value(d)).Floor) as real
  {
    hide Value, IsFinite, Negative, RoundTowardZero;
    RoundExact(d);
    RoundTowardZero(d)
  }

  function ToInteger(d: Bits64): Bits64 {
    hide *;
    if IsFinite(d) && Value(d) == 0.0 then d
    else if !IsFinite(d) then
      if IsNaN(d) then 0 else d
    else if Value(d) < 0.0 then CeilDouble(d) else FloorDouble(d)
  }

  /**
   Outside the finite numbers: every NaN becomes +0, and the infinities stay as they are. NaN and
   infinity are told apart by the fields and by the pattern without its sign bit.
   */
  lemma ToIntegerNonFinite(d: Bits64)
    ensures BiasedExponent(d) == Pow2(EXPONENT_WIDTH) - 1 && Fraction(d) != 0 ==> ToInteger(d) == 0
    ensures BiasedExponent(d) == Pow2(EXPONENT_WIDTH) - 1 && Fraction(d) == 0 ==> ToInteger(d) == d
    ensures d % SIGN_PATTERN > INFINITY_PATTERN ==> ToInteger(d) == 0
    ensures d % SIGN_PATTERN == INFINITY_PATTERN ==> ToInteger(d) == d
  {
    PatternClasses(d);
    hide BiasedExponent, Fraction, Pow2, Value;
  }

  lemma WholeSignificand(d: Bits64, k: nat)
    requires EXPONENT_BIAS <= BiasedExponent(d) == EXPONENT_BIAS + EXPONENT_SHIFT - k && k > 0
    ensures Pow2(EXPONENT_SHIFT) + WholeFraction(d) == Scale(Shr(Significand(d), k), k)
    ensures Exponent(d) == 0 - k
  {
    hide Pow2, Low, Shr, Scale, BiasedExponent, Fraction;
    ShrLowSplit(Significand(d), k);
    ShrLowSplit(Fraction(d), k);
    LowIgnoresHigher(Fraction(d), k, EXPONENT_SHIFT);
  }

  lemma RoundedMiddle(d: Bits64)
    requires IsFinite(d) && EXPONENT_BIAS <= BiasedExponent(d) < EXPONENT_BIAS + EXPONENT_SHIFT
    ensures var r := RoundTowardZero(d);
      && Negative(r) == Negative(d) && BiasedExponent(r) == BiasedExponent(d)
      && Magnitude(r) == FloorTimes2To(Significand(d), Exponent(d)) as real
  {
    var k := EXPONENT_BIAS + EXPONENT_SHIFT - BiasedExponent(d);
    hide Pow2, Low, Shr, Scale, Negative, BiasedExponent, Fraction, WholeFraction, Encode, Times2To;
    FieldsEncode(d);
    EncodeFields(Negative(d), BiasedExponent(d), WholeFraction(d));
    WholeSignificand(d, k);
    Times2ToCancel(Shr(Significand(d), k), k);
  }

  lemma RoundedLarge(d: Bits64)
    requires IsFinite(d) && EXPONENT_BIAS + EXPONENT_SHIFT <= BiasedExponent(d)
    ensures RoundTowardZero(d) == d
    ensures Magnitude(d) == FloorTimes2To(Significand(d), Exponent(d)) as real
  {
    hide Pow2, Low, Shr, Scale, Negative, BiasedExponent, Fraction, WholeFraction, Encode;
    ScaleIsMul(Significand(d), Exponent(d));
  }

  lemma RoundedSmall(d: Bits64)
    requires IsFinite(d) && BiasedExponent(d) < EXPONENT_BIAS
    ensures var r := RoundTowardZero(d);
      && IsFinite(r) && Negative(r) == Negative(d) && Magnitude(r) == 0.0
  {
    hide Pow2, Low, Shr, Scale, Negative, BiasedExponent, Fraction, WholeFraction, Encode, Times2To;
    FieldsEncode(d);
    PowersOfOne();
    Widths();
    EncodeFields(Negative(d), 0, 0);
    Times2ToZero(Exponent(RoundTowardZero(d)));
  }

  lemma Times2ToZero(e: int)
    ensures Times2To(0, e) == 0.0
  {
  }

  /** `RoundTowardZero` returns exactly sign(d) * floor(abs(d)), with the sign of `d` even when that is zero. */
  lemma RoundExact(d: Bits64)
    requires IsFinite(d)
    ensures var r := RoundTowardZero(d);
      IsFinite(r) && Negative(r) == Negative(d) && Value(r) == Integral(d) as real
  {
    var r := RoundTowardZero(d);
    hide Pow2, Low, Shr, Scale, Negative, BiasedExponent, Fraction, Magnitude;
    hide RoundTowardZero, Integral, Value, FloorTimes2To;
    var n := FloorTimes2To(Significand(d), Exponent(d));
    IntegralOfFields(d);
    if BiasedExponent(d) < EXPONENT_BIAS {
      SmallIntegral(d);
      RoundedSmall(d);
      WholeMagnitude(r, 0);
    } else {
      if BiasedExponent(d) < EXPONENT_BIAS + EXPONENT_SHIFT {
        RoundedMiddle(d);
      } else {
        RoundedLarge(d);
      }
      WholeMagnitude(r, n);
    }
  }

  lemma IntegralOfWhole(d: Bits64, n: int)
    requires IsFinite(d) && Value(d) == n as real
    ensures Integral(d) == n
  {
    hide Value, IsFinite;
  }

  lemma ZeroDouble()
    ensures IsFinite(0) && !Negative(0) && Value(0) == 0.0
  {
    Widths();
    ZeroFields(63);
    ZeroFields(EXPONENT_SHIFT);
    ZeroFields(EXPONENT_WIDTH);
  }

  lemma {:induction false} ZeroFields(k: nat)
    ensures Shr(0, k) == 0 && Low(0, k) == 0
  {
    if k == 0 {
    } else {
      ZeroFields(k - 1);
    }
  }

  /**
   `ToInteger` never rounds: on finite numbers its result is the integer part itself, and it is the
   only double of that value and sign.
   */
  lemma ToIntegerExact(d: Bits64, other: Bits64)
    requires IsFinite(d)
    ensures IsFinite(ToInteger(d)) && Negative(ToInteger(d)) == Negative(d)
    ensures Value(ToInteger(d)) == Integral(d) as real
    ensures IsFinite(other) && Negative(other) == Negative(d) && Value(other) == Integral(d) as real
      ==> other == ToInteger(d)
  {
    hide Value, IsFinite, Negative, RoundTowardZero, Integral;
    RoundExact(d);
    if Value(d) == 0.0 {
      IntegralOfWhole(d, 0);
    }
    if IsFinite(other) && Negative(other) == Negative(d) && Value(other) == Integral(d) as real {
      EncodingUnique(other, ToInteger(d));
    }
  }

  lemma ToIntegerIdempotent(d: Bits64)
    ensures ToInteger(ToInteger(d)) == ToInteger(d)
  {
    hide Value, IsFinite, Negative, RoundTowardZero, Integral, IsNaN;
    ZeroDouble();
    if IsFinite(d) {
      var r := ToInteger(d);
      ToIntegerExact(d, d);
      IntegralOfWhole(r, Integral(d));
      ToIntegerExact(r, r);
    }
  }

  /** Applying `ToInteger` first never changes a conversion. */
  lemma ToIntegerFirst(d: Bits64, width: nat)
    ensures Modular(ToInteger(d), width) == Modular(d, width)
  {
    hide Value, IsFinite, Negative, RoundTowardZero, Integral, IsNaN, Pow2;
    ZeroDouble();
    if IsFinite(d) {
      ToIntegerExact(d, d);
      IntegralOfWhole(ToInteger(d), Integral(d));
    } else {
      IntegralOfWhole(0, 0);
      DivModUnique(0, Pow2(width), 0);
    }
  }

  // ---- The int32 fast paths ----

  function AbsInt(i: int): nat {
    if i < 0 then 0 - i else i
  }

  lemma NormalizedInt(n: nat, e: nat)
    requires Pow2(e) <= n < 2 * Pow2(e) && n < 2 * Pow2(EXPONENT_SHIFT)
    ensures e <= EXPONENT_SHIFT
    ensures Pow2(EXPONENT_SHIFT) <= Scale(n, EXPONENT_SHIFT - e) < 2 * Pow2(EXPONENT_SHIFT)
    ensures e + EXPONENT_BIAS < Pow2(EXPONENT_WIDTH) - 1
  {
    hide Pow2, Scale;
    Widths();
    if e > EXPONENT_SHIFT {
      StrictPow2(EXPONENT_SHIFT, e);
      assert false;
    }
    ScaleRange(n, EXPONENT_SHIFT - e, e);
  }

  /** The double that represents an integer of at most 53 bits. */
  function EncodeInt(i: int): Bits64
    requires AbsInt(i) < 2 * Pow2(EXPONENT_SHIFT)
  {
    hide Pow2, Scale;
    if i == 0 then 0 else
      var n := AbsInt(i);
      var e := Log2(n);
      NormalizedInt(n, e);
      Encode(i < 0, e + EXPONENT_BIAS, Scale(n, EXPONENT_SHIFT - e) - Pow2(EXPONENT_SHIFT))
  }

  lemma EncodeIntExact(i: int)
    requires AbsInt(i) < 2 * Pow2(EXPONENT_SHIFT)
    ensures var d := EncodeInt(i);
      IsFinite(d) && Value(d) == i as real && Integral(d) == i && Negative(d) == (i < 0)
  {
    hide Pow2, Scale, Negative, BiasedExponent, Fraction, Encode, Times2To, Log2;
    var d := EncodeInt(i);
    if i == 0 {
      ZeroDouble();
    } else {
      var n, e := AbsInt(i), Log2(AbsInt(i));
      NormalizedInt(n, e);
      EncodeFields(i < 0, e + EXPONENT_BIAS, Scale(n, EXPONENT_SHIFT - e) - Pow2(EXPONENT_SHIFT));
      Times2ToCancel(n, EXPONENT_SHIFT - e);
    }
    IntegralOfWhole(d, i);
  }

  /** `uintW_t(i)` for an int32 `i`. */
  function CastToUnsigned(i: int, width: nat): nat {
    i % Pow2(width)
  }

  /** `intW_t(i)` for an int32 `i`: the value itself if the type can hold it, else its low bits. */
  function CastToSigned(i: int, width: nat): int
    requires width > 0
  {
    if width >= 32 then i else WrapToSigned(i % Pow2(width), width)
  }

  /** Casting an int32 directly agrees with the bit-level conversion of any double that equals it. */
  lemma FastPathAgrees(i: int, d: Bits64, width: nat)
    requires -0x8000_0000 <= i < 0x8000_0000 && width in {8, 16, 32, 64}
    requires IsFinite(d) && Value(d) == i as real
    ensures CastToUnsigned(i, width) == Modular(d, width)
    ensures CastToSigned(i, width) == SignedModular(d, width)
  {
    hide IsFinite, Integral, Pow2, Value;
    IntegralOfWhole(d, i);
    if width >= 32 {
      Int32InRange(i, width);
      DivModUnique(0, Pow2(width), i + Pow2(width - 1));
    } else {
      WrapIsResidue(i, width);
    }
  }

  /** Every int32 is a double. */
  lemma Int32IsDouble(i: int)
    requires -0x8000_0000 <= i < 0x8000_0000
    ensures exists d: Bits64 :: IsFinite(d) && Value(d) == i as real
  {
    hide Pow2, EncodeInt, IsFinite, Value, Integral, Negative;
    Pow2Of31();
    Pow2Mono(31, EXPONENT_SHIFT);
    EncodeIntExact(i);
  }

  lemma Int32InRange(i: int, width: nat)
    requires -0x8000_0000 <= i < 0x8000_0000 && width >= 32
    ensures 0 <= i + Pow2(width - 1) < Pow2(width)
  {
    Pow2Of31();
    Pow2Mono(31, width - 1);
  }
}
