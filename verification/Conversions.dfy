/** ECMAScript conversions from doubles to integers of a fixed width. */
module Conversions {
  import opened Words
  import opened Doubles

  const EXPONENT_BITS: nat := Scale(Pow2(EXPONENT_WIDTH) - 1, EXPONENT_SHIFT)
  const SIGN_BIT: nat := Scale(1, 63)

  /**
   What ECMA-262 6th edition, sections 7.1.5 to 7.1.10, asks of a conversion to `width` bits: 0 for
   NaN and the infinities, otherwise the number in [0, 2^width) congruent to the integer part.
   */
  function Modular(d: Bits64, width: nat): nat {
    if IsFinite(d) then Integral(d) % Pow2(width) else 0
  }

  /** The representative of `n` modulo 2^width in [-2^(width-1), 2^(width-1)). */
  function SignedResidue(n: int, width: nat): int
    requires width > 0
  {
    (n + Pow2(width - 1)) % Pow2(width) - Pow2(width - 1)
  }

  /** The same conversion to a signed type of `width` bits. */
  function SignedModular(d: Bits64, width: nat): int
    requires width > 0
  {
    if IsFinite(d) then SignedResidue(Integral(d), width) else 0
  }

  /** A value of an unsigned type of `width` bits, read as the signed type of the same size. */
  function WrapToSigned(u: nat, width: nat): int
    requires width > 0 && u < Pow2(width)
  {
    var maxValue := Pow2(width - 1) - 1;
    var minValue := -maxValue - 1;
    if u <= maxValue then u else (u - Pow2(width - 1)) + minValue
  }

  /** Shifts of a 64-bit word; in C++ the amount must stay below the width. */
  function ShiftLeft64(bits: Bits64, amount: nat): nat
    requires amount < 64
  {
    Shl(bits, amount, 64)
  }

  function ShiftRight64(bits: Bits64, amount: nat): nat
    requires amount < 64
  {
    Shr(bits, amount)
  }

  method ToUnsignedInteger(d: Bits64, width: nat) returns (r: nat)
    requires 0 < width <= 64
    ensures r < Pow2(width)
    ensures r == Modular(d, width)
    ensures IsFinite(d) ==> exists k: int :: Integral(d) == k * Pow2(width) + r
    ensures BiasedExponent(d) == Pow2(EXPONENT_WIDTH) - 1 ==> r == 0
  {
    hide *;
    ModularCongruent(d, width);
    ExponentMask(d);
    SignMask(d);
    ZeroInRange(width);
    var exp: int := Shr(Bitwise(And, d, EXPONENT_BITS), EXPONENT_SHIFT) - EXPONENT_BIAS;
    if exp < 0 {
      SmallMagnitude(d, width);
      return 0;
    }
    var exponent: nat := exp;
    if exponent >= EXPONENT_SHIFT + width {
      LargeMagnitude(d, exponent, width);
      return 0;
    }
    var result: nat;
    if exponent > EXPONENT_SHIFT {
      result := Low(ShiftLeft64(d, exponent - EXPONENT_SHIFT), width);
    } else {
      Widths();
      result := Low(ShiftRight64(d, EXPONENT_SHIFT - exponent), width);
    }
    ghost var shifted := result;
    if exponent < width {
      var implicitOne := Low(Shl(1, exponent, width), width);
      ImplicitOne(exponent, width);
      result := Bitwise(And, result, implicitOne - 1);
      AndLowMask(shifted, exponent);
      result := Low(result + implicitOne, width);
    }
    ResultIsFloor(d, exponent, width, shifted, result);
    if Bitwise(And, d, SIGN_BIT) != 0 {
      r := Low(Not(result, width) + 1, width);
      Negated(d, width, result, r);
    } else {
      r := result;
      IntegralOfFields(d);
      ModularOfIntegral(d, width);
    }
  }

  method ToSignedInteger(d: Bits64, width: nat) returns (r: int)
    requires 0 < width <= 64
    ensures 0 <= r + Pow2(width - 1) < Pow2(width)
    ensures r == SignedModular(d, width)
    ensures IsFinite(d) ==> exists k: int :: Integral(d) == k * Pow2(width) + r
    ensures BiasedExponent(d) == Pow2(EXPONENT_WIDTH) - 1 ==> r == 0
  {
    var u := ToUnsignedInteger(d, width);
    r := WrapToSigned(u, width);
    WrapOfModular(d, width);
    SignedModularCongruent(d, width);
  }

  // ---- What the results mean ----

  /** The conversion differs from the integer part by a multiple of 2^width, and is 0 if there is none. */
  lemma ModularCongruent(d: Bits64, width: nat)
    ensures Modular(d, width) < Pow2(width)
    ensures IsFinite(d) ==> exists k: int :: Integral(d) == k * Pow2(width) + Modular(d, width)
    ensures BiasedExponent(d) == Pow2(EXPONENT_WIDTH) - 1 ==> Modular(d, width) == 0
  {
    hide Integral, BiasedExponent, Pow2;
    if IsFinite(d) {
      DivModSplit(Integral(d), Pow2(width));
    }
  }

  lemma SignedModularCongruent(d: Bits64, width: nat)
    requires 0 < width
    ensures IsFinite(d) ==> exists k: int :: Integral(d) == k * Pow2(width) + SignedModular(d, width)
    ensures BiasedExponent(d) == Pow2(EXPONENT_WIDTH) - 1 ==> SignedModular(d, width) == 0
  {
    hide Integral, BiasedExponent, Pow2, SignedResidue, SignedQuotient;
    if IsFinite(d) {
      SignedResidueSplits(Integral(d), width);
    }
  }

  lemma WrapOfModular(d: Bits64, width: nat)
    requires 0 < width
    ensures Modular(d, width) < Pow2(width)
    ensures WrapToSigned(Modular(d, width), width) == SignedModular(d, width)
  {
    hide Integral, IsFinite, SignedResidue, WrapToSigned;
    if IsFinite(d) {
      WrapIsResidue(Integral(d), width);
    } else {
      WrapIsResidue(0, width);
      RemainderOfZero(Pow2(width));
      SignedResidueOfZero(width);
    }
  }

  lemma SignedResidueOfZero(width: nat)
    requires 0 < width
    ensures SignedResidue(0, width) == 0
  {
    StrictPow2(width - 1, width);
    hide Pow2;
    DivModUnique(0, Pow2(width), Pow2(width - 1));
  }

  function SignedQuotient(n: int, width: nat): int
    requires width > 0
  {
    (n + Pow2(width - 1)) / Pow2(width)
  }

  lemma SignedResidueSplits(n: int, width: nat)
    requires width > 0
    ensures n == SignedQuotient(n, width) * Pow2(width) + SignedResidue(n, width)
  {
    var t := n + Pow2(width - 1);
    DivModSplit(t, Pow2(width));
    hide Pow2;
  }

  // ---- The masks ----

  lemma ExponentMask(d: Bits64)
    ensures Shr(Bitwise(And, d, EXPONENT_BITS), EXPONENT_SHIFT) == BiasedExponent(d)
  {
    hide Pow2, Low, Shr, Scale, Bitwise;
    AndScaled(d, Pow2(EXPONENT_WIDTH) - 1, EXPONENT_SHIFT);
    AndLowMask(Shr(d, EXPONENT_SHIFT), EXPONENT_WIDTH);
    FieldsEncode(d);
    ShrOfScale(BiasedExponent(d), EXPONENT_SHIFT);
  }

  lemma BitAndOne(bit: nat)
    requires bit < 2
    ensures Bitwise(And, bit, 1) == bit
  {
  }

  lemma SignMask(d: Bits64)
    ensures Bitwise(And, d, SIGN_BIT) != 0 <==> Negative(d)
  {
    hide Pow2, Shr, Scale, Bitwise;
    AndScaled(d, 1, 63);
    TopIsBit(d);
    BitAndOne(Shr(d, 63));
    ShrOfScale(Shr(d, 63), 63);
    ScaleOne(63);
  }

  lemma ImplicitOne(exponent: nat, width: nat)
    requires exponent < width
    ensures Low(Shl(1, exponent, width), width) == Pow2(exponent)
  {
    ShlIsMul(1, exponent, width);
    StrictPow2(exponent, width);
    DivModUnique(0, Pow2(width), Pow2(exponent));
    ShrIsDiv(Pow2(exponent), width);
  }

  // ---- The proof sketch of the source, carried out ----

  /** Exponents below zero: the magnitude is less than one. */
  lemma SmallMagnitude(d: Bits64, width: nat)
    requires BiasedExponent(d) < EXPONENT_BIAS
    ensures Modular(d, width) == 0
  {
    hide *;
    SmallIntegral(d);
    ModularOfIntegral(d, width);
    RemainderOfZero(Pow2(width));
  }

  lemma SmallIntegral(d: Bits64)
    requires BiasedExponent(d) < EXPONENT_BIAS
    ensures IsFinite(d) && Integral(d) == 0
  {
    hide *;
    ModerateExponent(d);
    SmallSignificand(d);
    ShrToZero(Significand(d), -Exponent(d), EXPONENT_SHIFT + 1);
    FloorOfNegativeExponent(Significand(d), Exponent(d));
    IntegralOfFields(d);
  }

  lemma SmallSignificand(d: Bits64)
    requires BiasedExponent(d) < EXPONENT_BIAS
    ensures Significand(d) < Pow2(EXPONENT_SHIFT + 1)
    ensures Exponent(d) < 0 && EXPONENT_SHIFT + 1 <= -Exponent(d)
  {
    hide Low, Shr;
    FieldsEncode(d);
  }

  lemma FloorOfNegativeExponent(m: nat, e: int)
    requires e < 0
    ensures FloorTimes2To(m, e) == Shr(m, -e)
  {
  }

  lemma RemainderOfZero(m: nat)
    requires m > 0
    ensures 0 % m == 0
  {
  }

  /** Exponents so large that no bit of the significand reaches the result, and infinities and NaN. */
  lemma LargeMagnitude(d: Bits64, exponent: nat, width: nat)
    requires BiasedExponent(d) == exponent + EXPONENT_BIAS
    requires exponent >= EXPONENT_SHIFT + width
    ensures Modular(d, width) == 0
  {
    hide Pow2, Low, Shr, Integral, Negative, Value;
    if IsFinite(d) {
      IntegralOfFields(d);
      var k := exponent - EXPONENT_SHIFT;
      var q := Scale(Significand(d), k - width);
      ScaleScale(Significand(d), k - width, width);
      ScaleIsMultiple(q, width);
    }
  }

  /** floor(abs(d)), given the unbiased exponent of a normal number. */
  ghost function Floor(d: Bits64, exponent: nat): nat {
    FloorTimes2To(Pow2(EXPONENT_SHIFT) + Fraction(d), exponent - EXPONENT_SHIFT)
  }

  /** The shift of all 64 bits by the unbiased exponent, before it is cut to the width of the result. */
  ghost function Shifted(d: Bits64, exponent: nat): nat {
    FloorTimes2To(d, exponent - EXPONENT_SHIFT)
  }

  lemma ScaleModulo(x: nat, k: nat, width: nat)
    ensures Scale(x, k) % Pow2(k + width) == Low(x, width) * Pow2(k)
  {
    hide Pow2, Low, Scale;
    ScaleIsMul(x, k);
    ShrIsDiv(x, width);
    ScaledDivMod(x, k, width);
  }

  lemma ShrModulo(x: nat, k: nat, width: nat)
    ensures Shr(x, k) % Pow2(width) == Shr(Low(x, k + width), k)
  {
    hide Pow2, Low, Shr;
    ShrIsDiv(Shr(x, k), width);
    ShrOfLow(x, k, width);
  }

  lemma LowOfSignificand(d: Bits64)
    ensures Low(Pow2(EXPONENT_SHIFT) + Fraction(d), EXPONENT_SHIFT) == Low(d, EXPONENT_SHIFT) == Fraction(d)
    ensures Fraction(d) < Pow2(EXPONENT_SHIFT)
  {
    hide Pow2, Low, Shr, Scale;
    ShrLowSplit(d, EXPONENT_SHIFT);
    ScaleOne(EXPONENT_SHIFT);
    JoinSplit(1, Fraction(d), EXPONENT_SHIFT, 1);
  }

  /** Below the implicit one, the shifted bits agree with floor(abs(d)): everything above is bogus. */
  lemma ShiftedAgrees(d: Bits64, exponent: nat)
    ensures Shifted(d, exponent) % Pow2(exponent) == Floor(d, exponent) % Pow2(exponent)
  {
    hide Pow2, Low, Shr, Scale;
    var m := Pow2(EXPONENT_SHIFT) + Fraction(d);
    LowOfSignificand(d);
    if exponent >= EXPONENT_SHIFT {
      ScaleModulo(d, exponent - EXPONENT_SHIFT, EXPONENT_SHIFT);
      ScaleModulo(m, exponent - EXPONENT_SHIFT, EXPONENT_SHIFT);
    } else {
      ShrModulo(d, EXPONENT_SHIFT - exponent, exponent);
      ShrModulo(m, EXPONENT_SHIFT - exponent, exponent);
    }
  }

  /** The implicit one is the leading bit of floor(abs(d)). */
  lemma FloorRange(d: Bits64, exponent: nat)
    ensures Pow2(exponent) <= Floor(d, exponent) < 2 * Pow2(exponent)
  {
    hide Pow2, Low, Shr, Scale;
    LowOfSignificand(d);
    if exponent >= EXPONENT_SHIFT {
      ScaleRange(Pow2(EXPONENT_SHIFT) + Fraction(d), exponent - EXPONENT_SHIFT, EXPONENT_SHIFT);
    } else {
      ShrRange(Pow2(EXPONENT_SHIFT) + Fraction(d), EXPONENT_SHIFT - exponent, exponent);
    }
  }

  lemma ShiftedSignificand(d: Bits64, exponent: nat, width: nat, shifted: nat)
    requires width <= 64 && exponent < EXPONENT_SHIFT + width
    requires shifted == if exponent > EXPONENT_SHIFT
      then Low(ShiftLeft64(d, exponent - EXPONENT_SHIFT), width)
      else Low(ShiftRight64(d, EXPONENT_SHIFT - exponent), width)
    ensures shifted == Shifted(d, exponent) % Pow2(width)
  {
    var x := Shifted(d, exponent);
    ShrIsDiv(x, width);
    if exponent > EXPONENT_SHIFT {
      ShrIsDiv(x, 64);
      ShrIsDiv(Low(x, 64), width);
      ModMod(x, width, 64);
    }
  }

  lemma FloorOfNormal(d: Bits64, exponent: nat)
    requires BiasedExponent(d) == exponent + EXPONENT_BIAS
    ensures Floor(d, exponent) == FloorTimes2To(Significand(d), Exponent(d))
  {
    hide FloorTimes2To, Fraction, Pow2;
  }

  /** Removing the bogus bits and adding the implicit one gives floor(abs(d)) modulo 2^width. */
  lemma ResultOfShifted(d: Bits64, exponent: nat, width: nat, shifted: nat, result: nat)
    requires BiasedExponent(d) == exponent + EXPONENT_BIAS
    requires shifted == Shifted(d, exponent) % Pow2(width)
    requires result == if exponent < width then Low(Low(shifted, exponent) + Pow2(exponent), width) else shifted
    ensures Floor(d, exponent) == FloorTimes2To(Significand(d), Exponent(d))
    ensures result == Floor(d, exponent) % Pow2(width)
  {
    hide Pow2, Low, Shr, Scale, FloorTimes2To;
    var x, n := Shifted(d, exponent), Floor(d, exponent);
    ShiftedAgrees(d, exponent);
    if exponent < width {
      FloorRange(d, exponent);
      ShrIsDiv(shifted, exponent);
      ModMod(x, exponent, width);
      DivModUnique(1, Pow2(exponent), n - Pow2(exponent));
      ShrIsDiv(n, width);
    } else {
      ModMod(x, width, exponent);
      ModMod(n, width, exponent);
    }
  }

  lemma ResultIsFloor(d: Bits64, exponent: nat, width: nat, shifted: nat, result: nat)
    requires width <= 64
    requires BiasedExponent(d) == exponent + EXPONENT_BIAS
    requires exponent < EXPONENT_SHIFT + width
    requires shifted == if exponent > EXPONENT_SHIFT
      then Low(ShiftLeft64(d, exponent - EXPONENT_SHIFT), width)
      else Low(ShiftRight64(d, EXPONENT_SHIFT - exponent), width)
    requires result == if exponent < width then Low(Low(shifted, exponent) + Pow2(exponent), width) else shifted
    ensures IsFinite(d) && result < Pow2(width)
    ensures result == FloorTimes2To(Significand(d), Exponent(d)) % Pow2(width)
  {
    hide *;
    ModerateExponent(d);
    ShiftedSignificand(d, exponent, width, shifted);
    ResultOfShifted(d, exponent, width, shifted, result);
    RemainderInRange(Floor(d, exponent), Pow2(width));
  }

  lemma ModerateExponent(d: Bits64)
    requires BiasedExponent(d) < EXPONENT_BIAS + EXPONENT_SHIFT + 64
    ensures IsFinite(d)
  {
    assert Pow2(11) == 2048;
  }

  lemma RemainderInRange(n: int, m: int)
    requires m > 0
    ensures 0 <= n % m < m
  {
  }

  lemma ModularOfIntegral(d: Bits64, width: nat)
    requires IsFinite(d)
    ensures Modular(d, width) == Integral(d) % Pow2(width) < Pow2(width)
  {
  }

  lemma ZeroInRange(width: nat)
    ensures 0 < Pow2(width)
  {
  }

  lemma Negated(d: Bits64, width: nat, result: nat, r: nat)
    requires Negative(d) && IsFinite(d) && result < Pow2(width)
    requires result == FloorTimes2To(Significand(d), Exponent(d)) % Pow2(width)
    requires r == Low(Not(result, width) + 1, width)
    ensures r == Modular(d, width) < Pow2(width)
  {
    hide Pow2, Low, Integral, FloorTimes2To;
    IntegralOfFields(d);
    ShrIsDiv(Not(result, width) + 1, width);
    InvertPlusOne(result, width);
    NegMod(FloorTimes2To(Significand(d), Exponent(d)), Pow2(width));
  }

  /** The wrapped value is the number in the signed range congruent to `n`. */
  lemma WrapIsResidue(n: int, width: nat)
    requires width > 0
    ensures WrapToSigned(n % Pow2(width), width) == SignedResidue(n, width)
  {
    WrapInRange(n % Pow2(width), width);
    ResidueOfRemainder(n, width);
  }

  lemma ResidueOfRemainder(n: int, width: nat)
    requires width > 0
    ensures SignedResidue(n % Pow2(width), width) == SignedResidue(n, width)
  {
    hide Pow2;
    AddMod(n, Pow2(width - 1), Pow2(width));
  }

  lemma WrapInRange(u: nat, width: nat)
    requires width > 0 && u < Pow2(width)
    ensures WrapToSigned(u, width) == SignedResidue(u, width)
  {
    HalfTurn(u, Pow2(width - 1));
  }

  lemma HalfTurn(u: nat, half: nat)
    requires u < 2 * half
    ensures (u + half) % (2 * half) == if u < half then u + half else u - half
  {
    DivModUnique(if u < half then 0 else 1, 2 * half, if u < half then u + half else u - half);
  }
}
