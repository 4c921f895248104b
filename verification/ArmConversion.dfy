/** The ARM routine computes the same 32-bit integer as the portable conversion, for every double. */
module ArmConversion {
  import opened Words
  import opened Doubles
  import opened Conversions
  import opened Arm

  /** The state in which the routine starts: the double in two registers, anything in the others. */
  predicate Entry(s: State, d: Bits64) {
    s.pc == 0 && s.hi == Shr(d, 32) && s.lo == Low(d, 32)
  }

  // ---- Words as signed numbers ----

  lemma WrapSmall(n: int)
    requires -0x800 < n < 0x800
    ensures 0 <= n ==> Wrap(n) == n && !SignBit(Wrap(n))
    ensures n < 0 ==> SignBit(Wrap(n))
  {
    hide Pow2, Shr;
    Immediates();
    StrictPow2(11, 31);
    assert Pow2(32) == 2 * Pow2(31) by { NextPow2(31); }
    if 0 <= n {
      DivModUnique(0, Pow2(32), n);
      ShrToZero(n, 31, 11);
    } else {
      DivModUnique(-1, Pow2(32), n + Pow2(32));
      ShrIsDiv(n + Pow2(32), 31);
      DivModUnique(1, Pow2(31), n + Pow2(31));
    }
  }

  lemma NextPow2(k: nat)
    ensures Pow2(k + 1) == 2 * Pow2(k)
  {
  }

  /** One instruction of a run. */
  lemma Next(s: State) returns (s': State)
    requires s.pc < END
    ensures s'.pc <= END && s' == Execute(Fetch(s.pc), s)
    ensures Run(s) == Run(s')
  {
    s' := Step(s);
  }

  // ---- Instructions 0 to 5: the exponent ----

  /** The upper half of the double with the implicit one written over the last exponent bit. */
  ghost function UpperHalf(d: Bits64): Word {
    hide Pow2, Bitwise, Shr;
    ShrBelow(d, 32, 32);
    Immediates();
    BitwiseBelow(Or, Shr(d, 32), Pow2(20), 32);
    Bitwise(Or, Shr(d, 32), Pow2(20))
  }

  lemma ExponentField(d: Bits64)
    ensures Bitwise(Bic, Shr(Shr(d, 32), 20), Pow2(11)) == BiasedExponent(d)
    ensures BiasedExponent(d) < 0x800
  {
    hide Pow2, Shr, Low, Bitwise;
    ShrShr(d, 32, 20);
    ShrBelow(d, 52, 12);
    NextPow2(11);
    BicTop(Shr(d, 52), 11);
    FieldsEncode(d);
    Widths();
  }

  lemma ExtractExponent(s: State, d: Bits64) returns (s': State)
    requires Entry(s, d)
    ensures if BiasedExponent(d) < EXPONENT_BIAS then s'.pc == 27
            else s'.pc == 6 && s'.t1 == BiasedExponent(d) - EXPONENT_BIAS
    ensures s'.lo == s.lo && s'.hi == UpperHalf(d)
    ensures Run(s) == Run(s')
  {
    hide Run, Pow2, Low, Shr, Bitwise, Wrap, SignBit, BiasedExponent, UpperHalf;
    var e: int := BiasedExponent(d);
    ExponentField(d);
    Immediates();
    var s1 := Next(s);
    assert s1.t1 == Shr(s.hi, 20);
    var s2 := Next(s1);
    assert s2.t1 == e;
    var s3 := Next(s2);
    assert s3.hi == UpperHalf(d) by { UpperHalfIs(d); }
    var s4 := Next(s3);
    var s5 := Next(s4);
    WrapOfWrap(e - 0xff, 0x300);
    WrapSmall(e - 0xff - 0x300);
    s' := Next(s5);
  }

  lemma UpperHalfIs(d: Bits64)
    ensures UpperHalf(d) == Bitwise(Or, Shr(d, 32), Pow2(20))
  {
    hide Pow2, Bitwise, Shr;
  }

  lemma WrapOfWrap(x: int, y: int)
    ensures Wrap(Wrap(x) - y) == Wrap(x - y)
    ensures Wrap(y - Wrap(x)) == Wrap(y - x)
  {
    hide Pow2;
    var m := Pow2(32);
    AddMod(x, -y, m);
    assert x == (x / m) * m + x % m;
    assert y - x % m == (x / m) * m + (y - x);
    DivModShift(x / m, m, y - x);
  }

  // ---- Instructions 6 to 22: the two shifts ----

  /** The shift amount pushed above 31 when it does not fit in eight bits, as instructions 8, 9 and 17, 18 do. */
  ghost function Clamped(t: nat): nat {
    Bitwise(Or, t, Shr(Bitwise(Bic, t, 0xff), 3))
  }

  lemma ClampedShort(t: nat)
    requires t < 0x100
    ensures Low(Clamped(t), 8) == t
  {
    hide Pow2, Low, Shr, Scale, Bitwise;
    Pow2Of5();
    BicLow(t, 8);
    ShrToZero(t, 8, 8);
    ScaleOne(8);
    ShrToZero(0, 3, 0);
    BitwiseZero(Or, t);
    LowSmall(t, 8);
  }

  lemma ClampedLong(t: nat)
    requires 0x100 <= t < 0x400
    ensures Low(Clamped(t), 8) >= 32
  {
    hide Pow2, Low, Shr, Scale, Bitwise;
    var z := Scale(Shr(t, 8), 5);
    Pow2Of5();
    BicLow(t, 8);
    ShrOfScaled(Shr(t, 8), 5, 3);
    UpperPart(t);
    BitwiseLow(Or, t, z, 8);
    LowSmall(z, 8);
    OrAtLeast(Low(t, 8), z);
  }

  lemma UpperPart(t: nat)
    requires 0x100 <= t < 0x400
    ensures 32 <= Scale(Shr(t, 8), 5) < 0x100
  {
    hide Pow2, Shr, Scale;
    Pow2Of5();
    ShrIsDiv(t, 8);
    ScaleIsMul(Shr(t, 8), 5);
  }

  lemma Pow2Of5()
    ensures Pow2(0) == 1 && Pow2(5) == 32 && Pow2(8) == 256
  {
  }

  /** A left shift by a clamped amount is the left shift by the amount itself. */
  lemma ClampedShift(w: Word, t: Word)
    requires t < 0x400
    ensures ShiftWord(LSL, w, Low(Clamped(t), 8)) == Low(Scale(w, t), 32)
  {
    hide Pow2, Low, Shr, Scale, Bitwise, Clamped;
    if t < 0x100 {
      ClampedShort(t);
    } else {
      ClampedLong(t);
    }
    if t >= 32 {
      LowOfScaleZero(w, t, 32);
    }
  }

  lemma ShiftRightWord(w: Word, t: nat)
    ensures ShiftWord(LSR, w, t) == Shr(w, t) == Low(Shr(w, t), 32)
  {
    hide Pow2, Low, Shr;
    ShrNotAbove(w, t);
    LowSmall(Shr(w, t), 32);
    if t >= 32 {
      ShrToZero(w, t, 32);
    }
  }

  lemma ShiftLower(s: State, exponent: nat) returns (s': State)
    requires s.pc == 6 && s.t1 == exponent <= 0x400
    ensures s'.pc == 14 && s'.t1 == s.t1 && s'.hi == s.hi
    ensures s'.lo == Low(FloorTimes2To(s.lo, exponent - 52), 32)
    ensures Run(s) == Run(s')
  {
    hide Run, Pow2, Low, Shr, Scale, Bitwise, Wrap, SignBit, ShiftWord;
    var s1 := Next(s);
    WrapSmall(exponent - 52);
    var s2 := Next(s1);
    if exponent < 52 {
      WrapSmall(52 - exponent);
      var s3 := Next(s2);
      LowOfAmount(52 - exponent);
      ShiftRightWord(s.lo, 52 - exponent);
      s' := Next(s3);
    } else {
      s' := ShiftLowerLeft(s2, exponent);
    }
  }

  lemma ShiftLowerLeft(s: State, exponent: nat) returns (s': State)
    requires s.pc == 8 && 52 <= exponent <= 0x400 && s.t3 == exponent - 52
    ensures s'.pc == 14 && s'.t1 == s.t1 && s'.hi == s.hi
    ensures s'.lo == Low(FloorTimes2To(s.lo, exponent - 52), 32)
    ensures Run(s) == Run(s')
  {
    hide Run, Pow2, Low, Shr, Scale, Bitwise, Wrap, SignBit, ShiftWord;
    var s1 := Next(s);
    ShiftRightWord(s1.t2, 3);
    var s2 := Next(s1);
    ClampedShift(s.lo, exponent - 52);
    var s3 := Next(s2);
    s' := Next(s3);
  }

  lemma LowOfAmount(t: nat)
    requires t < 0x100
    ensures Low(t, 8) == t
  {
    Pow2Of5();
    hide Low, Pow2;
    LowSmall(t, 8);
  }

  /** The upper part of the significand, moved to the top of the word. */
  ghost function UpperSignificand(hi: Word): Word {
    hide Pow2, Low, Scale;
    Truncate(Scale(hi, 11))
  }

  lemma ShiftUpper(s: State, exponent: nat) returns (s': State)
    requires s.pc == 14 && s.t1 == exponent <= 0x400
    ensures s'.pc == 23 && s'.lo == s.lo && s'.hi == s.hi
    ensures s'.t2 == Low(FloorTimes2To(UpperSignificand(s.hi), exponent - 31), 32)
    ensures Run(s) == Run(s')
  {
    hide Run, Pow2, Low, Shr, Scale, Bitwise, Wrap, SignBit;
    var s1 := Next(s);
    var s2 := Next(s1);
    assert s2.t1 == UpperSignificand(s.hi);
    hide ShiftWord, UpperSignificand;
    WrapSmall(exponent - 31);
    var s3 := Next(s2);
    if exponent < 31 {
      s' := ShiftUpperRight(s3, exponent);
    } else {
      s' := ShiftUpperLeft(s3, exponent);
    }
  }

  lemma ShiftUpperRight(s: State, exponent: nat) returns (s': State)
    requires s.pc == 21 && exponent < 31 && s.t3 == Wrap(exponent - 31)
    ensures s'.pc == 23 && s'.lo == s.lo && s'.hi == s.hi
    ensures s'.t2 == Low(FloorTimes2To(s.t1, exponent - 31), 32)
    ensures Run(s) == Run(s')
  {
    hide Run, Pow2, Low, Shr, Scale, Bitwise, Wrap, SignBit, ShiftWord;
    WrapOfWrap(exponent - 31, 0);
    WrapSmall(31 - exponent);
    var s1 := Next(s);
    LowOfAmount(31 - exponent);
    ShiftRightWord(s.t1, 31 - exponent);
    s' := Next(s1);
  }

  lemma ShiftUpperLeft(s: State, exponent: nat) returns (s': State)
    requires s.pc == 17 && 31 <= exponent <= 0x400 && s.t3 == exponent - 31
    ensures s'.pc == 23 && s'.lo == s.lo && s'.hi == s.hi
    ensures s'.t2 == Low(FloorTimes2To(s.t1, exponent - 31), 32)
    ensures Run(s) == Run(s')
  {
    hide Run, Pow2, Low, Shr, Scale, Bitwise, Wrap, SignBit, ShiftWord;
    var s1 := Next(s);
    ShiftRightWord(s1.t2, 3);
    var s2 := Next(s1);
    ClampedShift(s.t1, exponent - 31);
    var s3 := Next(s2);
    s' := Next(s3);
  }

  // ---- Instructions 23 to 27: joining, negating, delivering ----

  lemma SignShift(w: Word)
    ensures ShiftWord(ASR, w, 31) == if SignBit(w) then Pow2(32) - 1 else 0
    ensures ShiftWord(LSR, w, 31) == if SignBit(w) then 1 else 0
  {
    hide Pow2, Shr;
    NextPow2(31);
    ShrBelow(w, 31, 1);
    PowersOfOne();
    ShrIsDiv(w, 31);
    if SignBit(w) {
      ShrToZero(Invert(w), 31, 31);
    }
  }

  lemma Deliver(s: State)
    requires s.pc == 23
    ensures var joined: Word := Compute(ORR, s.lo, s.t2);
      Run(s).result == if SignBit(s.hi) then Low(Not(joined, 32) + 1, 32) else joined
  {
    hide Run, Pow2, Low, Shr, Scale, Bitwise, SignBit, ShiftWord;
    var joined := Compute(ORR, s.lo, s.t2);
    SignShift(s.hi);
    XorOnes(joined, 32);
    BitwiseZero(Xor, joined);
    var s1 := Next(s);
    var s2 := Next(s1);
    AddSign(s2, joined);
  }

  lemma AddSign(s: State, joined: Word)
    requires s.pc == 25 && s.lo == if SignBit(s.hi) then Not(joined, 32) else joined
    ensures Run(s).result == if SignBit(s.hi) then Low(Not(joined, 32) + 1, 32) else joined
  {
    hide Run, Pow2, Low, Shr, Scale, Bitwise, SignBit, ShiftWord, Not;
    SignShift(s.hi);
    var s1 := Next(s);
    ShrIsDiv(s.lo + 1, 32);
    DivModUnique(0, Pow2(32), joined);
    var s2 := Next(s1);
    RunAtEnd(s2);
  }

  lemma RunAtEnd(s: State)
    requires s.pc == END
    ensures Run(s) == s
  {
  }

  lemma DeliverZero(s: State)
    requires s.pc == 27
    ensures Run(s).result == 0
  {
    hide Run, Pow2;
    var s1 := Next(s);
    RunAtEnd(s1);
  }

  // ---- The two halves together ----

  /** The parts of the significand that the upper register holds. */
  lemma UpperHalfParts(d: Bits64)
    ensures UpperSignificand(UpperHalf(d)) == Scale(Low(UpperHalf(d), 21), 11)
    ensures Pow2(EXPONENT_SHIFT) + Fraction(d) == Scale(Low(UpperHalf(d), 21), 32) + Low(d, 32)
    ensures SignBit(UpperHalf(d)) == Negative(d)
  {
    var hi := UpperHalf(d);
    UpperHalfIs(d);
    hide Pow2, Low, Shr, Scale, Bitwise, UpperHalf;
    LowOfScale(hi, 11, 21);
    OrBit(Shr(d, 32), 20);
    LowSplit(d, 32, 20);
    ScaleSum(Low(Shr(d, 32), 20), Pow2(20), 32);
    ScalePow2(20, 32);
    ShrShr(hi, 21, 10);
    ShrShr(Shr(d, 32), 21, 10);
    ShrShr(d, 32, 31);
  }

  /** What the routine leaves after joining its two shifted halves. */
  ghost function JoinedHalves(high: nat, low: nat, exponent: nat): nat {
    Bitwise(Or, Low(FloorTimes2To(low, exponent - 52), 32), Low(FloorTimes2To(Scale(high, 11), exponent - 31), 32))
  }

  lemma JoinLarge(high: nat, low: nat, exponent: nat)
    requires exponent >= 52
    ensures JoinedHalves(high, low, exponent) == Low(FloorTimes2To(Scale(high, 32) + low, exponent - 52), 32)
  {
    hide Pow2, Low, Shr, Scale, Bitwise;
    ScaleSum(Scale(high, 32), low, exponent - 52);
    ScaleScale(high, 32, exponent - 52);
    LowOfHigherSum(high, exponent - 20, Scale(low, exponent - 52), 32);
    ScaleScale(high, 11, exponent - 31);
    LowOfScaleZero(high, exponent - 20, 32);
    BitwiseZero(Or, Low(Scale(low, exponent - 52), 32));
  }

  lemma JoinMiddle(high: nat, low: nat, exponent: nat)
    requires low < Pow2(32) && 20 <= exponent < 52
    ensures JoinedHalves(high, low, exponent) == Low(FloorTimes2To(Scale(high, 32) + low, exponent - 52), 32)
  {
    hide Pow2, Low, Shr, Scale, Bitwise;
    var up, down := exponent - 20, 52 - exponent;
    var rest := Shr(low, down);
    ShrOfJoin(high, low, up, down);
    ShrBelow(low, down, up);
    LowOfJoin(high, rest, up, down);
    LowOfScale(high, up, down);
    Pow2Mono(up, 32);
    LowSmall(rest, 32);
    OrDisjoint(Low(high, down), rest, up);
    if exponent >= 31 {
      ScaleScale(high, 11, exponent - 31);
    } else {
      ShrOfScaled(high, up, 31 - exponent);
    }
  }

  lemma JoinSmall(high: nat, low: nat, exponent: nat)
    requires low < Pow2(32) && exponent < 20
    ensures JoinedHalves(high, low, exponent) == Low(FloorTimes2To(Scale(high, 32) + low, exponent - 52), 32)
  {
    hide Pow2, Low, Shr, Scale, Bitwise;
    JoinSplit(high, low, 32, 0);
    ShrShr(Scale(high, 32) + low, 32, 20 - exponent);
    ShrOfScale(high, 11);
    ShrShr(Scale(high, 11), 11, 20 - exponent);
    ShrToZero(low, 52 - exponent, 32);
    Pow2Of5();
    Pow2Mono(0, 32);
    LowSmall(0, 32);
    BitwiseZero(Or, Low(Shr(high, 20 - exponent), 32));
  }

  lemma JoinedIsFloor(d: Bits64, exponent: nat)
    ensures JoinedHalves(Low(UpperHalf(d), 21), Low(d, 32), exponent) == Floor(d, exponent) % Pow2(32)
  {
    hide Pow2, Low, Shr, Scale, Bitwise, UpperHalf, FloorTimes2To, JoinedHalves, Fraction;
    UpperHalfParts(d);
    ShrLowSplit(d, 32);
    ShrIsDiv(Floor(d, exponent), 32);
    var high, low := Low(UpperHalf(d), 21), Low(d, 32);
    if exponent >= 52 {
      JoinLarge(high, low, exponent);
    } else if exponent >= 20 {
      JoinMiddle(high, low, exponent);
    } else {
      JoinSmall(high, low, exponent);
    }
  }

  lemma FloorOfHuge(d: Bits64, exponent: nat)
    requires exponent >= 84
    ensures Floor(d, exponent) % Pow2(32) == 0
  {
    hide Pow2, Scale, Low;
    var m, k := Pow2(EXPONENT_SHIFT) + Fraction(d), exponent - EXPONENT_SHIFT;
    LowOfScaleZero(m, k, 32);
    ShrIsDiv(Scale(m, k), 32);
  }

  /** Delivering floor(abs(d)) modulo 2^32 with the sign applied is the conversion. */
  lemma Delivered(d: Bits64, exponent: nat, joined: Word, r: nat)
    requires BiasedExponent(d) == exponent + EXPONENT_BIAS
    requires joined == Floor(d, exponent) % Pow2(32)
    requires r == if Negative(d) then Low(Not(joined, 32) + 1, 32) else joined
    ensures r == Modular(d, 32)
  {
    Widths();
    hide Pow2, Low, Floor, FloorTimes2To, Integral, Negative, BiasedExponent;
    if IsFinite(d) {
      FloorOfNormal(d, exponent);
      IntegralOfFields(d);
      if Negative(d) {
        Negated(d, 32, joined, r);
      }
    } else {
      FloorOfHuge(d, exponent);
      ShrIsDiv(Not(joined, 32) + 1, 32);
      InvertPlusOne(joined, 32);
      DivModUnique(0, Pow2(32), 0);
    }
  }

  /** For every double and every content of the other registers, the routine ends with the conversion to 32 bits. */
  lemma RunIsModular(s: State, d: Bits64)
    requires Entry(s, d)
    ensures Run(s).result == Modular(d, 32)
  {
    hide Run, Pow2, Low, Shr, Scale, Bitwise, BiasedExponent, UpperHalf, UpperSignificand, FloorTimes2To,
      Modular, Floor, SignBit, Negative;
    var s1 := ExtractExponent(s, d);
    if BiasedExponent(d) < EXPONENT_BIAS {
      SmallMagnitude(d, 32);
      DeliverZero(s1);
    } else {
      var exponent := BiasedExponent(d) - EXPONENT_BIAS;
      ExponentField(d);
      var s2 := ShiftLower(s1, exponent);
      var s3 := ShiftUpper(s2, exponent);
      Deliver(s3);
      UpperHalfParts(d);
      JoinedIsFloor(d, exponent);
      Delivered(d, exponent, Compute(ORR, s3.lo, s3.t2), Run(s3).result);
    }
  }

  /** The double is passed in two registers, its upper and its lower word. */
  function Enter(scratch: State, d: Bits64): (s: State)
    ensures Entry(s, d)
  {
    hide Pow2, Low, Shr;
    ShrBelow(d, 32, 32);
    ShrLowSplit(d, 32);
    scratch.(pc := 0, hi := Shr(d, 32), lo := Low(d, 32))
  }

  /** The routine as a program: `scratch` supplies whatever the registers held before. */
  method ToSignedInteger32(d: Bits64, scratch: State) returns (i: int)
    ensures i == SignedModular(d, 32)
    ensures IsFinite(d) ==> exists k: int :: Integral(d) == k * 0x1_0000_0000 + i
    ensures BiasedExponent(d) == Pow2(EXPONENT_WIDTH) - 1 ==> i == 0
    ensures -0x8000_0000 <= i < 0x8000_0000
  {
    Int32Result(d);
    WrapOfModular(d, 32);
    hide *;
    var s := Enter(scratch, d);
    RunIsModular(s, d);
    var e := RunToEnd(s);
    i := WrapToSigned(e.result, 32);
  }

  /** Executes the routine instruction by instruction. */
  method RunToEnd(s: State) returns (e: State)
    requires s.pc <= END
    ensures e == Run(s)
  {
    e := s;
    while e.pc < END
      invariant e.pc <= END && Run(e) == Run(s)
    {
      RunStep(e);
      e := Step(e);
    }
    RunAtEnd(e);
  }

  /** The conversion in numbers: within the range of int32, and off by a multiple of 2^32. */
  lemma Int32Result(d: Bits64)
    ensures var i := SignedModular(d, 32);
      && -0x8000_0000 <= i < 0x8000_0000
      && (IsFinite(d) ==> exists k: int :: Integral(d) == k * 0x1_0000_0000 + i)
      && (BiasedExponent(d) == Pow2(EXPONENT_WIDTH) - 1 ==> i == 0)
  {
    Pow2Of31();
    assert Pow2(32) == 0x1_0000_0000;
    SignedModularCongruent(d, 32);
    WrapOfModular(d, 32);
    hide Pow2, Integral, IsFinite, SignedModular, Modular, BiasedExponent;
  }

  lemma RunStep(s: State)
    requires s.pc < END
    ensures Run(s) == Run(Step(s))
  {
  }

  /** The assembly routine and the portable template agree on every double. */
  method CompareConversions(d: Bits64, scratch: State) returns (portable: int, arm: int)
    ensures portable == arm
  {
    portable := ToSignedInteger(d, 32);
    arm := ToSignedInteger32(d, scratch);
  }
}
