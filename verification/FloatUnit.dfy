/** The binary32 kernel of the library as it runs: a rounding mode and sticky
    exception flags shared by every operation, and methods that work on words. */
module FloatUnit {
  import opened Powers
  import opened Binary32
  import opened Rounding
  import opened RoundPack
  import opened Exceptions
  import opened Normalize
  import opened AddSub
  import opened Division

  const DEFAULT_NAN: Bits32 := 0x7FC0_0000

  /** The cast (uint16_t) exp. */
  function Low16(exp: int): int { exp % 0x1_0000 }

  lemma Low16Range(exp: int)
    requires -0x8000 <= exp < 0x8000
    ensures 0xFD <= Low16(exp) <==> exp < 0 || 0xFD <= exp
  {
  }

  predicate IsSigNaN(u: Bits32) {
    ExpOf(u) == 0xFF && u / 0x40_0000 % 2 == 0 && u % 0x40_0000 != 0
  }

  /** A signalling NaN is a NaN whose fraction leads with a zero; the default NaN does not signal. */
  lemma SignalsExactly(u: Bits32)
    ensures IsSigNaN(u) <==> IsNaN(u) && FracOf(u) < 0x40_0000
    ensures IsNaN(DEFAULT_NAN) && !IsSigNaN(DEFAULT_NAN) && !SignOf(DEFAULT_NAN)
  {
    var f := FracOf(u);
    assert u == u / 0x80_0000 * 0x80_0000 + f;
    assert u % 0x40_0000 == f % 0x40_0000 && u / 0x40_0000 % 2 == f / 0x40_0000;
  }

  lemma Classes(u: Bits32)
    ensures IsFinite(u) <==> ExpOf(u) != 0xFF
    ensures IsInf(u) <==> ExpOf(u) == 0xFF && FracOf(u) == 0
    ensures IsNaN(u) <==> ExpOf(u) == 0xFF && FracOf(u) != 0
    ensures 0 <= ExpOf(u) <= 0xFF && 0 <= FracOf(u) < 0x80_0000
    ensures MagOf(u) == ExpOf(u) * 0x80_0000 + FracOf(u)
  {
  }

  /** A difference of magnitudes has the sign of the bigger. */
  lemma SignedDifference(sign: bool, A: int, B: int)
    requires 0 <= A < INF && 0 <= B < INF
    ensures var x := Signed(sign, Mag(A)) - Signed(sign, Mag(B));
            && (A > B ==> x == Signed(sign, Mag(A) - Mag(B)) != 0.0)
            && (A < B ==> x == Signed(!sign, Mag(B) - Mag(A)) != 0.0)
            && (A == B ==> x == 0.0)
  {
    hide Mag;
    if A < B { MagMono(A, B); } else if B < A { MagMono(B, A); }
  }

  lemma SameSigns(a: Bits32, b: Bits32)
    requires IsFinite(a) && IsFinite(b) && SignOf(a) == SignOf(b)
    ensures Value(a) + Value(b) == Signed(SignOf(a), Mag(MagOf(a)) + Mag(MagOf(b)))
    ensures Value(a) - Value(b) == Signed(SignOf(a), Mag(MagOf(a))) - Signed(SignOf(a), Mag(MagOf(b)))
  {
    hide Mag;
  }

  lemma OppositeSigns(a: Bits32, b: Bits32)
    requires IsFinite(a) && IsFinite(b) && SignOf(a) != SignOf(b)
    ensures Value(a) - Value(b) == Signed(SignOf(a), Mag(MagOf(a)) + Mag(MagOf(b)))
    ensures Value(a) + Value(b) == Signed(SignOf(a), Mag(MagOf(a))) - Signed(SignOf(a), Mag(MagOf(b)))
  {
    hide Mag;
  }

  /** Sums with a NaN or an infinity: NaNs win, opposite infinities are invalid, and
      otherwise the infinite operand is the result. */
  function SpecialSum(a: Bits32, b: Bits32, sameSign: bool, signB: bool): (Bits32, Flags) {
    if IsNaN(a) || IsNaN(b) then (DEFAULT_NAN, if IsSigNaN(a) || IsSigNaN(b) then INVALID else NONE)
    else if IsInf(a) && IsInf(b) && !sameSign then (DEFAULT_NAN, INVALID)
    else if IsInf(a) then (a, NONE)
    else (Pack(signB, 0xFF, 0), NONE)
  }

  /** Quotients with a NaN, an infinity, or a zero divisor. */
  function SpecialQuotient(a: Bits32, b: Bits32): (Bits32, Flags) {
    var sign := SignOf(a) != SignOf(b);
    if IsNaN(a) || IsNaN(b) then (DEFAULT_NAN, if IsSigNaN(a) || IsSigNaN(b) then INVALID else NONE)
    else if IsInf(a) then
      if IsInf(b) then (DEFAULT_NAN, INVALID) else (Pack(sign, 0xFF, 0), NONE)
    else if IsInf(b) then (Pack(sign, 0, 0), NONE)
    else if MagOf(a) == 0 then (DEFAULT_NAN, INVALID)
    else (Pack(sign, 0xFF, 0), INFINITE)
  }

  lemma PackedSpecials(sign: bool)
    ensures var z := Pack(sign, 0xFF, 0); SignOf(z) == sign && MagOf(z) == INF
    ensures var z := Pack(sign, 0, 0); SignOf(z) == sign && MagOf(z) == 0
  {
  }

  /** What such a sum is and raises: invalid for a signalling NaN and for opposite
      infinities, nothing else. */
  lemma SpecialSumIs(a: Bits32, b: Bits32, sameSign: bool, signB: bool)
    requires !IsFinite(a) || !IsFinite(b)
    ensures var r := SpecialSum(a, b, sameSign, signB);
      && (r.1.invalid <==> IsSigNaN(a) || IsSigNaN(b) || (IsInf(a) && IsInf(b) && !sameSign))
      && !r.1.infinite && !r.1.overflow && !r.1.underflow && !r.1.inexact
      && (IsNaN(r.0) <==> IsNaN(a) || IsNaN(b) || r.1.invalid)
      && (!IsNaN(r.0) ==> IsInf(r.0) && SignOf(r.0) == if IsInf(a) then SignOf(a) else signB)
  {
    PackedSpecials(signB);
    SignalsExactly(a);
    SignalsExactly(b);
    hide Pack, SignOf, MagOf, FracOf, IsSigNaN;
  }

  /** Of such a quotient: invalid also for infinity by infinity and zero by zero, and
      division by zero for any other finite number by zero. */
  lemma SpecialQuotientIs(a: Bits32, b: Bits32)
    requires !IsFinite(a) || !IsFinite(b) || MagOf(b) == 0
    ensures var r := SpecialQuotient(a, b);
      && (r.1.invalid <==> IsSigNaN(a) || IsSigNaN(b) || (IsInf(a) && IsInf(b)) || (MagOf(a) == 0 && MagOf(b) == 0))
      && (r.1.infinite <==> IsFinite(a) && MagOf(a) != 0 && MagOf(b) == 0)
      && !r.1.overflow && !r.1.underflow && !r.1.inexact
      && (IsNaN(r.0) <==> IsNaN(a) || IsNaN(b) || r.1.invalid)
      && (!IsNaN(r.0) ==> SignOf(r.0) == (SignOf(a) != SignOf(b)) && MagOf(r.0) == if IsInf(b) then 0 else INF)
  {
    PackedSpecials(SignOf(a) != SignOf(b));
    SignalsExactly(a);
    SignalsExactly(b);
    hide Pack, SignOf, MagOf, FracOf, IsSigNaN;
  }

  lemma QuotientSign(a: Bits32, b: Bits32)
    requires IsFinite(a) && IsFinite(b) && MagOf(b) != 0
    ensures Value(b) != 0.0 && Mag(MagOf(b)) > 0.0
    ensures Value(a) / Value(b) == Signed(SignOf(a) != SignOf(b), Mag(MagOf(a)) / Mag(MagOf(b)))
    ensures MagOf(a) == 0 ==> Value(a) / Value(b) == 0.0
    ensures MagOf(a) != 0 ==> Value(a) / Value(b) != 0.0
  {
    hide Mag;
    MagZero(MagOf(b));
    MagZero(MagOf(a));
    var A, B := Mag(MagOf(a)), Mag(MagOf(b));
    var q := A / B;
    assert q * B == A;
    if q == 0.0 { assert A == 0.0; }
  }

  lemma ExactZero(mode: Mode, before: bool, sign: bool)
    ensures var z := Pack(sign, 0, 0);
            && 0 <= z < 0x1_0000_0000 && !IsNaN(z) && SignOf(z) == sign
            && Rounds(mode, 0.0, z) && FlagsOf(mode, before, 0.0, z) == NONE
  {
    hide Mag;
    MagZero(INF);
    RoundsExact(mode, sign, 0);
    NoOverflow(mode, before, sign, 0.0, 0);
  }

  class FloatState {
    var roundingMode: Mode
    var detectBeforeRounding: bool   // softfloat_detectTininess
    var exceptionFlags: Flags

    constructor ()
      ensures roundingMode == NearEven && !detectBeforeRounding && exceptionFlags == NONE
    {
      roundingMode, detectBeforeRounding, exceptionFlags := NearEven, false, NONE;
    }

    /** What an operation whose exact result is the number x has to deliver: the
        correct rounding, exactly its flags, and the given sign should x be zero. */
    ghost predicate Delivered(x: real, signOfZero: bool, z: Bits32, was: Flags)
      reads this
    {
      && !IsNaN(z) && Rounds(roundingMode, x, z)
      && exceptionFlags == was.Or(FlagsOf(roundingMode, detectBeforeRounding, x, z))
      && (x == 0.0 ==> SignOf(z) == signOfZero)
    }

    /** The result and the flags when an operand is a NaN or an infinity. */
    ghost predicate Special(a: Bits32, b: Bits32, sameSign: bool, signB: bool, z: Bits32, was: Flags)
      reads this
    {
      var r := SpecialSum(a, b, sameSign, signB);
      z == r.0 && exceptionFlags == was.Or(r.1)
    }

    method RaiseFlags(raised: Flags)
      modifies this`exceptionFlags
      ensures exceptionFlags == old(exceptionFlags).Or(raised)
    {
      exceptionFlags := exceptionFlags.Or(raised);
    }

    /** softfloat_roundPackToF32, step by step. */
    method RoundPackToF32(sign: bool, exp0: int, sig0: int) returns (z: Bits32)
      requires -0x8000 <= exp0 < 0x8000 && 0 <= sig0 < 0x8000_0000
      modifies this`exceptionFlags
      ensures var r := RoundPacked(roundingMode, detectBeforeRounding, sign, exp0, sig0);
              z == r.0 && exceptionFlags == old(exceptionFlags).Or(r.1)
    {
      RoundPackedInRange(roundingMode, detectBeforeRounding, sign, exp0, sig0);
      var exp, sig := exp0, sig0;
      var roundNearEven := roundingMode == NearEven;
      var roundIncrement := 0x40;
      if !roundNearEven && roundingMode != NearMaxMag {
        roundIncrement := if roundingMode == (if sign then Min else Max) then 0x7F else 0;
      }
      assert roundIncrement == Increment(roundingMode, sign);
      Low16Range(exp);
      hide Packed, Pack, RoundOff, Increment, ShiftRightJam32, Low16, Low7, Shr7, ClearBit0;
      var roundBits := Low7(sig);
      if 0xFD <= Low16(exp) {
        if exp < 0 {
          var isTiny := detectBeforeRounding || exp < -1 || sig + roundIncrement < 0x8000_0000;
          sig := ShiftRightJam32(sig, -exp);
          exp := 0;
          roundBits := Low7(sig);
          if isTiny && roundBits != 0 {
            exceptionFlags := exceptionFlags.Or(UNDERFLOW);
          }
        } else if 0xFD < exp || 0x8000_0000 <= sig + roundIncrement {
          exceptionFlags := exceptionFlags.Or(OVERFLOW.(inexact := true));
          z := Pack(sign, 0xFF, 0) - (if roundIncrement == 0 then 1 else 0);
          return;
        }
      }
      z := RoundAndPack(sign, exp, sig, roundIncrement, roundBits, roundNearEven);
    }

    /** Its last statements: round off, and pack. */
    method RoundAndPack(sign: bool, exp: int, sig0: int, roundIncrement: int, roundBits: int, roundNearEven: bool) returns (z: int)
      requires roundIncrement == Increment(roundingMode, sign) && roundBits == Low7(sig0) && roundNearEven == (roundingMode == NearEven)
      modifies this`exceptionFlags
      ensures z == Packed(roundingMode, sign, exp, sig0)
      ensures exceptionFlags == old(exceptionFlags).Or(if roundBits == 0 then NONE else INEXACT)
    {
      hide Packed, Pack, RoundOff, Increment, Low7, Shr7, ClearBit0;
      PackedSteps(roundingMode, sign, exp, sig0, roundIncrement);
      if roundBits != 0 {
        exceptionFlags := exceptionFlags.Or(INEXACT);
      }
      var sig := Shr7(sig0 + roundIncrement);
      if roundBits == 0x40 && roundNearEven {
        sig := ClearBit0(sig);
      }
      z := Pack(sign, if sig != 0 then exp else 0, sig);
    }

    /** softfloat_normRoundPackToF32. */
    method NormRoundPackToF32(sign: bool, exp0: int, sig: int) returns (z: Bits32)
      requires 0 <= sig < 0x8000_0000 && -0x8000 <= exp0 - (CountLeadingZeros32(sig) - 1) < 0x8000
      modifies this`exceptionFlags
      ensures var r := NormRoundPacked(roundingMode, detectBeforeRounding, sign, exp0, sig);
              z == r.0 && exceptionFlags == old(exceptionFlags).Or(r.1)
    {
      hide Pow2, CountLeadingZeros32, RoundPacked, Pack;
      ShiftFits(sig);
      NormRoundPackedInRange(roundingMode, detectBeforeRounding, sign, exp0, sig);
      var shiftCount := CountLeadingZeros32(sig) - 1;
      var exp := exp0 - shiftCount;
      Low16Range(exp);
      if 7 <= shiftCount && Low16(exp) < 0xFD {
        z := Pack(sign, if sig != 0 then exp else 0, sig * Pow2(shiftCount - 7));
      } else {
        z := RoundPackToF32(sign, exp, sig * Pow2(shiftCount));
      }
    }

    /** softfloat_propagateNaNF32UI: the default NaN, and invalid if either operand is
        a signaling NaN. */
    method PropagateNaN(uiA: Bits32, uiB: Bits32) returns (z: Bits32)
      modifies this`exceptionFlags
      ensures z == DEFAULT_NAN
      ensures exceptionFlags == old(exceptionFlags).Or(if IsSigNaN(uiA) || IsSigNaN(uiB) then INVALID else NONE)
    {
      if IsSigNaN(uiA) || IsSigNaN(uiB) {
        RaiseFlags(INVALID);
      }
      z := DEFAULT_NAN;
    }

    /** softfloat_addMagsF32: the sum of the magnitudes, with sign signZ. */
    method AddMags(uiA: Bits32, uiB: Bits32, signZ: bool) returns (z: Bits32)
      modifies this`exceptionFlags
      ensures if IsFinite(uiA) && IsFinite(uiB)
              then Delivered(Signed(signZ, Mag(MagOf(uiA)) + Mag(MagOf(uiB))), signZ, z, old(exceptionFlags))
              else Special(uiA, uiB, true, signZ, z, old(exceptionFlags))
    {
      hide Mag, Rounds, FlagsOf, ShiftRightJam32, Aligned, RoundPacked, IsNaN, IsInf, IsFinite, ExpOf, FracOf, IsSigNaN;
      var mode, before := roundingMode, detectBeforeRounding;
      Classes(uiA);
      Classes(uiB);
      var expA, sigA := ExpOf(uiA), FracOf(uiA);
      var expB, sigB := ExpOf(uiB), FracOf(uiB);
      var expDiff := expA - expB;
      sigA, sigB := sigA * 0x40, sigB * 0x40;
      var expZ, sigZ;
      if expDiff == 0 {
        if expA == 0xFF {
          if sigA != 0 || sigB != 0 {
            z := PropagateNaN(uiA, uiB);
          } else {
            z := uiA;
          }
          return;
        }
        if expA == 0 {
          AddSubnormals(mode, before, signZ, uiA, uiB);
          z := Pack(signZ, 0, (uiA + uiB) % 0x8000_0000);
          return;
        }
        AddNormals(mode, before, signZ, uiA, uiB);
        expZ, sigZ := expA, 0x4000_0000 + sigA + sigB;
      } else {
        if expDiff < 0 {
          if expB == 0xFF {
            if sigB != 0 {
              z := PropagateNaN(uiA, uiB);
            } else {
              z := Pack(signZ, 0xFF, 0);
            }
            return;
          }
          expZ := expB;
          sigA := sigA + (if expA != 0 then 0x2000_0000 else sigA);
          AlignedRange(uiA, 64);
          AlignedRange(uiB, 64);
          sigA := ShiftRightJam32(sigA, -expDiff);
          AddUnequal(mode, before, signZ, uiB, uiA, sigA);
        } else {
          if expA == 0xFF {
            if sigA != 0 {
              z := PropagateNaN(uiA, uiB);
            } else {
              z := uiA;
            }
            return;
          }
          expZ := expA;
          sigB := sigB + (if expB != 0 then 0x2000_0000 else sigB);
          AlignedRange(uiA, 64);
          AlignedRange(uiB, 64);
          sigB := ShiftRightJam32(sigB, expDiff);
          AddUnequal(mode, before, signZ, uiA, uiB, sigB);
        }
        sigZ := 0x2000_0000 + sigA + sigB;
        if sigZ < 0x4000_0000 {
          expZ, sigZ := expZ - 1, sigZ * 2;
        }
      }
      z := RoundPackToF32(signZ, expZ, sigZ);
    }

    /** softfloat_subMagsF32: the magnitude of A minus that of B, with sign signZ when
        A is the bigger and the opposite sign when B is. */
    method SubMags(uiA: Bits32, uiB: Bits32, signZ0: bool) returns (z: Bits32)
      modifies this`exceptionFlags
      ensures if IsFinite(uiA) && IsFinite(uiB)
              then Delivered(Signed(signZ0, Mag(MagOf(uiA))) - Signed(signZ0, Mag(MagOf(uiB))), roundingMode == Min,
                             z, old(exceptionFlags))
              else Special(uiA, uiB, false, !signZ0, z, old(exceptionFlags))
    {
      hide Mag, Rounds, FlagsOf, CountLeadingZeros32, ShiftRightJam32, Aligned, NormRoundPacked, Signed, Pack, SignOf, IsNaN, IsInf, IsFinite, ExpOf, FracOf, MagOf, IsSigNaN;
      var mode, before := roundingMode, detectBeforeRounding;
      Classes(uiA);
      Classes(uiB);
      ExactZero(mode, before, mode == Min);
      ghost var A, B := MagOf(uiA), MagOf(uiB);
      if IsFinite(uiA) && IsFinite(uiB) { SignedDifference(signZ0, A, B); }
      var signZ := signZ0;
      var expA, sigA := ExpOf(uiA), FracOf(uiA);
      var expB, sigB := ExpOf(uiB), FracOf(uiB);
      var expDiff := expA - expB;
      sigA, sigB := sigA * 0x80, sigB * 0x80;
      var expZ, sigZ;
      ghost var m := 0.0;
      if 0 < expDiff {
        if expA == 0xFF {
          if sigA != 0 {
            z := PropagateNaN(uiA, uiB);
          } else {
            z := uiA;
          }
          return;
        }
        sigB := sigB + (if expB != 0 then 0x4000_0000 else sigB);
        AlignedRange(uiA, 128);
        AlignedRange(uiB, 128);
        sigB := ShiftRightJam32(sigB, expDiff);
        SubUnequal(mode, before, signZ, uiA, uiB, sigB);
        m := Mag(A) - Mag(B);
        assert A > B;
        sigA := sigA + 0x4000_0000;
        expZ, sigZ := expA, sigA - sigB;
      } else if expDiff < 0 {
        if expB == 0xFF {
          if sigB != 0 {
            z := PropagateNaN(uiA, uiB);
          } else {
            z := Pack(!signZ, 0xFF, 0);
          }
          return;
        }
        sigA := sigA + (if expA != 0 then 0x4000_0000 else sigA);
        AlignedRange(uiA, 128);
        AlignedRange(uiB, 128);
        sigA := ShiftRightJam32(sigA, -expDiff);
        SubUnequal(mode, before, !signZ, uiB, uiA, sigA);
        m := Mag(B) - Mag(A);
        assert A < B;
        sigB := sigB + 0x4000_0000;
        signZ := !signZ;
        expZ, sigZ := expB, sigB - sigA;
      } else {
        if expA == 0xFF {
          if sigA != 0 || sigB != 0 {
            z := PropagateNaN(uiA, uiB);
          } else {
            RaiseFlags(INVALID);
            z := DEFAULT_NAN;
          }
          return;
        }
        if expA == 0 {
          expA, expB := 1, 1;
        }
        if sigB < sigA {
          SubEqual(mode, before, signZ, uiA, uiB);
          m := Mag(A) - Mag(B);
          assert A > B;
          expZ, sigZ := expA, sigA - sigB;
        } else if sigA < sigB {
          SubEqual(mode, before, !signZ, uiB, uiA);
          m := Mag(B) - Mag(A);
          assert A < B;
          signZ := !signZ;
          expZ, sigZ := expB, sigB - sigA;
        } else {
          z := Pack(roundingMode == Min, 0, 0);
          return;
        }
      }
      ghost var r := NormRoundPacked(mode, before, signZ, expZ - 1, sigZ);
      assert Delivers(mode, before, signZ, m, r.0, r.1);
      assert Signed(signZ0, Mag(A)) - Signed(signZ0, Mag(B)) == Signed(signZ, m) != 0.0;
      ShiftBound(sigZ);
      z := NormRoundPackToF32(signZ, expZ - 1, sigZ);
    }

    /** f32_add.  A zero sum of opposite signs is +0, or -0 in mode Min (section 6.3
        of IEEE 754-2008). */
    method F32Add(a: Bits32, b: Bits32) returns (z: Bits32)
      modifies this`exceptionFlags
      ensures var same := SignOf(a) == SignOf(b);
              if IsFinite(a) && IsFinite(b)
              then Delivered(Value(a) + Value(b), if same then SignOf(a) else roundingMode == Min, z, old(exceptionFlags))
              else Special(a, b, same, SignOf(b), z, old(exceptionFlags))
    {
      hide *;
      if SignOf(a) == SignOf(b) {
        if IsFinite(a) && IsFinite(b) { SameSigns(a, b); }
        z := AddMags(a, b, SignOf(a));
      } else {
        if IsFinite(a) && IsFinite(b) { OppositeSigns(a, b); }
        z := SubMags(a, b, SignOf(a));
      }
    }

    /** f32_sub: adding the negation of b. */
    method F32Sub(a: Bits32, b: Bits32) returns (z: Bits32)
      modifies this`exceptionFlags
      ensures var same := SignOf(a) != SignOf(b);
              if IsFinite(a) && IsFinite(b)
              then Delivered(Value(a) - Value(b), if same then SignOf(a) else roundingMode == Min, z, old(exceptionFlags))
              else Special(a, b, same, !SignOf(b), z, old(exceptionFlags))
    {
      hide *;
      if SignOf(a) == SignOf(b) {
        if IsFinite(a) && IsFinite(b) { SameSigns(a, b); }
        z := SubMags(a, b, SignOf(a));
      } else {
        if IsFinite(a) && IsFinite(b) { OppositeSigns(a, b); }
        z := AddMags(a, b, SignOf(a));
      }
    }

    /** f32_div on the 64-bit-by-32-bit division path. */
    method F32Div(a: Bits32, b: Bits32) returns (z: Bits32)
      modifies this`exceptionFlags
      ensures var sign := SignOf(a) != SignOf(b);
              if IsFinite(a) && IsFinite(b) && MagOf(b) != 0
              then Value(b) != 0.0 && Delivered(Value(a) / Value(b), sign, z, old(exceptionFlags))
              else var r := SpecialQuotient(a, b); z == r.0 && exceptionFlags == old(exceptionFlags).Or(r.1)
    {
      hide Mag, Value, Signed, Rounds, FlagsOf, RoundPacked, Pack, SignOf, IsNaN, IsInf, IsFinite, ExpOf, FracOf, MagOf,
           IsSigNaN, Pow2, CountLeadingZeros32;
      var mode, before := roundingMode, detectBeforeRounding;
      var signZ := SignOf(a) != SignOf(b);
      var expA, sigA := ExpOf(a), FracOf(a);
      var expB, sigB := ExpOf(b), FracOf(b);
      Classes(a);
      Classes(b);
      ExactZero(mode, before, signZ);
      if IsFinite(a) && IsFinite(b) && MagOf(b) != 0 { QuotientSign(a, b); }
      if expA == 0xFF {
        if sigA != 0 {
          z := PropagateNaN(a, b);
          return;
        }
        if expB == 0xFF {
          if sigB != 0 {
            z := PropagateNaN(a, b);
            return;
          }
          RaiseFlags(INVALID);
          z := DEFAULT_NAN;
          return;
        }
        z := Pack(signZ, 0xFF, 0);
        return;
      }
      if expB == 0xFF {
        if sigB != 0 {
          z := PropagateNaN(a, b);
          return;
        }
        z := Pack(signZ, 0, 0);
        return;
      }
      if expB == 0 {
        if sigB == 0 {
          if expA == 0 && sigA == 0 {
            RaiseFlags(INVALID);
            z := DEFAULT_NAN;
            return;
          }
          RaiseFlags(INFINITE);
          z := Pack(signZ, 0xFF, 0);
          return;
        }
        SubnormalShift(sigB);
        var shiftCount := CountLeadingZeros32(sigB) - 8;
        expB, sigB := 1 - shiftCount, sigB * Pow2(shiftCount);
      }
      if expA == 0 {
        if sigA == 0 {
          z := Pack(signZ, 0, 0);
          return;
        }
        SubnormalShift(sigA);
        var shiftCount := CountLeadingZeros32(sigA) - 8;
        expA, sigA := 1 - shiftCount, sigA * Pow2(shiftCount);
      }
      NormalizedMag(a);
      NormalizedMag(b);
      var expZ := expA - expB + 0x7E;
      sigA := if sigA < 0x80_0000 then sigA + 0x80_0000 else sigA;
      sigB := if sigB < 0x80_0000 then sigB + 0x80_0000 else sigB;
      assert expA == NormalizedExp(a) && sigA == NormalizedSig(a);
      assert expB == NormalizedExp(b) && sigB == NormalizedSig(b);
      var sig64A;
      if sigA < sigB {
        expZ := expZ - 1;
        sig64A := sigA * 0x8000_0000;
      } else {
        sig64A := sigA * 0x4000_0000;
      }
      var sigZ := sig64A / sigB;
      if sigZ % 0x40 == 0 && sigB * sigZ != sig64A {
        sigZ := sigZ + 1;
      }
      assert sigZ == StickyQuotient(sigA, sigB) && expZ == QuotientExp(expA, expB, sigA, sigB);
      hide StickyQuotient, QuotientExp, NormalizedExp, NormalizedSig;
      DivCorrect(mode, before, signZ, a, b);
      z := RoundPackToF32(signZ, expZ, sigZ);
    }
  }
}
