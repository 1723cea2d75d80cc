/** When the overflow, inexact and underflow flags belong to a rounding
    (IEEE 754-2008 sections 7.4, 7.5 and 7.6), and how the rounding kernel's tests
    on the exponent and significand decide exactly that. */
module Exceptions {
  import opened Powers
  import opened Binary32
  import opened Rounding
  import opened RoundPack

  const MIN_NORMAL: int := 0x80_0000   // encoding of 2^-126
  const TWO_MIN: int := 0x100_0000     // encoding of 2^-125

  /** x is tiny: below 2^-126 before rounding, or also after rounding to 24 bits as
      if the exponent had no lower end.  Rounding 2x in the format is that rounding,
      doubled: 2x is normal or the answer is clear. */
  ghost predicate Tiny(mode: Mode, beforeRounding: bool, x: real) {
    && Abs(x) < Mag(MIN_NORMAL)
    && (beforeRounding || exists t: Bits32 :: Rounds(mode, 2.0 * x, t) && MagOf(t) < TWO_MIN)
  }

  ghost predicate Overflows(x: real, z: Bits32) {
    Abs(x) >= Mag(INF) || IsInf(z)
  }

  /** The flags that rounding x to z raises. */
  ghost function FlagsOf(mode: Mode, beforeRounding: bool, x: real, z: Bits32): Flags
    requires !IsNaN(z)
  {
    var inexact := Overflows(x, z) || Value(z) != x;
    NONE.(overflow := Overflows(x, z), inexact := inexact,
          underflow := inexact && Tiny(mode, beforeRounding, x))
  }

  lemma SignedAbs(sign: bool, m: real, w: int)
    requires m >= 0.0 && 0 <= w <= INF
    ensures Abs(Signed(sign, m)) == m && 2.0 * Signed(sign, m) == Signed(sign, 2.0 * m)
    ensures Value(WithSign(sign, w)) == Signed(sign, m) <==> Mag(w) == m
  {
    hide Mag;
    ValueIsSignedMag(WithSign(sign, w));
  }

  /** Rounding never passes a representable number. */
  lemma RoundsAtMost(mode: Mode, x: real, t: Bits32, v: int)
    requires Rounds(mode, x, t) && 0 < v <= INF && Abs(x) < Mag(v)
    ensures MagOf(t) <= v
  {
    hide *;
    SignOfRounding(mode, x, t);
    AbsPositive(x);
    var m := Abs(x);
    var u := Bracket(m, v);
    PicksOf(mode, m, u, t);
    PicksRange(mode, SignOf(t), m, u, MagOf(t));
  }

  lemma AbsPositive(x: real)
    ensures Abs(x) >= 0.0
  {
  }

  lemma PicksRange(mode: Mode, sign: bool, m: real, u: int, w: int)
    requires 0 <= u < INF && Picks(mode, sign, m, u, w)
    ensures u <= w <= u + 1
  {
    hide Mag;
  }

  /** Magnitudes of X * 2^(exp-156) for 2^30 <= X < 2^31. */
  lemma MagnitudeRange(exp: int, X: real, p: real, m: real)
    requires 0x4000_0000 as real <= X < 0x8000_0000 as real
    requires p == Exp2(exp - 156) && m == X * p
    ensures exp >= 0 ==> m >= Mag(MIN_NORMAL)
    ensures exp < 0 ==> m < Mag(MIN_NORMAL)
    ensures exp < -1 ==> 2.0 * m < Mag(MIN_NORMAL)
    ensures exp > 0xFD ==> m >= Mag(INF)
  {
    hide Mag, Exp2, Pow2;
    Pow2Values();
    PackMag(0, MIN_NORMAL);
    Exp2Add(-156, 7);
    var d, n := 0x80_0000 as real, Exp2(-156);
    assert Mag(MIN_NORMAL) == 0x4000_0000 as real * n;
    if exp >= 0 {
      Exp2Mono(-156, exp - 156);
      assert (X - 0x4000_0000 as real) * p >= 0.0;
    } else {
      Exp2Mono(exp - 156, -157);
      Exp2Step(-157);
      ProductSign(0x8000_0000 as real - X, p, 0x8000_0000 as real * p - m);
      if exp < -1 {
        Exp2Mono(exp - 156, -158);
        Exp2Step(-158);
      }
    }
    if exp > 0xFD {
      PackMag(0xFD, 0x100_0000);
      Exp2Mono(0xFE - 156, exp - 156);
      Exp2Add(0xFE - 156, 6);
      assert 0xFD * 0x80_0000 + 0x100_0000 == INF;
      assert (X - 0x4000_0000 as real) * p >= 0.0;
    }
  }

  lemma RoundOffBound(mode: Mode, sign: bool, sig: int)
    requires 0 <= sig < 0x8000_0000
    ensures 0 <= RoundOff(mode, sign, sig) <= 0x100_0000
    ensures RoundOff(mode, sign, sig) == 0x100_0000 <==> sig + Increment(mode, sign) >= 0x8000_0000
    ensures sig + Increment(mode, sign) >= 0x8000_0000 ==> Increment(mode, sign) > 0 && sig % 128 != 0
  {
  }

  lemma TinyUnique(mode: Mode, x: real, t: Bits32)
    requires Rounds(mode, 2.0 * x, t) && Abs(x) < Mag(MIN_NORMAL)
    ensures Tiny(mode, false, x) <==> MagOf(t) < TWO_MIN
  {
    hide Mag, Rounds;
    if t': Bits32 :| Rounds(mode, 2.0 * x, t') && MagOf(t') < TWO_MIN {
      RoundsUnique(mode, 2.0 * x, t, t');
    }
  }

  /** One binade below the normal range, twice x is rounded like a normal number. */
  lemma TinyAtEdge(mode: Mode, sign: bool, sig: int, X: real, m: real)
    requires 0x4000_0000 <= sig < 0x8000_0000 && Stands(sig, X) && m == X * Exp2(-1 - 156)
    requires 0.0 <= m < Mag(MIN_NORMAL)
    ensures Tiny(mode, false, Signed(sign, m)) <==> sig + Increment(mode, sign) < 0x8000_0000
  {
    hide Mag, Exp2, Rounds, Tiny, RoundOff, Increment, Stands;
    Exp2Step(-157);
    RoundSig(mode, sign, 0, sig, X, 2.0 * m);
    RoundOffBound(mode, sign, sig);
    SignedAbs(sign, m, 0);
    TinyUnique(mode, Signed(sign, m), WithSign(sign, RoundOff(mode, sign, sig)));
  }

  /** The kernel's isTiny is tininess, for every exponent below the normal range. */
  lemma IsTiny(mode: Mode, beforeRounding: bool, sign: bool, exp: int, sig: int, X: real, m: real)
    requires 0x4000_0000 <= sig < 0x8000_0000 && Stands(sig, X)
    requires exp < 0 && m == X * Exp2(exp - 156)
    ensures Tiny(mode, beforeRounding, Signed(sign, m)) <==>
            (beforeRounding || exp < -1 || sig + Increment(mode, sign) < 0x8000_0000)
  {
    hide Mag, Exp2, Rounds, Increment;
    StandsThreshold(sig, X, 0x100_0000);
    StandsThreshold(sig, X, 0x200_0000);
    MagnitudeRange(exp, X, Exp2(exp - 156), m);
    MulPositive(X, Exp2(exp - 156), m);
    var x := Signed(sign, m);
    SignedAbs(sign, m, 0);
    if !beforeRounding {
      if exp < -1 {
        SignedAbs(sign, 2.0 * m, 0);
        RoundsExists(mode, 2.0 * x);
        var t: Bits32 :| Rounds(mode, 2.0 * x, t);
        RoundsAtMost(mode, 2.0 * x, t, MIN_NORMAL);
      } else {
        TinyAtEdge(mode, sign, sig, X, m);
      }
    }
  }

  lemma MulPositive(a: real, b: real, c: real)
    requires a > 0.0 && b > 0.0 && c == a * b
    ensures c > 0.0
  {
  }

  lemma SubnormalScale(exp: int, X: real, Y: real, P: real, m: real)
    requires exp < 0 && P == Pow2(-exp) as real && Y * P == X
    requires m == X * Exp2(exp - 156)
    ensures m == Y * Exp2(-156)
  {
    hide Exp2, Pow2;
    Exp2Add(exp - 156, -exp);
    var p := Exp2(exp - 156);
    assert Y * P * p == Y * (p * P);
  }

  lemma NoOverflow(mode: Mode, before: bool, sign: bool, m: real, w: int)
    requires 0 <= w < INF && 0.0 <= m < Mag(INF)
    ensures var x, z := Signed(sign, m), WithSign(sign, w);
            && FlagsOf(mode, before, x, z) ==
               if Mag(w) == m then NONE else INEXACT.(underflow := Tiny(mode, before, x))
  {
    hide Mag, Tiny;
    SignedAbs(sign, m, w);
  }

  /** Infinity, or one below it, exactly as the kernel packs it. */
  lemma OverflowPack(mode: Mode, before: bool, sign: bool, exp: int, sig: int, X: real, m: real, z: int)
    requires 0x4000_0000 <= sig < 0x8000_0000 && Stands(sig, X) && m == X * Exp2(exp - 156)
    requires exp > 0xFD || (exp == 0xFD && 0x8000_0000 <= sig + Increment(mode, sign))
    requires z == Pack(sign, 0xFF, 0) - (if Increment(mode, sign) == 0 then 1 else 0)
    ensures Delivers(mode, before, sign, m, z, OVERFLOW.(inexact := true))
  {
    hide Mag, Exp2, Stands, Rounds, RoundOff, Tiny;
    StandsThreshold(sig, X, 0x100_0000);
    StandsThreshold(sig, X, 0x200_0000);
    MagnitudeRange(exp, X, Exp2(exp - 156), m);
    MulPositive(X, Exp2(exp - 156), m);
    SignedAbs(sign, m, 0);
    if exp > 0xFD {
      RoundsOverflow(mode, sign, m);
    } else {
      RoundSig(mode, sign, exp, sig, X, m);
      RoundOffBound(mode, sign, sig);
    }
    NotTiny(mode, before, Signed(sign, m));
  }

  lemma NotTiny(mode: Mode, before: bool, x: real)
    requires Abs(x) >= Mag(MIN_NORMAL)
    ensures !Tiny(mode, before, x)
  {
  }

  /** The kernel's last steps: dropping seven bits and adding the fields. */
  function Packed(mode: Mode, sign: bool, exp: int, sig: int): int {
    var q := RoundOff(mode, sign, sig);
    Pack(sign, if q != 0 then exp else 0, q)
  }

  /** z is the rounding of m with the given sign, raising exactly these flags. */
  ghost predicate Delivers(mode: Mode, before: bool, sign: bool, m: real, z: int, raised: Flags) {
    && 0 <= z < 0x1_0000_0000 && !IsNaN(z) && SignOf(z) == sign && Rounds(mode, Signed(sign, m), z)
    && FlagsOf(mode, before, Signed(sign, m), z) == raised
  }

  lemma FinishPack(mode: Mode, before: bool, sign: bool, exp: int, sig: int, Y: real, m: real, tiny: bool)
    requires 0 <= exp <= 0xFD && 0 <= sig < 0x8000_0000 && (exp > 0 ==> sig >= 0x4000_0000)
    requires exp == 0xFD ==> sig + Increment(mode, sign) < 0x8000_0000
    requires Stands(sig, Y) && m == Y * Exp2(exp - 156)
    requires tiny == Tiny(mode, before, Signed(sign, m))
    ensures Delivers(mode, before, sign, m, Packed(mode, sign, exp, sig),
                     if sig % 128 == 0 then NONE else INEXACT.(underflow := tiny))
  {
    hide Mag, Exp2, Stands, Rounds, RoundOff, Tiny, FlagsOf, Increment;
    RoundSig(mode, sign, exp, sig, Y, m);
    RoundOffBound(mode, sign, sig);
    RoundOffLower(mode, sign, sig);
    NoOverflow(mode, before, sign, m, exp * 0x80_0000 + RoundOff(mode, sign, sig));
  }

  lemma RoundOffLower(mode: Mode, sign: bool, sig: int)
    ensures sig >= 0x4000_0000 ==> RoundOff(mode, sign, sig) >= 0x80_0000
  {
  }

  lemma NormalPack(mode: Mode, before: bool, sign: bool, exp: int, sig: int, X: real, m: real)
    requires 0 <= exp <= 0xFD && 0x4000_0000 <= sig < 0x8000_0000
    requires exp == 0xFD ==> sig + Increment(mode, sign) < 0x8000_0000
    requires Stands(sig, X) && m == X * Exp2(exp - 156)
    ensures Delivers(mode, before, sign, m, Packed(mode, sign, exp, sig), if sig % 128 == 0 then NONE else INEXACT)
  {
    hide Mag, Exp2, Stands, Tiny, Increment, Delivers;
    StandsThreshold(sig, X, 0x100_0000);
    StandsThreshold(sig, X, 0x200_0000);
    MagnitudeRange(exp, X, Exp2(exp - 156), m);
    MulPositive(X, Exp2(exp - 156), m);
    SignedAbs(sign, m, 0);
    NotTiny(mode, before, Signed(sign, m));
    FinishPack(mode, before, sign, exp, sig, X, m, false);
  }

  lemma SubnormalPack(mode: Mode, before: bool, sign: bool, exp: int, sig: int, X: real, m: real, tiny: bool)
    requires exp < 0 && 0x4000_0000 <= sig < 0x8000_0000
    requires tiny == (before || exp < -1 || sig + Increment(mode, sign) < 0x8000_0000)
    requires Stands(sig, X) && m == X * Exp2(exp - 156)
    ensures var s := ShiftRightJam32(sig, -exp);
            Delivers(mode, before, sign, m, Packed(mode, sign, 0, s),
                     if s % 128 == 0 then NONE else INEXACT.(underflow := tiny))
  {
    hide Mag, Exp2, Pow2, Stands, Tiny, Increment, Delivers, ShiftRightJam32, Jams;
    var P := Pow2(-exp) as real;
    var Y := X / P;
    IsTiny(mode, before, sign, exp, sig, X, m);
    ShiftStands(sig, X, -exp, P, Y);
    JamShifts(sig, -exp);
    SubnormalScale(exp, X, Y, P, m);
    FinishPack(mode, before, sign, 0, ShiftRightJam32(sig, -exp), Y, m, tiny);
  }

  // ------------------------------------------------- the kernel as one function

  /** What softfloat_roundPackToF32 returns and raises: below the normal range jam and
      pack over field 0, above it saturate, in between round and pack. */
  function RoundPacked(mode: Mode, before: bool, sign: bool, exp: int, sig: Bits32): (int, Flags) {
    if exp < 0 then
      var s := ShiftRightJam32(sig, -exp);
      var tiny := before || exp < -1 || sig + Increment(mode, sign) < 0x8000_0000;
      (Packed(mode, sign, 0, s), if Low7(s) == 0 then NONE else INEXACT.(underflow := tiny))
    else if exp > 0xFD || (exp == 0xFD && 0x8000_0000 <= sig + Increment(mode, sign)) then
      (Pack(sign, 0xFF, 0) - (if Increment(mode, sign) == 0 then 1 else 0), OVERFLOW.(inexact := true))
    else
      (Packed(mode, sign, exp, sig), if Low7(sig) == 0 then NONE else INEXACT)
  }

  lemma PackedSteps(mode: Mode, sign: bool, exp: int, sig: int, increment: int)
    requires increment == Increment(mode, sign)
    ensures var q := Shr7(sig + increment);
            var g := if Low7(sig) == 0x40 && mode == NearEven then ClearBit0(q) else q;
            Packed(mode, sign, exp, sig) == Pack(sign, if g != 0 then exp else 0, g)
  {
  }

  /** Section 4.3 of IEEE 754-2008 for the kernel: a normalized significand that stands
      for X yields the correct rounding of X * 2^(exp-156) and exactly its flags. */
  lemma RoundPackedCorrect(mode: Mode, before: bool, sign: bool, exp: int, sig: int, X: real, m: real)
    requires 0x4000_0000 <= sig < 0x8000_0000 && Stands(sig, X) && m == X * Exp2(exp - 156)
    ensures var r := RoundPacked(mode, before, sign, exp, sig);
            Delivers(mode, before, sign, m, r.0, r.1)
  {
    hide Mag, Exp2, Stands, Rounds, FlagsOf, Packed, Pack, Increment, ShiftRightJam32, SignOf;
    if exp < 0 {
      var tiny := before || exp < -1 || sig + Increment(mode, sign) < 0x8000_0000;
      SubnormalPack(mode, before, sign, exp, sig, X, m, tiny);
    } else if exp > 0xFD || (exp == 0xFD && 0x8000_0000 <= sig + Increment(mode, sign)) {
      OverflowPack(mode, before, sign, exp, sig, X, m, Pack(sign, 0xFF, 0) - (if Increment(mode, sign) == 0 then 1 else 0));
    } else {
      NormalPack(mode, before, sign, exp, sig, X, m);
    }
  }

  lemma RoundPackedInRange(mode: Mode, before: bool, sign: bool, exp: int, sig: int)
    requires 0 <= sig < 0x8000_0000
    ensures 0 <= RoundPacked(mode, before, sign, exp, sig).0 < 0x1_0000_0000
  {
    hide ShiftRightJam32, RoundOff, Increment;
    if exp < 0 {
      JamShifts(sig, -exp);
      RoundOffBound(mode, sign, ShiftRightJam32(sig, -exp));
    } else {
      RoundOffBound(mode, sign, sig);
    }
  }
}
