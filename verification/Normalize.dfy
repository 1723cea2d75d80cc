/** Counting leading zeros, and softfloat_normRoundPackToF32: normalize, then pack
    directly when nothing can be lost, else round. */
module Normalize {
  import opened Powers
  import opened Binary32
  import opened Rounding
  import opened RoundPack
  import opened Exceptions

  /** The 256-entry table softfloat_countLeadingZeros8. */
  function CountLeadingZeros8(b: nat): nat
    requires b < 256
  {
    if b >= 128 then 0 else if b >= 64 then 1 else if b >= 32 then 2 else if b >= 16 then 3
    else if b >= 8 then 4 else if b >= 4 then 5 else if b >= 2 then 6 else if b >= 1 then 7 else 8
  }

  /** softfloat_countLeadingZeros32: two coarse shifts, then the table. */
  function CountLeadingZeros32(a: Bits32): nat {
    var c16 := if a < 0x1_0000 then 16 else 0;
    var a16 := if a < 0x1_0000 then a * 0x1_0000 else a;
    var c8 := if a16 < 0x100_0000 then 8 else 0;
    var a8 := if a16 < 0x100_0000 then a16 * 0x100 else a16;
    c16 + c8 + CountLeadingZeros8(a8 / 0x100_0000)
  }

  lemma TableScales(a: nat, b: nat)
    requires b == a / 0x100_0000 && 0 < b < 256
    ensures CountLeadingZeros8(b) <= 7
    ensures 0x8000_0000 <= a * Pow2(CountLeadingZeros8(b)) < 0x1_0000_0000
  {
    assert Pow2(0) == 1 && Pow2(1) == 2 && Pow2(2) == 4 && Pow2(3) == 8;
    assert Pow2(4) == 16 && Pow2(5) == 32;
    Pow2Values();
  }

  /** Shifting left by the count brings the leading one to bit 31. */
  lemma LeadingZeros(a: Bits32)
    requires a > 0
    ensures CountLeadingZeros32(a) <= 31
    ensures 0x8000_0000 <= a * Pow2(CountLeadingZeros32(a)) < 0x1_0000_0000
  {
    hide Pow2, CountLeadingZeros8;
    var c16 := if a < 0x1_0000 then 16 else 0;
    var a16 := if a < 0x1_0000 then a * 0x1_0000 else a;
    var c8 := if a16 < 0x100_0000 then 8 else 0;
    var a8 := if a16 < 0x100_0000 then a16 * 0x100 else a16;
    var c := CountLeadingZeros8(a8 / 0x100_0000);
    TableScales(a8, a8 / 0x100_0000);
    Pow2Coarse();
    Pow2Add(c16, c8);
    assert a8 == a * Pow2(c16 + c8);
    Pow2Add(c16 + c8, c);
    assert a * (Pow2(c16 + c8) * Pow2(c)) == a8 * Pow2(c);
  }

  lemma Pow2Coarse()
    ensures Pow2(0) == 1 && Pow2(8) == 0x100 && Pow2(16) == 0x1_0000 && Pow2(24) == 0x100_0000
  {
    Pow2Values();
    Pow2Add(8, 8);
    Pow2Add(16, 8);
  }

  /** What softfloat_normRoundPackToF32 returns and raises. */
  function NormRoundPacked(mode: Mode, before: bool, sign: bool, exp0: int, sig: Bits32): (int, Flags)
    requires 0 <= sig < 0x8000_0000
  {
    ShiftFits(sig);
    var shiftCount := CountLeadingZeros32(sig) - 1;
    var exp := exp0 - shiftCount;
    if 7 <= shiftCount && 0 <= exp < 0xFD then
      (Pack(sign, if sig != 0 then exp else 0, sig * Pow2(shiftCount - 7)), NONE)
    else
      RoundPacked(mode, before, sign, exp, sig * Pow2(shiftCount))
  }

  lemma LeadingOne(sig: Bits32)
    requires 0 < sig < 0x8000_0000
    ensures var s := CountLeadingZeros32(sig) - 1;
            && 0 <= s <= 30 && 0x4000_0000 <= sig * Pow2(s) < 0x8000_0000
            && (sig >= 0x2000_0000 ==> s <= 1)
  {
    hide *;
    var c := CountLeadingZeros32(sig);
    LeadingZeros(sig);
    Pow2Coarse();
    ShiftOneLess(sig, c);
  }

  lemma ShiftFits(sig: Bits32)
    requires 0 <= sig < 0x8000_0000
    ensures var s := CountLeadingZeros32(sig) - 1; 0 <= s <= 31 && 0 <= sig * Pow2(s) < 0x8000_0000
  {
    if sig > 0 {
      hide *;
      LeadingOne(sig);
    }
  }

  lemma ShiftBound(sig: Bits32)
    requires 0 <= sig < 0x8000_0000
    ensures 0 <= CountLeadingZeros32(sig) - 1 <= 31
  {
    hide CountLeadingZeros32;
    ShiftFits(sig);
  }

  lemma ShiftOneLess(a: nat, c: nat)
    requires 0 < a < 0x8000_0000 && 0x8000_0000 <= a * Pow2(c) < 0x1_0000_0000
    ensures c >= 1 && 0x4000_0000 <= a * Pow2(c - 1) < 0x8000_0000
    ensures a >= 0x2000_0000 ==> c <= 2
  {
    hide Pow2;
    if c == 0 {
      NoShift(a);
    } else {
      Doubled(a, c - 1);
      if c > 2 {
        Doubled(a, c - 2);
        Doubled(a, c - 3);
        MulMonotone(a, 1, Pow2(c - 3));
      }
    }
  }

  lemma NoShift(a: nat)
    ensures a * Pow2(0) == a
  {
  }

  lemma Doubled(a: nat, n: nat)
    ensures a * Pow2(n + 1) == 2 * (a * Pow2(n))
  {
    var p := Pow2(n);
    assert Pow2(n + 1) == 2 * p;
  }

  lemma NormalizeStands(sig: int, X: real, s: nat, P: real)
    requires 0 <= sig && Jams(sig, X) && P == Pow2(s) as real && (X == sig as real || s <= 1)
    ensures Stands(sig * Pow2(s), X * P)
  {
    hide Stands, Jams, Pow2;
    var v := sig * Pow2(s);
    if X == sig as real {
      RealMul(sig, Pow2(s));
      ExactStands(v);
      assert X * P == v as real;
    } else {
      SmallPowers();
      if s == 0 {
        assert v == sig && X * P == X;
        JamsStands(sig, X);
      } else {
        assert v == 2 * sig && X * P == 2.0 * X;
        JamsDoubleStands(sig, X);
      }
    }
  }

  lemma SmallPowers()
    ensures Pow2(0) == 1 && Pow2(1) == 2
  {
  }

  lemma ExactStands(v: int)
    ensures Stands(v, v as real)
  {
  }

  /** Packing a 24-bit significand in the normal range is exact. */
  lemma ExactPack(mode: Mode, before: bool, sign: bool, exp: int, g: int, m: real)
    requires 0 <= exp < 0xFD && 0x80_0000 <= g < 0x100_0000 && m == g as real * Exp2(exp - 149)
    ensures Delivers(mode, before, sign, m, Pack(sign, exp, g), NONE)
  {
    hide Mag, Exp2, Rounds, Tiny;
    var w := exp * 0x80_0000 + g;
    PackMag(exp, g);
    assert w < INF;
    Gap(w, INF);
    RoundsExact(mode, sign, w);
    NoOverflow(mode, before, sign, m, w);
  }

  /** softfloat_normRoundPackToF32 rounds correctly whatever the number of leading
      zeros; a significand with jammed bits must have at most two. */
  lemma NormRoundPackedCorrect(mode: Mode, before: bool, sign: bool, exp: int, sig: int, X: real, q: real, m: real)
    requires 0 < sig < 0x8000_0000 && Jams(sig, X) && (X == sig as real || sig >= 0x2000_0000)
    requires q == Exp2(exp - 156) && m == X * q
    ensures var r := NormRoundPacked(mode, before, sign, exp, sig);
            Delivers(mode, before, sign, m, r.0, r.1)
  {
    hide Exp2, Pow2, CountLeadingZeros32, Jams, Stands, Delivers, RoundPacked, Pack;
    LeadingOne(sig);
    var s := CountLeadingZeros32(sig) - 1;
    var P := Pow2(s) as real;
    NormalizeStands(sig, X, s, P);
    Exp2Add(exp - s - 156, s);
    var p := Exp2(exp - s - 156);
    Reassociate(X, P, p, q, m);
    if 7 <= s && 0 <= exp - s < 0xFD {
      var g := sig * Pow2(s - 7);
      DropSeven(sig, X, s, P, g);
      Exp2Add(exp - s - 156, 7);
      Pow2Values();
      Reassociate(g as real, 128.0, p, Exp2(exp - s - 149), m);
      ExactPack(mode, before, sign, exp - s, g, m);
    } else {
      RoundPackedCorrect(mode, before, sign, exp - s, sig * Pow2(s), X * P, m);
    }
  }

  lemma Reassociate(X: real, P: real, p: real, q: real, m: real)
    requires q == p * P
    ensures m == X * q <==> m == (X * P) * p
  {
    assert X * (p * P) == (X * P) * p;
  }

  lemma DropSeven(sig: nat, X: real, s: nat, P: real, g: int)
    requires s >= 7 && X == sig as real && P == Pow2(s) as real && g == sig * Pow2(s - 7)
    ensures X * P == g as real * 128.0 && sig * Pow2(s) == g * 128
  {
    hide Pow2;
    Pow2Add(s - 7, 7);
    Pow2Values();
    assert sig * (Pow2(s - 7) * 128) == g * 128;
    RealMul(sig, Pow2(s));
  }

  lemma NormRoundPackedInRange(mode: Mode, before: bool, sign: bool, exp: int, sig: int)
    requires 0 <= sig < 0x8000_0000
    ensures 0 <= NormRoundPacked(mode, before, sign, exp, sig).0 < 0x1_0000_0000
  {
    hide Exp2, Pow2, RoundPacked;
    if sig > 0 {
      hide NormRoundPacked;
      var q := Exp2(exp - 156);
      NormRoundPackedCorrect(mode, before, sign, exp, sig, sig as real, q, sig as real * q);
    } else {
      RoundPackedInRange(mode, before, sign, exp - 31, 0);
    }
  }

  /** A zero significand is normalized by 31 places; it packs as zero if and only if the
      exponent stays in range. */
  lemma ZeroPacks(mode: Mode, before: bool, sign: bool, exp: int)
    ensures NormRoundPacked(mode, before, sign, exp, 0) == (Pack(sign, 0, 0), NONE) <==> exp - 31 <= 0xFD
  {
    hide Pow2, ShiftRightJam32;
    if exp < 31 {
      JamShifts(0, 31 - exp);
    }
  }
}
