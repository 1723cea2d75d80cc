/** Exact sums and differences of binary32 magnitudes, and the aligned significands
    that stand for them. */
module AddSub {
  import opened Powers
  import opened Binary32
  import opened Rounding
  import opened RoundPack
  import opened Exceptions
  import opened Normalize

  /** A significand shifted left by guard bits (unit == 2^guard), with the hidden bit
      of a normal number added, or doubled when the number is subnormal: fields 0 and
      1 share a scale, and the doubling makes up for the difference. */
  function Aligned(u: Bits32, unit: int): int {
    var s := FracOf(u) * unit;
    s + (if ExpOf(u) != 0 then 0x80_0000 * unit else s)
  }

  /** The value of an encoding in terms of its aligned significand. */
  lemma AlignedMag(u: Bits32, unit: int, guard: nat)
    requires IsFinite(u) && unit == Pow2(guard)
    ensures Mag(MagOf(u)) == Aligned(u, unit) as real * Exp2(ExpOf(u) - 150 - guard)
  {
    hide Pow2, Exp2, Mag;
    var e, f := ExpOf(u), FracOf(u);
    var p := Exp2(e - 150 - guard);
    FieldsOf(u);
    Exp2Add(e - 150 - guard, guard);
    assert Exp2(e - 150) == p * unit as real;
    if e == 0 {
      PackMag(0, f);
      Exp2Step(-150);
      RealMul(2 * f, unit);
      assert Aligned(u, unit) == 2 * f * unit;
      Shuffle(f as real, unit as real, p, Exp2(-150), Exp2(-149));
    } else {
      PackMag(e - 1, f + 0x80_0000);
      RealMul(f + 0x80_0000, unit);
      assert Aligned(u, unit) == (f + 0x80_0000) * unit;
      Regroup((f + 0x80_0000) as real, unit as real, p, Exp2(e - 150));
    }
  }

  lemma FieldsOf(u: Bits32)
    requires IsFinite(u)
    ensures 0 <= ExpOf(u) <= 0xFE && 0 <= FracOf(u) < 0x80_0000
    ensures MagOf(u) == ExpOf(u) * 0x80_0000 + FracOf(u) && 0 <= MagOf(u) < INF && !IsNaN(u)
  {
  }

  lemma Regroup(a: real, b: real, p: real, q: real)
    requires q == p * b
    ensures a * q == (a * b) * p
  {
  }

  lemma Shuffle(f: real, b: real, p: real, q: real, q2: real)
    requires q == p * b && q2 == 2.0 * q
    ensures f * q2 == (2.0 * f * b) * p
  {
    Regroup(f, b, p, q);
  }

  /** Aligning the smaller operand to the exponent of the bigger one divides its
      significand by a power of two; Y is the exact quotient. */
  lemma ShiftedMag(big: Bits32, small: Bits32, unit: int, guard: nat, D: real, Y: real)
    requires IsFinite(big) && IsFinite(small) && ExpOf(big) > ExpOf(small) && unit == Pow2(guard)
    requires D == Pow2(ExpOf(big) - ExpOf(small)) as real && Y * D == Aligned(small, unit) as real
    ensures Mag(MagOf(small)) == Y * Exp2(ExpOf(big) - 150 - guard)
  {
    hide Pow2, Exp2, Mag, Aligned;
    var eb, es := ExpOf(big) - 150 - guard, ExpOf(small) - 150 - guard;
    AlignedMag(small, unit, guard);
    Exp2Add(es, eb - es);
    Regroup(Y, D, Exp2(es), Exp2(eb));
  }

  lemma AlignedRange(u: Bits32, unit: int)
    requires IsFinite(u) && (unit == 64 || unit == 128)
    ensures var f, s := FracOf(u) * unit, Aligned(u, unit);
            && 0 <= f < 0x80_0000 * unit && f % 2 == 0
            && 0 <= s < 0x100_0000 * unit && s % 2 == 0
            && s == f + (if ExpOf(u) != 0 then 0x80_0000 * unit else f)
  {
    hide ExpOf, FracOf, IsFinite, MagOf, IsNaN;
    FieldsOf(u);
    var f := FracOf(u);
    if unit == 64 {
      Even(f * 32);
      Even(f * 64);
    } else {
      Even(f * 64);
      Even(f * 128);
    }
    Even(0x80_0000 * 32);
  }

  lemma Even(n: int)
    ensures 2 * n % 2 == 0 && (2 * n + 0x2000_0000) % 2 == 0 && (2 * n + 0x4000_0000) % 2 == 0
  {
  }

  /** Shifting an even word by one loses nothing; shifting by more leaves at most a
      quarter, sticky bit included. */
  lemma JamSmall(a: Bits32, count: nat, D: real, Y: real)
    requires count >= 1 && a % 2 == 0 && D == Pow2(count) as real && Y * D == a as real
    ensures var j := ShiftRightJam32(a, count);
            && Jams(j, Y) && 0 <= j && 2 * j <= a + 1
            && ((Y == j as real && 2 * j == a) || 4 * j < a + 4)
  {
    hide *;
    var j := ShiftRightJam32(a, count);
    JamQuotient(a, count, D, Y);
    if count == 1 {
      Pow2Half2();
      JamsInteger(j, a / 2, Y);
    } else {
      Quarter(a, count, D, Y);
      JamsBelow(j, Y, a);
    }
  }

  lemma JamQuotient(a: Bits32, count: nat, D: real, Y: real)
    requires count >= 1 && D == Pow2(count) as real && Y * D == a as real
    ensures Jams(ShiftRightJam32(a, count), Y) && ShiftRightJam32(a, count) >= 0
  {
    hide *;
    JamShifts(a, count);
    var q := a as real / D;
    assert q * D == a as real;
    assert (Y - q) * D == 0.0;
    ProductSign(Y - q, D, 0.0);
  }

  lemma Quarter(a: nat, count: nat, D: real, Y: real)
    requires count >= 2 && D == Pow2(count) as real && Y * D == a as real
    ensures 4.0 * Y <= a as real
  {
    hide *;
    Pow2Half2();
    Pow2Add(2, count - 2);
    RatioBound(a as real, Y, D, 4.0);
  }

  lemma JamsInteger(j: int, n: int, Y: real)
    requires Jams(j, Y) && Y == n as real
    ensures j == n
  {
  }

  lemma JamsBelow(j: int, Y: real, a: int)
    requires Jams(j, Y) && 4.0 * Y <= a as real
    ensures 4 * j < a + 4
  {
  }

  lemma Pow2Half2()
    ensures Pow2(1) == 2 && Pow2(2) == 4
  {
  }

  lemma RatioBound(a: real, Y: real, D: real, c: real)
    requires a >= 0.0 && D >= c > 0.0 && Y * D == a
    ensures 0.0 <= Y && c * Y <= a
  {
    if Y < 0.0 {
      ProductSign(-Y, D, -a);
    } else {
      assert Y * (D - c) >= 0.0;
    }
  }

  // ------------------------------------------------------------------ subtraction

  lemma DifferenceMag(a: real, Y: real, p: real, ma: real, mb: real)
    requires ma == a * p && mb == Y * p
    ensures ma - mb == (a - Y) * p && ma + mb == (a + Y) * p
  {
  }

  /** Unequal exponents: subtracting the jammed, aligned smaller operand and then
      normalizing and rounding gives the correctly rounded exact difference. */
  lemma SubUnequal(mode: Mode, before: bool, sign: bool, big: Bits32, small: Bits32, j: int)
    requires IsFinite(big) && IsFinite(small) && ExpOf(big) > ExpOf(small)
    requires 0 <= Aligned(small, 128) < 0x8000_0000
    requires j == ShiftRightJam32(Aligned(small, 128), ExpOf(big) - ExpOf(small))
    ensures 0 < Aligned(big, 128) - j < 0x8000_0000
    ensures var r := NormRoundPacked(mode, before, sign, ExpOf(big) - 1, Aligned(big, 128) - j);
            Delivers(mode, before, sign, Mag(MagOf(big)) - Mag(MagOf(small)), r.0, r.1)
  {
    hide *;
    var d, s, b := ExpOf(big) - ExpOf(small), Aligned(small, 128), Aligned(big, 128);
    var D := Pow2(d) as real;
    var Y := s as real / D;
    assert Y * D == s as real;
    AlignedRange(small, 128);
    AlignedRange(big, 128);
    FieldsOf(small);
    FieldsOf(big);
    JamSmall(s, d, D, Y);
    JamsDifference(b, j, Y);
    var X := b as real - Y;
    var p := Exp2(ExpOf(big) - 157);
    UnequalExact(big, small, 128, 7, D, Y, p, b as real + Y, X);
    NormRoundPackedCorrect(mode, before, sign, ExpOf(big) - 1, b - j, X, p, Mag(MagOf(big)) - Mag(MagOf(small)));
  }

  /** The exact sum and difference, in units of the bigger operand's scale. */
  lemma UnequalExact(big: Bits32, small: Bits32, unit: int, guard: nat, D: real, Y: real,
                     p: real, sum: real, diff: real)
    requires IsFinite(big) && IsFinite(small) && ExpOf(big) > ExpOf(small)
    requires (unit == 128 && guard == 7) || (unit == 64 && guard == 6)
    requires D == Pow2(ExpOf(big) - ExpOf(small)) as real && Y * D == Aligned(small, unit) as real
    requires p == Exp2(ExpOf(big) - 150 - guard)
    requires sum == Aligned(big, unit) as real + Y && diff == Aligned(big, unit) as real - Y
    ensures Mag(MagOf(big)) - Mag(MagOf(small)) == diff * p
    ensures Mag(MagOf(big)) + Mag(MagOf(small)) == sum * p
  {
    hide *;
    FieldsOf(big);
    FieldsOf(small);
    Pow2Values();
    AlignedMag(big, unit, guard);
    ShiftedMag(big, small, unit, guard, D, Y);
    DifferenceMag(Aligned(big, unit) as real, Y, p, Mag(MagOf(big)), Mag(MagOf(small)));
  }

  lemma JamsDifference(b: int, j: int, Y: real)
    requires b % 2 == 0 && Jams(j, Y)
    ensures Jams(b - j, b as real - Y) && Jams(b + j, b as real + Y)
  {
    JamsAdd(b, j, Y);
  }

  /** Equal exponents: the fractions subtract exactly, however deep the cancellation. */
  lemma SubEqual(mode: Mode, before: bool, sign: bool, a: Bits32, b: Bits32)
    requires IsFinite(a) && IsFinite(b) && ExpOf(a) == ExpOf(b) && FracOf(a) > FracOf(b)
    ensures 0 < FracOf(a) * 128 - FracOf(b) * 128 < 0x8000_0000
    ensures var e := if ExpOf(a) == 0 then 1 else ExpOf(a);
            var r := NormRoundPacked(mode, before, sign, e - 1, FracOf(a) * 128 - FracOf(b) * 128);
            Delivers(mode, before, sign, Mag(MagOf(a)) - Mag(MagOf(b)), r.0, r.1)
  {
    hide *;
    Pow2Values();
    FieldsOf(a);
    FieldsOf(b);
    var e := if ExpOf(a) == 0 then 1 else ExpOf(a);
    var h := if ExpOf(a) == 0 then 0 else 0x80_0000;
    var p := Exp2(e - 150);
    PackMag(e - 1, FracOf(a) + h);
    PackMag(e - 1, FracOf(b) + h);
    Exp2Add(e - 1 - 156, 7);
    var n := FracOf(a) - FracOf(b);
    var X := (FracOf(a) * 128 - FracOf(b) * 128) as real;
    assert X == n as real * 128.0;
    DifferenceMag((FracOf(a) + h) as real, (FracOf(b) + h) as real, p, Mag(MagOf(a)), Mag(MagOf(b)));
    Regroup(n as real, 128.0, Exp2(e - 157), p);
    JamsExact(FracOf(a) * 128 - FracOf(b) * 128, X);
    NormRoundPackedCorrect(mode, before, sign, e - 1, FracOf(a) * 128 - FracOf(b) * 128, X, Exp2(e - 157),
                           Mag(MagOf(a)) - Mag(MagOf(b)));
  }

  lemma JamsExact(s: int, X: real)
    requires X == s as real
    ensures Jams(s, X)
  {
  }

  // --------------------------------------------------------------------- addition

  /** Unequal exponents: the sum has one or two guard bits to spare, and the jammed
      bit stands for everything shifted out. */
  lemma AddUnequal(mode: Mode, before: bool, sign: bool, big: Bits32, small: Bits32, j: int)
    requires IsFinite(big) && IsFinite(small) && ExpOf(big) > ExpOf(small)
    requires 0 <= Aligned(small, 64) < 0x8000_0000
    requires j == ShiftRightJam32(Aligned(small, 64), ExpOf(big) - ExpOf(small))
    ensures 0x2000_0000 <= Aligned(big, 64) + j < 0x8000_0000
    ensures var sum, e := Aligned(big, 64) + j, ExpOf(big);
            var r := if sum < 0x4000_0000 then RoundPacked(mode, before, sign, e - 1, sum * 2)
                     else RoundPacked(mode, before, sign, e, sum);
            Delivers(mode, before, sign, Mag(MagOf(big)) + Mag(MagOf(small)), r.0, r.1)
  {
    hide *;
    var d, s, b := ExpOf(big) - ExpOf(small), Aligned(small, 64), Aligned(big, 64);
    var D := Pow2(d) as real;
    var Y := s as real / D;
    assert Y * D == s as real;
    AlignedRange(small, 64);
    AlignedRange(big, 64);
    FieldsOf(small);
    FieldsOf(big);
    JamSmall(s, d, D, Y);
    JamsDifference(b, j, Y);
    var X := b as real + Y;
    var p := Exp2(ExpOf(big) - 156);
    UnequalExact(big, small, 64, 6, D, Y, p, X, b as real - Y);
    RoundSum(mode, before, sign, ExpOf(big), b + j, X, p, Mag(MagOf(big)) + Mag(MagOf(small)));
  }

  lemma RoundSum(mode: Mode, before: bool, sign: bool, e: int, sum: int, X: real, p: real, m: real)
    requires 0x2000_0000 <= sum < 0x8000_0000 && Jams(sum, X) && p == Exp2(e - 156) && m == X * p
    ensures var r := if sum < 0x4000_0000 then RoundPacked(mode, before, sign, e - 1, sum * 2)
                     else RoundPacked(mode, before, sign, e, sum);
            Delivers(mode, before, sign, m, r.0, r.1)
  {
    hide *;
    if sum < 0x4000_0000 {
      JamsDoubleStands(sum, X);
      Exp2Step(e - 1 - 156);
      Regroup(X, 2.0, Exp2(e - 157), p);
      assert X * 2.0 == 2.0 * X;
      RoundPackedCorrect(mode, before, sign, e - 1, 2 * sum, 2.0 * X, m);
    } else {
      JamsStands(sum, X);
      RoundPackedCorrect(mode, before, sign, e, sum, X, m);
    }
  }

  lemma AddNormals(mode: Mode, before: bool, sign: bool, a: Bits32, b: Bits32)
    requires IsFinite(a) && IsFinite(b) && ExpOf(a) == ExpOf(b) != 0
    ensures var sum := 0x4000_0000 + FracOf(a) * 64 + FracOf(b) * 64;
            var r := RoundPacked(mode, before, sign, ExpOf(a), sum);
            && 0x4000_0000 <= sum < 0x8000_0000
            && Delivers(mode, before, sign, Mag(MagOf(a)) + Mag(MagOf(b)), r.0, r.1)
  {
    hide *;
    FieldsOf(a);
    FieldsOf(b);
    AlignedRange(a, 64);
    AlignedRange(b, 64);
    Pow2Values();
    AlignedMag(a, 64, 6);
    AlignedMag(b, 64, 6);
    var sum := Aligned(a, 64) + Aligned(b, 64);
    DifferenceMag(Aligned(a, 64) as real, Aligned(b, 64) as real, Exp2(ExpOf(a) - 156), Mag(MagOf(a)), Mag(MagOf(b)));
    JamsExact(sum, sum as real);
    RoundSum(mode, before, sign, ExpOf(a), sum, sum as real, Exp2(ExpOf(a) - 156), Mag(MagOf(a)) + Mag(MagOf(b)));
  }

  /** Two subnormals add as integers, carrying into the exponent field when the sum
      is normal. */
  lemma AddSubnormals(mode: Mode, before: bool, sign: bool, a: Bits32, b: Bits32)
    requires ExpOf(a) == 0 && ExpOf(b) == 0
    ensures IsFinite(a) && IsFinite(b)
    ensures Delivers(mode, before, sign, Mag(MagOf(a)) + Mag(MagOf(b)), Pack(sign, 0, (a + b) % 0x8000_0000), NONE)
  {
    hide Mag, Exp2, Delivers, FracOf, ExpOf, MagOf, Pack;
    SubnormalBits(a, b);
    var w := FracOf(a) + FracOf(b);
    PackMag(0, FracOf(a));
    PackMag(0, FracOf(b));
    PackMag(0, w);
    SumUnits(FracOf(a), FracOf(b), w, Exp2(-149), Mag(MagOf(a)), Mag(MagOf(b)), Mag(w));
    ExactSmall(mode, before, sign, w, Mag(w));
  }

  lemma SubnormalBits(a: Bits32, b: Bits32)
    requires ExpOf(a) == 0 && ExpOf(b) == 0
    ensures IsFinite(a) && IsFinite(b)
    ensures MagOf(a) == FracOf(a) && MagOf(b) == FracOf(b)
    ensures 0 <= FracOf(a) < 0x80_0000 && 0 <= FracOf(b) < 0x80_0000
    ensures (a + b) % 0x8000_0000 == FracOf(a) + FracOf(b)
  {
  }

  /** Any encoding below infinity, packed over field 0, stands for its own value. */
  lemma ExactSmall(mode: Mode, before: bool, sign: bool, w: int, m: real)
    requires 0 <= w < INF && m == Mag(w)
    ensures Delivers(mode, before, sign, m, Pack(sign, 0, w), NONE)
  {
    hide Mag, Rounds, Tiny;
    RoundsExact(mode, sign, w);
    Gap(w, INF);
    NoOverflow(mode, before, sign, m, w);
  }

  lemma SumUnits(a: int, b: int, w: int, p: real, ma: real, mb: real, mw: real)
    requires w == a + b && ma == a as real * p && mb == b as real * p && mw == w as real * p
    ensures mw == ma + mb
  {
    var A, B := a as real, b as real;
    assert w as real == A + B;
    assert (A + B) * p == A * p + B * p;
  }
}
