/** softfloat_roundPackToF32, softfloat_normRoundPackToF32 and the jamming shift.
    The callers hand over a 31-bit integer that stands for an exact real number X;
    Stands says how much of X that integer has to preserve. */
module RoundPack {
  import opened Powers
  import opened Binary32
  import opened Rounding

  /** softfloat_exceptionFlags, one boolean a bit. */
  datatype Flags = Flags(inexact: bool, underflow: bool, overflow: bool, infinite: bool, invalid: bool) {
    /** The |= of the library: flags are sticky. */
    function Or(more: Flags): Flags {
      Flags(inexact || more.inexact, underflow || more.underflow, overflow || more.overflow,
            infinite || more.infinite, invalid || more.invalid)
    }
  }

  const NONE := Flags(false, false, false, false, false)
  const INEXACT := NONE.(inexact := true)
  const UNDERFLOW := NONE.(underflow := true)
  const OVERFLOW := NONE.(overflow := true)
  const INFINITE := NONE.(infinite := true)
  const INVALID := NONE.(invalid := true)

  // ------------------------------------------------------------- jamming shift

  /** softfloat_shiftRightJam32: shift right, OR-ing "some bit was lost" into bit 0. */
  function ShiftRightJam32(a: Bits32, count: nat): int {
    if count < 31 then
      var lost := a * Pow2((32 - count) % 32) % 0x1_0000_0000 != 0;
      var q := a / Pow2(count);
      if lost && q % 2 == 0 then q + 1 else q
    else if a != 0 then 1 else 0
  }

  /** s is X exactly, or is odd and X lies strictly within one unit of it. */
  ghost predicate Jams(s: int, X: real) {
    X == s as real || (s % 2 == 1 && (s - 1) as real < X < (s + 1) as real)
  }

  /** s and X compare alike with every multiple of 64, that is with every point where
      a rounding decision on bits 7 and up can change. */
  ghost predicate Stands(s: int, X: real) {
    var k := s / 64;
    if s % 64 == 0 then X == s as real
    else (64 * k) as real < X < (64 * k + 64) as real
  }

  lemma JamsStands(s: int, X: real)
    requires Jams(s, X)
    ensures Stands(s, X)
  {
  }

  lemma JamsDoubleStands(s: int, X: real)
    requires Jams(s, X)
    ensures Stands(2 * s, 2.0 * X)
  {
    assert s % 2 == 1 ==> s % 32 != 0 && 2 * s / 64 == s / 32 && 2 * s % 64 != 0;
  }

  lemma JamsAdd(a: int, s: int, X: real)
    requires a % 2 == 0 && Jams(s, X)
    ensures Jams(a + s, a as real + X)
    ensures Jams(a - s, a as real - X)
  {
  }

  /** Shifting left by 32 - count in 32 bits keeps exactly the bits a right shift
      by count loses. */
  lemma LostBits(a: nat, count: nat)
    requires 1 <= count <= 32 && a < 0x1_0000_0000
    ensures a * Pow2(32 - count) % 0x1_0000_0000 == a % Pow2(count) * Pow2(32 - count)
  {
    hide Pow2;
    var p, r := Pow2(count), Pow2(32 - count);
    Pow2Add(count, 32 - count);
    Pow2Values();
    var q, m := a / p, a % p;
    assert a == q * p + m;
    assert a * r == q * (p * r) + m * r by {
      assert (q * p + m) * r == q * p * r + m * r;
      assert q * p * r == q * (p * r);
    }
    assert m * r < p * r && 0 <= m * r by {
      MulBound(p - m, r);
      assert (p - m) * r == p * r - m * r;
      MulBound(m, r);
    }
    DivModUnique(q, m * r, p * r);
  }

  /** The jammed result preserves the exact quotient up to its odd last bit. */
  lemma JamShifts(a: Bits32, count: nat)
    requires count >= 1
    ensures 0 <= ShiftRightJam32(a, count) <= a
    ensures Jams(ShiftRightJam32(a, count), a as real / Pow2(count) as real)
  {
    if count < 31 { JamShiftsShort(a, count); } else { JamShiftsLong(a, count); }
  }

  lemma JamShiftsShort(a: Bits32, count: nat)
    requires 1 <= count < 31
    ensures 0 <= ShiftRightJam32(a, count) <= a
    ensures Jams(ShiftRightJam32(a, count), a as real / Pow2(count) as real)
  {
    hide Pow2, ShiftRightJam32;
    var p := Pow2(count);
    JamValue(a, count);
    Pow2Half(count);
    QuotientFraction(a, a / p, a % p, p);
    DoubleFits(a / p, p, a % p);
  }

  lemma DoubleFits(q: nat, p: int, m: nat)
    requires p >= 2
    ensures q <= q * p + m && (m > 0 ==> q + 1 <= q * p + m)
  {
    if q > 0 {
      MulBound(p - 1, q);
      assert (p - 1) * q == q * p - q;
    }
  }

  lemma Pow2Half(count: nat)
    requires count >= 1
    ensures Pow2(count) >= 2
  {
  }

  lemma JamValue(a: Bits32, count: nat)
    requires 1 <= count < 31
    ensures ShiftRightJam32(a, count) ==
            var q := a / Pow2(count);
            if a % Pow2(count) != 0 && q % 2 == 0 then q + 1 else q
  {
    hide Pow2;
    assert (32 - count) % 32 == 32 - count;
    LostBits(a, count);
    MulBound(a % Pow2(count), Pow2(32 - count));
  }

  lemma JamShiftsLong(a: Bits32, count: nat)
    requires count >= 31
    ensures 0 <= ShiftRightJam32(a, count) <= a
    ensures Jams(ShiftRightJam32(a, count), a as real / Pow2(count) as real)
  {
    hide Pow2;
    Pow2Values();
    Pow2Add(31, count - 31);
    MulBound(Pow2(count - 31), 0x8000_0000);
    QuotientFraction(a, 0, a, Pow2(count));
  }

  lemma QuotientFraction(a: nat, q: nat, m: nat, p: nat)
    requires p > 0 && a == q * p + m
    ensures m < p ==> q as real <= a as real / p as real < q as real + 1.0
    ensures m < 2 * p ==> a as real / p as real < q as real + 2.0
    ensures m == 0 <==> a as real / p as real == q as real
    ensures m > 0 ==> a as real / p as real > q as real
  {
    var x, pr, qr := a as real / p as real, p as real, q as real;
    RealMul(q, p);
    var f := x - qr;
    assert f * pr == m as real by { assert x * pr == a as real; }
    Fraction(f, pr, m as real, 1.0);
    Fraction(f, pr, m as real, 2.0);
  }

  lemma Fraction(f: real, p: real, m: real, c: real)
    requires p > 0.0 && f * p == m
    ensures m < c * p ==> f < c
    ensures m == 0.0 <==> f == 0.0
    ensures m > 0.0 <==> f > 0.0
  {
    MulCompare(f, c, p);
    MulCompare(f, 0.0, p);
    MulCompare(0.0, f, p);
  }

  // ---------------------------------------------------------- the rounding kernel

  /** sig & 0x7F, sig >> 7 and sig & ~1 of the C code. */
  function Low7(sig: int): int { sig % 0x80 }
  function Shr7(sig: int): int { sig / 0x80 }
  function ClearBit0(sig: int): int { sig - sig % 2 }

  function Increment(mode: Mode, sign: bool): int {
    if RoundsNear(mode) then 0x40 else if RoundsAway(mode, sign) then 0x7F else 0
  }

  /** Add the increment, drop seven bits, and on an exact tie to even clear bit 0. */
  function RoundOff(mode: Mode, sign: bool, sig: int): int {
    var q := Shr7(sig + Increment(mode, sign));
    if mode == NearEven && Low7(sig) == 0x40 then ClearBit0(q) else q
  }

  lemma RoundOffPicks(mode: Mode, sign: bool, sig: int)
    requires sig >= 0
    ensures var g, r := sig / 128, sig % 128;
            RoundOff(mode, sign, sig) ==
            if r == 0 then g
            else if RoundsNear(mode) then
              if r < 64 then g else if r > 64 then g + 1
              else if mode == NearMaxMag then g + 1 else g + g % 2
            else if RoundsAway(mode, sign) then g + 1 else g
  {
  }

  lemma StandsCompare(sig: int, X: real, g: real)
    requires sig >= 0 && Stands(sig, X) && g == (sig / 128) as real
    ensures 128.0 * g <= X < 128.0 * g + 128.0
    ensures X == 128.0 * g <==> sig % 128 == 0
    ensures X < 128.0 * g + 64.0 <==> sig % 128 < 64
    ensures X == 128.0 * g + 64.0 <==> sig % 128 == 64
  {
    assert sig / 64 == 2 * (sig / 128) + sig % 128 / 64;
  }

  /** Where X lies between g and g + 1 units of 128 p, read off bits 0 to 6 of sig. */
  lemma Scaled(sig: int, X: real, g: real, p: real, m: real, lo: real, hi: real)
    requires sig >= 0 && p > 0.0 && Stands(sig, X)
    requires g == (sig / 128) as real
    requires m == X * p && lo == g * (128.0 * p) && hi == (g + 1.0) * (128.0 * p)
    ensures lo <= m < hi
    ensures m == lo <==> sig % 128 == 0
    ensures 2.0 * m < lo + hi <==> sig % 128 < 64
    ensures 2.0 * m == lo + hi <==> sig % 128 == 64
  {
    hide Stands;
    StandsCompare(sig, X, g);
    ScaleUp(X, g, p, m, lo, hi);
  }

  lemma ScaleUp(X: real, g: real, p: real, m: real, lo: real, hi: real)
    requires p > 0.0
    requires m == X * p && lo == g * (128.0 * p) && hi == (g + 1.0) * (128.0 * p)
    ensures (m < lo <==> X < 128.0 * g) && (m == lo <==> X == 128.0 * g)
    ensures m < hi <==> X < 128.0 * g + 128.0
    ensures 2.0 * m < lo + hi <==> X < 128.0 * g + 64.0
    ensures 2.0 * m == lo + hi <==> X == 128.0 * g + 64.0
  {
    // Each comparison is the sign of a difference times the positive p.
    assert m - lo == (X - 128.0 * g) * p;
    assert m - hi == (X - 128.0 * g - 128.0) * p;
    assert 2.0 * m - lo - hi == (2.0 * X - 256.0 * g - 128.0) * p;
    ProductSign(X - 128.0 * g, p, m - lo);
    ProductSign(X - 128.0 * g - 128.0, p, m - hi);
    ProductSign(2.0 * X - 256.0 * g - 128.0, p, 2.0 * m - lo - hi);
  }

  /** RoundOff picks the neighbour the mode wants, given where bits 0 to 6 say m lies. */
  lemma RoundOffIsPick(mode: Mode, sign: bool, sig: int, m: real, u: int)
    requires sig >= 0 && 0 <= u < INF && u % 2 == sig / 128 % 2
    requires m == Mag(u) <==> sig % 128 == 0
    requires 2.0 * m < Mag(u) + Mag(u + 1) <==> sig % 128 < 64
    requires 2.0 * m == Mag(u) + Mag(u + 1) <==> sig % 128 == 64
    ensures Picks(mode, sign, m, u, u - sig / 128 + RoundOff(mode, sign, sig))
  {
    hide Mag, RoundOff;
    RoundOffPicks(mode, sign, sig);
  }

  /** The neighbours g and g + 1 over exponent field e, in units of 128 p. */
  lemma Neighbours(e: int, g: int, G: real, p: real)
    requires 0 <= e <= 0xFD && 0 <= g < 0x100_0000 && (e > 0 ==> g >= 0x80_0000)
    requires G == g as real && p == Exp2(e - 156)
    ensures var u := e * 0x80_0000 + g;
            && 0 <= u < INF && u % 2 == g % 2
            && Mag(u) == G * (128.0 * p) && Mag(u + 1) == (G + 1.0) * (128.0 * p)
  {
    hide Mag, Exp2;
    PackMag(e, g);
    PackMag(e, g + 1);
    Exp2Add(e - 156, 7);
    Pow2Values();
    assert Exp2(e - 149) == 128.0 * p;
  }

  /** Rounding a 31-bit sig that stands for X gives the correct rounding of
      m == X * 2^(e-156), and bits 0 to 6 are zero exactly when nothing is lost. */
  lemma RoundSig(mode: Mode, sign: bool, e: int, sig: int, X: real, m: real)
    requires 0 <= e <= 0xFD && 0 <= sig < 0x8000_0000 && (e > 0 ==> sig >= 0x4000_0000)
    requires Stands(sig, X) && m == X * Exp2(e - 156)
    ensures var w := e * 0x80_0000 + RoundOff(mode, sign, sig);
            && 0 <= w <= INF
            && Rounds(mode, Signed(sign, m), WithSign(sign, w))
            && (Mag(w) == m <==> sig % 128 == 0) && 0.0 <= m < Mag(INF)
  {
    hide Mag, Exp2, Stands, Rounds, RoundOff;
    var g := sig / 128;
    var u := e * 0x80_0000 + g;
    var G, p := g as real, Exp2(e - 156);
    Neighbours(e, g, G, p);
    Scaled(sig, X, G, p, m, Mag(u), Mag(u + 1));
    RoundOffIsPick(mode, sign, sig, m, u);
    RoundsBetween(mode, sign, m, u, u - g + RoundOff(mode, sign, sig));
    Gap(u, INF);
  }

  // ------------------------------------------------------------------- subnormals

  lemma StandsThreshold(s: int, X: real, t: int)
    requires Stands(s, X)
    ensures var b := (64 * t) as real;
            && (X < b <==> s < 64 * t) && (X == b <==> s == 64 * t)
  {
  }

  lemma StandsFromThresholds(s: int, X: real)
    requires var k := s / 64;
             var lo, hi := (64 * k) as real, (64 * (k + 1)) as real;
             && (X < lo <==> s < 64 * k) && (X == lo <==> s == 64 * k)
             && (X < hi <==> s < 64 * (k + 1)) && (X == hi <==> s == 64 * (k + 1))
    ensures Stands(s, X)
  {
  }

  /** Comparing Y with 64 t is comparing Y * P with 64 t P. */
  lemma ScaleThreshold(V: real, Y: real, p: int, P: real, t: nat)
    requires p > 0 && P == p as real && Y * P == V
    ensures var b, c := (64 * t) as real, (64 * (t * p)) as real;
            && (Y < b <==> V < c) && (Y == b <==> V == c)
  {
    var n, T := t * p, t as real;
    RealMul(t, p);
    var d, v := 64.0 * T - Y, 64.0 * n as real - V;
    assert n as real == T * P;
    assert d * P == v;
    ProductSign(d, P, v);
  }

  /** At every multiple of 64 the shifted significand decides as the number does. */
  lemma ShiftThreshold(sig: nat, X: real, p: nat, P: real, q: real, Y: real, s: int, t: nat)
    requires p > 0 && P == p as real && Y * P == X && q * P == sig as real && Stands(sig, X) && Stands(s, q)
    ensures var b := (64 * t) as real; (Y < b <==> s < 64 * t) && (Y == b <==> s == 64 * t)
  {
    hide Stands;
    StandsThreshold(s, q, t);
    ScaleThreshold(sig as real, q, p, P, t);
    ScaleThreshold(X, Y, p, P, t);
    StandsThreshold(sig, X, t * p);
  }

  /** Jamming what the exponent cannot hold keeps the comparison with every multiple
      of 64, hence every later rounding decision. */
  lemma ShiftStands(sig: Bits32, X: real, count: nat, P: real, Y: real)
    requires count >= 1 && Stands(sig, X) && P == Pow2(count) as real && Y * P == X
    ensures Stands(ShiftRightJam32(sig, count), Y)
  {
    hide Pow2, ShiftRightJam32, Stands, Jams;
    var s, p, q := ShiftRightJam32(sig, count), Pow2(count), sig as real / P;
    JamShifts(sig, count);
    JamsStands(s, q);
    assert q * P == sig as real;
    ShiftThreshold(sig, X, p, P, q, Y, s, s / 64);
    ShiftThreshold(sig, X, p, P, q, Y, s, s / 64 + 1);
    StandsFromThresholds(s, Y);
  }
}
