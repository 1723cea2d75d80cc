/** Exact quotients of binary32 magnitudes, and the integer quotient with its sticky
    bit that stands for them. */
module Division {
  import opened Powers
  import opened Binary32
  import opened Rounding
  import opened RoundPack
  import opened Exceptions
  import opened Normalize
  import opened AddSub

  /** The exponent and 24-bit significand of a nonzero finite number; subnormals are
      shifted up by softfloat_normSubnormalF32Sig. */
  function NormalizedExp(u: Bits32): int {
    if ExpOf(u) != 0 then ExpOf(u) else 1 - (CountLeadingZeros32(FracOf(u)) - 8)
  }

  function NormalizedSig(u: Bits32): int
    requires ExpOf(u) == 0 ==> CountLeadingZeros32(FracOf(u)) >= 8
  {
    if ExpOf(u) != 0 then FracOf(u) + 0x80_0000
    else FracOf(u) * Pow2(CountLeadingZeros32(FracOf(u)) - 8)
  }

  lemma SubnormalShift(f: Bits32)
    requires 0 < f < 0x80_0000
    ensures 9 <= CountLeadingZeros32(f) <= 31
    ensures 0x80_0000 <= f * Pow2(CountLeadingZeros32(f) - 8) < 0x100_0000
  {
    hide CountLeadingZeros32;
    var c := CountLeadingZeros32(f);
    LeadingZeros(f);
    ShiftDown(f, c);
  }

  lemma ShiftDown(f: nat, c: nat)
    requires 0 < f < 0x80_0000 && 0x8000_0000 <= f * Pow2(c) < 0x1_0000_0000
    ensures c >= 9 && 0x80_0000 <= f * Pow2(c - 8) < 0x100_0000
  {
    if c < 9 {
      Pow2Monotone(c, 8);
      Pow2Values();
      MulMonotone(f, Pow2(c), 0x100);
    } else {
      Pow2Add(c - 8, 8);
      Pow2Values();
      assert f * (Pow2(c - 8) * 0x100) == 0x100 * (f * Pow2(c - 8));
    }
  }

  lemma {:induction false} Pow2Monotone(a: nat, b: nat)
    requires a <= b
    ensures Pow2(a) <= Pow2(b)
    decreases b
  {
    if a < b { Pow2Monotone(a, b - 1); }
  }

  /** Normalizing changes the representation, not the value. */
  lemma NormalizedMag(u: Bits32)
    requires IsFinite(u) && MagOf(u) != 0
    ensures ExpOf(u) == 0 ==> 0 < FracOf(u) && CountLeadingZeros32(FracOf(u)) >= 8
    ensures -22 <= NormalizedExp(u) <= 0xFE && 0x80_0000 <= NormalizedSig(u) < 0x100_0000
    ensures Mag(MagOf(u)) == NormalizedSig(u) as real * Exp2(NormalizedExp(u) - 150)
  {
    hide Mag, Exp2, Pow2, CountLeadingZeros32, ExpOf, FracOf, MagOf, IsFinite, IsNaN;
    FieldsOf(u);
    if ExpOf(u) == 0 {
      var f := FracOf(u);
      var s := CountLeadingZeros32(f) - 8;
      SubnormalShift(f);
      PackMag(0, f);
      Exp2Add(1 - s - 150, s);
      RealMul(f, Pow2(s));
      Regroup(f as real, Pow2(s) as real, Exp2(-149 - s), Exp2(-149));
    } else {
      PackMag(ExpOf(u) - 1, FracOf(u) + 0x80_0000);
    }
  }

  /** The dividend, scaled so that the quotient has 31 bits. */
  function Dividend(sigA: int, sigB: int): int {
    if sigA < sigB then sigA * 0x8000_0000 else sigA * 0x4000_0000
  }

  /** The integer quotient; its bit 0 becomes sticky only when the low six bits are zero. */
  function StickyQuotient(sigA: int, sigB: int): int
    requires sigB > 0
  {
    var q := Dividend(sigA, sigB) / sigB;
    if q % 0x40 == 0 && sigB * q != Dividend(sigA, sigB) then q + 1 else q
  }

  lemma QuotientRange(n: int, d: int)
    requires d > 0 && 0x4000_0000 * d <= n < 0x8000_0000 * d
    ensures 0x4000_0000 <= n / d < 0x8000_0000 && n == n / d * d + n % d && 0 <= n % d < d
  {
    var q := n / d;
    assert n == q * d + n % d;
    MulBound(0x4000_0000 - q, d);
    assert (0x4000_0000 - q) * d == 0x4000_0000 * d - q * d;
    MulBound(q - 0x8000_0000 + 1, d);
    assert (q - 0x8000_0000 + 1) * d == q * d - 0x8000_0000 * d + d;
  }

  /** Even without a sticky bit in the other cases, the quotient determines every
      rounding: its low six bits already keep it off the multiples of 64. */
  lemma QuotientStands(sigA: int, sigB: int, X: real)
    requires 0x80_0000 <= sigA < 0x100_0000 && 0x80_0000 <= sigB < 0x100_0000
    requires X * sigB as real == Dividend(sigA, sigB) as real
    ensures 0x4000_0000 <= StickyQuotient(sigA, sigB) < 0x8000_0000
    ensures Stands(StickyQuotient(sigA, sigB), X)
  {
    hide Stands;
    var n := Dividend(sigA, sigB);
    var q, r := n / sigB, n % sigB;
    QuotientRange(n, sigB);
    QuotientFraction(n, q, r, sigB);
    SameQuotient(X, n, sigB);
    assert sigB * q == q * sigB;
    FloorStands(q, X, r == 0, StickyQuotient(sigA, sigB));
  }

  lemma SameQuotient(X: real, n: int, d: int)
    requires d > 0 && X * d as real == n as real
    ensures X == n as real / d as real
  {
    var D, y := d as real, n as real / d as real;
    assert y * D == n as real;
    assert (X - y) * D == 0.0;
    ProductSign(X - y, D, 0.0);
  }

  lemma FloorStands(q: int, X: real, exact: bool, s: int)
    requires q as real <= X < q as real + 1.0 && (exact <==> X == q as real)
    requires 0x4000_0000 <= q < 0x8000_0000
    requires s == if q % 64 == 0 && !exact then q + 1 else q
    ensures Stands(s, X) && 0x4000_0000 <= s < 0x8000_0000
  {
  }

  lemma Exp2Mul(a: int, b: int)
    ensures Exp2(a) * Exp2(b) == Exp2(a + b)
  {
    hide Exp2, Pow2;
    if b >= 0 {
      Exp2Add(a, b);
      Exp2Add(0, b);
      ExpZero();
    } else {
      Exp2Add(a + b, -b);
      Exp2Add(b, -b);
      ExpZero();
      Cancel(Exp2(a), Exp2(a + b), Exp2(b), Pow2(-b) as real);
    }
  }

  lemma ExpZero()
    ensures Exp2(0) == 1.0
  {
  }

  lemma Cancel(a: real, ab: real, b: real, p: real)
    requires a == ab * p && 1.0 == b * p
    ensures a * b == ab
  {
    assert a * b == ab * (b * p);
  }

  /** The exponent f32_div hands to the rounding kernel. */
  function QuotientExp(eA: int, eB: int, sigA: int, sigB: int): int {
    eA - eB + 0x7E - (if sigA < sigB then 1 else 0)
  }

  /** X * 2^(exp - 156) times the divisor is the dividend. */
  lemma QuotientScale(eA: int, eB: int, sigA: int, sigB: int, X: real, p: real, ma: real, mb: real)
    requires sigA > 0 && sigB > 0 && X * sigB as real == Dividend(sigA, sigB) as real
    requires p == Exp2(QuotientExp(eA, eB, sigA, sigB) - 156)
    requires ma == sigA as real * Exp2(eA - 150) && mb == sigB as real * Exp2(eB - 150)
    ensures (X * p) * mb == ma
  {
    hide Exp2, Pow2;
    var k := if sigA < sigB then 31 else 30;
    var N, S := Dividend(sigA, sigB) as real, sigB as real;
    var pb, pn, pa := Exp2(eB - 150), Exp2(eA - 150 - k), Exp2(eA - 150);
    Exp2Mul(QuotientExp(eA, eB, sigA, sigB) - 156, eB - 150);
    assert p * pb == pn;
    Exp2Add(eA - 150 - k, k);
    Pow2Values();
    Pow2Thirty();
    var K := Pow2(k) as real;
    assert N == sigA as real * K;
    Rearrange(X, p, S, pb, pn, N, sigA as real, K, pa, ma, mb);
  }

  lemma Pow2Thirty()
    ensures Pow2(30) == 0x4000_0000
  {
    Pow2Values();
    assert Pow2(31) == 2 * Pow2(30);
  }

  lemma Rearrange(X: real, p: real, S: real, pb: real, pn: real, N: real, A: real, K: real, pa: real, ma: real, mb: real)
    requires X * S == N && p * pb == pn && N == A * K && pa == pn * K
    requires ma == A * pa && mb == S * pb
    ensures (X * p) * mb == ma
  {
    calc {
      (X * p) * mb;
      (X * S) * (p * pb);
      N * pn;
      A * (pn * K);
      ma;
    }
  }

  /** For finite nonzero operands the kernel gets a significand and an exponent that
      stand for the exact quotient. */
  lemma DivCorrect(mode: Mode, before: bool, sign: bool, a: Bits32, b: Bits32)
    requires IsFinite(a) && IsFinite(b) && MagOf(a) != 0 && MagOf(b) != 0
    requires ExpOf(a) == 0 ==> CountLeadingZeros32(FracOf(a)) >= 8
    requires ExpOf(b) == 0 ==> CountLeadingZeros32(FracOf(b)) >= 8
    requires NormalizedSig(b) > 0
    ensures Mag(MagOf(b)) > 0.0
    ensures var sa, sb := NormalizedSig(a), NormalizedSig(b);
            var sig, exp := StickyQuotient(sa, sb), QuotientExp(NormalizedExp(a), NormalizedExp(b), sa, sb);
            && 0x4000_0000 <= sig < 0x8000_0000
            && var r := RoundPacked(mode, before, sign, exp, sig);
               Delivers(mode, before, sign, Mag(MagOf(a)) / Mag(MagOf(b)), r.0, r.1)
  {
    hide *;
    NormalizedMag(a);
    NormalizedMag(b);
    FieldsOf(a);
    FieldsOf(b);
    MagZero(MagOf(b));
    var sa, sb := NormalizedSig(a), NormalizedSig(b);
    var exp := QuotientExp(NormalizedExp(a), NormalizedExp(b), sa, sb);
    var X := Dividend(sa, sb) as real / sb as real;
    assert X * sb as real == Dividend(sa, sb) as real;
    QuotientStands(sa, sb, X);
    var p, ma, mb := Exp2(exp - 156), Mag(MagOf(a)), Mag(MagOf(b));
    QuotientScale(NormalizedExp(a), NormalizedExp(b), sa, sb, X, p, ma, mb);
    DivideOut(X * p, ma, mb);
    RoundPackedCorrect(mode, before, sign, exp, StickyQuotient(sa, sb), X, ma / mb);
  }

  lemma DivideOut(m: real, a: real, b: real)
    requires b > 0.0 && m * b == a
    ensures m == a / b
  {
    var y := a / b;
    assert y * b == a;
    assert (m - y) * b == 0.0;
    ProductSign(m - y, b, 0.0);
  }
}
