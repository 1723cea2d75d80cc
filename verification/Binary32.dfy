/** The binary32 interchange format and, independently of any algorithm, what it
    means for an encoding to be the correct rounding of a real number
    (IEEE 754-2008 sections 3.4, 4.3, 6.3 and 7). */
module Binary32 {
  import opened Powers

  /** A binary32 encoding, as the unsigned word the library passes around. */
  type Bits32 = u: int | 0 <= u < 0x1_0000_0000

  /** The rounding modes, in the order of the library's numbering. */
  datatype Mode = NearEven | MinMag | Min | Max | NearMaxMag

  const INF: int := 0x7F80_0000      // encoding of +infinity
  const MAXF: int := 0x7F7F_FFFF     // encoding of the largest finite number
  const SIGN: int := 0x8000_0000     // the sign bit

  function SignOf(u: Bits32): bool { u >= SIGN }
  function ExpOf(u: Bits32): int { u / 0x80_0000 % 0x100 }
  function FracOf(u: Bits32): int { u % 0x80_0000 }
  function MagOf(u: Bits32): int { u % SIGN }

  /** packToF32UI: the fields are added, so a significand may carry into the exponent. */
  function Pack(sign: bool, exp: int, sig: int): (u: int)
    ensures sig == 0 && 0 <= exp <= 0xFF ==> 0 <= u < 0x1_0000_0000
  {
    (if sign then SIGN else 0) + exp * 0x80_0000 + sig
  }

  predicate IsNaN(u: Bits32) { MagOf(u) > INF }
  predicate IsInf(u: Bits32) { MagOf(u) == INF }
  predicate IsFinite(u: Bits32) { MagOf(u) < INF }

  /** The 24-bit significand, whose hidden bit is present exactly when the exponent
      field is nonzero. */
  function Significand(u: int): int {
    u % 0x80_0000 + (if u / 0x80_0000 == 0 then 0 else 0x80_0000)
  }

  /** The exponent of one unit in the last place; fields 0 and 1 share it. */
  function Scale(u: int): int {
    (if u / 0x80_0000 == 0 then 1 else u / 0x80_0000) - 150
  }

  /** Magnitude of encoding u without its sign.  At INF it is 2^128, the value the
      next binary32 number would have if the exponent range had no upper end. */
  ghost function Mag(u: int): (m: real)
    requires 0 <= u <= INF
    ensures m >= 0.0
  {
    Significand(u) as real * Exp2(Scale(u))
  }

  /** The number a non-NaN encoding stands for (infinities stand for +-2^128). */
  ghost function Value(u: Bits32): real
    requires !IsNaN(u)
  {
    if SignOf(u) then -Mag(MagOf(u)) else Mag(MagOf(u))
  }

  ghost function Abs(x: real): real { if x < 0.0 then -x else x }

  /** No non-NaN encoding is closer to x than z.  Because infinity stands for 2^128,
      this also is the overflow threshold of IEEE 754-2008 section 4.3.1. */
  ghost predicate Nearest(x: real, z: Bits32)
    requires !IsNaN(z)
  {
    forall v: Bits32 | !IsNaN(v) :: Abs(Value(z) - x) <= Abs(Value(v) - x)
  }

  /** v is at the same distance from x as z, but on the other side. */
  ghost predicate Tie(x: real, z: Bits32, v: Bits32)
    requires !IsNaN(z) && !IsNaN(v)
  {
    Value(v) != Value(z) && Abs(Value(v) - x) == Abs(Value(z) - x)
  }

  /** z is the correct rounding of the real number x in the given mode. */
  ghost predicate Rounds(mode: Mode, x: real, z: Bits32) {
    && !IsNaN(z)
    && (x > 0.0 ==> !SignOf(z))
    && (x < 0.0 ==> SignOf(z))
    && match mode
       case NearEven =>
         Nearest(x, z) && forall v: Bits32 | !IsNaN(v) && Tie(x, z, v) :: z % 2 == 0
       case NearMaxMag =>
         Nearest(x, z) && forall v: Bits32 | !IsNaN(v) && Tie(x, z, v) :: Abs(Value(v)) < Abs(Value(z))
       case MinMag =>
         && IsFinite(z) && Abs(Value(z)) <= Abs(x)
         && forall v: Bits32 | IsFinite(v) && Abs(Value(v)) <= Abs(x) :: Abs(Value(v)) <= Abs(Value(z))
       case Min =>
         && (IsInf(z) ==> SignOf(z)) && (IsFinite(z) ==> Value(z) <= x)
         && forall v: Bits32 | IsFinite(v) && Value(v) <= x :: Value(v) <= Value(z)
       case Max =>
         && (IsInf(z) ==> !SignOf(z)) && (IsFinite(z) ==> x <= Value(z))
         && forall v: Bits32 | IsFinite(v) && x <= Value(v) :: Value(z) <= Value(v)
  }

  // ---------------------------------------------------------------- magnitudes

  /** The significand may run up to and including 2^24: packing g (hidden bit
      included) over exponent field e gives g units of size 2^(e-149), and the
      carry into the exponent at g == 2^24 is the right number. */
  lemma PackMag(e: int, g: int)
    requires 0 <= e <= 0xFD && 0 <= g <= 0x100_0000
    requires e > 0 ==> g >= 0x80_0000
    ensures 0 <= e * 0x80_0000 + g <= INF
    ensures Mag(e * 0x80_0000 + g) == g as real * Exp2(e - 149)
  {
    var p := Exp2(e - 149);
    var u := e * 0x80_0000 + g;
    if g == 0x100_0000 {
      assert u == (e + 2) * 0x80_0000;
      assert Significand(u) == 0x80_0000 && Scale(u) == e - 148;
      Exp2Step(e - 149);
      Halve(0x80_0000 as real, p);
    } else if g < 0x80_0000 {
      assert Significand(u) == g && Scale(u) == e - 149;
    } else {
      assert u == (e + 1) * 0x80_0000 + (g - 0x80_0000);
      assert Significand(u) == g && Scale(u) == e - 149;
    }
  }

  lemma Halve(a: real, p: real)
    ensures a * (2.0 * p) == (2.0 * a) * p
  {
  }

  lemma Unpack(u: int) returns (e: int, g: int)
    requires 0 <= u < INF
    ensures 0 <= e <= 0xFD && 0 <= g < 0x100_0000 && (e > 0 ==> g >= 0x80_0000)
    ensures u == e * 0x80_0000 + g
  {
    e := if u < 0x80_0000 then 0 else u / 0x80_0000 - 1;
    g := u - e * 0x80_0000;
  }

  /** Counting encodings upwards counts representable magnitudes upwards. */
  lemma MagStep(u: int)
    requires 0 <= u < INF
    ensures Mag(u) < Mag(u + 1)
  {
    hide Mag;
    var e, g := Unpack(u);
    PackMag(e, g);
    PackMag(e, g + 1);
    MulLess(g as real, (g + 1) as real, Exp2(e - 149));
  }

  lemma {:induction false} MagMono(u: int, v: int)
    requires 0 <= u < v <= INF
    ensures Mag(u) < Mag(v)
    decreases v - u
  {
    MagStep(v - 1);
    if u < v - 1 {
      MagMono(u, v - 1);
    }
  }

  /** Only the two zeros share a value, so rounding determines the encoding. */
  lemma ValueInjective(u: Bits32, v: Bits32)
    requires !IsNaN(u) && !IsNaN(v) && Value(u) == Value(v)
    ensures MagOf(u) == MagOf(v)
    ensures SignOf(u) == SignOf(v) || MagOf(u) == 0
  {
    var a, b := MagOf(u), MagOf(v);
    assert Mag(0) == 0.0;
    if a < b { MagMono(a, b); } else if b < a { MagMono(b, a); }
    if a > 0 { MagMono(0, a); }
    if b > 0 { MagMono(0, b); }
  }
}
