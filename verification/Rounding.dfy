/** From "the exact magnitude lies between two neighbouring encodings" to "this
    encoding is the correct rounding", for every mode and sign. */
module Rounding {
  import opened Binary32

  /** A real number with the given sign bit and magnitude. */
  ghost function Signed(sign: bool, m: real): real { if sign then -m else m }

  /** The encoding with the given sign bit and magnitude bits. */
  function WithSign(sign: bool, w: int): (z: Bits32)
    requires 0 <= w <= INF
    ensures MagOf(z) == w && SignOf(z) == sign && z % 2 == w % 2 && !IsNaN(z)
  {
    (if sign then SIGN else 0) + w
  }

  predicate RoundsAway(mode: Mode, sign: bool) {
    (mode == Min && sign) || (mode == Max && !sign)
  }

  predicate RoundsNear(mode: Mode) { mode == NearEven || mode == NearMaxMag }

  /** Which of the neighbours u and u + 1 the mode picks for a magnitude m that
      lies between theirs. */
  ghost predicate Picks(mode: Mode, sign: bool, m: real, u: int, w: int)
    requires 0 <= u < INF
  {
    var twice := Mag(u) + Mag(u + 1);
    if m == Mag(u) then w == u
    else if RoundsNear(mode) then
      if 2.0 * m < twice then w == u
      else if 2.0 * m > twice then w == u + 1
      else if mode == NearMaxMag then w == u + 1
      else w == u + u % 2
    else w == if RoundsAway(mode, sign) then u + 1 else u
  }

  /** Nothing representable lies strictly between neighbours. */
  lemma Gap(u: int, v: int)
    requires 0 <= u < INF && 0 <= v <= INF
    ensures v <= u ==> Mag(v) <= Mag(u) < Mag(u + 1)
    ensures v < u ==> Mag(v) < Mag(u)
    ensures v > u ==> Mag(u) < Mag(u + 1) <= Mag(v)
    ensures v > u + 1 ==> Mag(u + 1) < Mag(v)
  {
    hide Mag;
    MagMono(u, u + 1);
    if v < u { MagMono(v, u); }
    if v > u + 1 { MagMono(u + 1, v); }
  }

  lemma {:induction false} ValueIsSignedMag(v: Bits32)
    requires !IsNaN(v)
    ensures 0 <= MagOf(v) <= INF
    ensures Abs(Value(v)) == Mag(MagOf(v)) && Value(v) == Signed(SignOf(v), Mag(MagOf(v)))
  {
    hide Mag;
  }

  /** The distance of x to an encoding is at least the distance of the magnitudes,
      with equality only when the signs agree or one of the two is zero. */
  lemma Distances(sign: bool, m: real, v: Bits32)
    requires m >= 0.0 && !IsNaN(v)
    ensures var d := Abs(Value(v) - Signed(sign, m));
            && d >= Abs(Mag(MagOf(v)) - m)
            && (SignOf(v) == sign ==> d == Abs(Mag(MagOf(v)) - m))
            && (SignOf(v) != sign && d == Abs(Mag(MagOf(v)) - m) ==> m == 0.0 || Mag(MagOf(v)) == 0.0)
  {
    hide Mag;
  }

  lemma NearestMag(mode: Mode, sign: bool, m: real, u: int, w: int)
    requires 0 <= u < INF && Mag(u) <= m < Mag(u + 1) && RoundsNear(mode)
    requires Picks(mode, sign, m, u, w)
    ensures Nearest(Signed(sign, m), WithSign(sign, w))
  {
    hide Mag;
    var z := WithSign(sign, w);
    Distances(sign, m, z);
    forall v: Bits32 | !IsNaN(v)
      ensures Abs(Value(z) - Signed(sign, m)) <= Abs(Value(v) - Signed(sign, m))
    {
      Distances(sign, m, v);
      Gap(u, MagOf(v));
    }
  }

  lemma MagZero(u: int)
    requires 0 <= u <= INF
    ensures Mag(0) == 0.0
    ensures Mag(u) == 0.0 ==> u == 0
  {
    if u > 0 { MagMono(0, u); }
  }

  lemma TieBreaks(mode: Mode, sign: bool, m: real, u: int, w: int, v: Bits32)
    requires 0 <= u < INF && Mag(u) <= m < Mag(u + 1) && RoundsNear(mode)
    requires Picks(mode, sign, m, u, w) && !IsNaN(v)
    requires Tie(Signed(sign, m), WithSign(sign, w), v)
    ensures mode == NearEven ==> w % 2 == 0
    ensures mode == NearMaxMag ==> Abs(Value(v)) < Mag(w)
  {
    hide Mag;
    var z := WithSign(sign, w);
    Distances(sign, m, z);
    Distances(sign, m, v);
    Gap(u, MagOf(v));
    MagZero(MagOf(v));
    MagZero(w);
    ValueIsSignedMag(v);
  }

  lemma RoundsNearest(mode: Mode, sign: bool, m: real, u: int, w: int)
    requires 0 <= u < INF && Mag(u) <= m < Mag(u + 1) && RoundsNear(mode)
    requires Picks(mode, sign, m, u, w)
    ensures Rounds(mode, Signed(sign, m), WithSign(sign, w))
  {
    hide Mag;
    var x, z := Signed(sign, m), WithSign(sign, w);
    NearestMag(mode, sign, m, u, w);
    ValueIsSignedMag(z);
    forall v: Bits32 | !IsNaN(v) && Tie(x, z, v)
      ensures mode == NearEven ==> z % 2 == 0
      ensures mode == NearMaxMag ==> Abs(Value(v)) < Abs(Value(z))
    {
      TieBreaks(mode, sign, m, u, w, v);
    }
  }

  lemma RoundsDirected(mode: Mode, sign: bool, m: real, u: int, w: int)
    requires 0 <= u < INF && Mag(u) <= m < Mag(u + 1) && !RoundsNear(mode)
    requires Picks(mode, sign, m, u, w)
    ensures Rounds(mode, Signed(sign, m), WithSign(sign, w))
  {
    hide Mag;
    var z := WithSign(sign, w);
    ValueIsSignedMag(z);
    forall v: Bits32 | IsFinite(v)
      ensures Abs(Value(v)) == Mag(MagOf(v)) && Value(v) == Signed(SignOf(v), Mag(MagOf(v)))
      ensures Mag(MagOf(v)) <= Mag(u) || Mag(MagOf(v)) >= Mag(u + 1)
    {
      ValueIsSignedMag(v);
      Gap(u, MagOf(v));
    }
  }

  lemma RoundsBetween(mode: Mode, sign: bool, m: real, u: int, w: int)
    requires 0 <= u < INF && Mag(u) <= m < Mag(u + 1)
    requires Picks(mode, sign, m, u, w)
    ensures Rounds(mode, Signed(sign, m), WithSign(sign, w))
  {
    if RoundsNear(mode) {
      RoundsNearest(mode, sign, m, u, w);
    } else {
      RoundsDirected(mode, sign, m, u, w);
    }
  }

  /** Beyond the largest binade the result is infinity or the largest finite number. */
  lemma RoundsOverflow(mode: Mode, sign: bool, m: real)
    requires m >= Mag(INF)
    ensures Rounds(mode, Signed(sign, m),
                   WithSign(sign, if RoundsNear(mode) || RoundsAway(mode, sign) then INF else MAXF))
  {
    hide Mag;
    var x := Signed(sign, m);
    var w := if RoundsNear(mode) || RoundsAway(mode, sign) then INF else MAXF;
    var z := WithSign(sign, w);
    MagZero(INF);
    ValueIsSignedMag(z);
    Distances(sign, m, z);
    forall v: Bits32 | !IsNaN(v)
      ensures Abs(Value(v)) == Mag(MagOf(v)) && Value(v) == Signed(SignOf(v), Mag(MagOf(v)))
      ensures MagOf(v) < INF ==> Mag(MagOf(v)) <= Mag(MAXF) < Mag(INF)
      ensures RoundsNear(mode) ==> Abs(Value(z) - x) <= Abs(Value(v) - x)
      ensures RoundsNear(mode) ==> !Tie(x, z, v)
    {
      OverflowRival(mode, sign, m, z, v);
    }
  }

  /** No other encoding is nearer to a number beyond the largest binade. */
  lemma OverflowRival(mode: Mode, sign: bool, m: real, z: Bits32, v: Bits32)
    requires m >= Mag(INF) && !IsNaN(v)
    requires z == WithSign(sign, if RoundsNear(mode) || RoundsAway(mode, sign) then INF else MAXF)
    ensures Abs(Value(v)) == Mag(MagOf(v)) && Value(v) == Signed(SignOf(v), Mag(MagOf(v)))
    ensures MagOf(v) < INF ==> Mag(MagOf(v)) <= Mag(MAXF) < Mag(INF)
    ensures RoundsNear(mode) ==> Abs(Value(z) - Signed(sign, m)) <= Abs(Value(v) - Signed(sign, m)) && !Tie(Signed(sign, m), z, v)
  {
    hide Mag;
    MagZero(INF);
    ValueIsSignedMag(z);
    Distances(sign, m, z);
    ValueIsSignedMag(v);
    Distances(sign, m, v);
    Gap(MAXF, MagOf(v));
    MagZero(MagOf(v));
  }

  /** A representable number rounds to itself. */
  lemma RoundsExact(mode: Mode, sign: bool, u: int)
    requires 0 <= u < INF
    ensures Rounds(mode, Signed(sign, Mag(u)), WithSign(sign, u))
    ensures Value(WithSign(sign, u)) == Signed(sign, Mag(u))
  {
    hide Mag;
    Gap(u, u);
    RoundsBetween(mode, sign, Mag(u), u, u);
    ValueIsSignedMag(WithSign(sign, u));
  }

  // ------------------------------------------------- existence and uniqueness

  /** The converse of RoundsBetween: a correct rounding is the neighbour picked. */
  lemma NearestPicks(mode: Mode, m: real, u: int, z: Bits32)
    requires 0 <= u < INF && Mag(u) <= m < Mag(u + 1) && RoundsNear(mode)
    requires !IsNaN(z) && Rounds(mode, Signed(SignOf(z), m), z)
    ensures Picks(mode, SignOf(z), m, u, MagOf(z))
  {
    hide Mag;
    var sign, w := SignOf(z), MagOf(z);
    var lo, hi := WithSign(sign, u), WithSign(sign, u + 1);
    Distances(sign, m, z);
    Distances(sign, m, lo);
    Distances(sign, m, hi);
    ValueIsSignedMag(z);
    ValueIsSignedMag(lo);
    ValueIsSignedMag(hi);
    Gap(u, w);
    assert w == u || w == u + 1;
    var other := if w == u then hi else lo;
    assert 2.0 * m == Mag(u) + Mag(u + 1) ==> Tie(Signed(sign, m), z, other);
  }

  lemma DirectedPicks(mode: Mode, m: real, u: int, z: Bits32)
    requires 0 <= u < INF && Mag(u) <= m < Mag(u + 1) && !RoundsNear(mode)
    requires !IsNaN(z) && Rounds(mode, Signed(SignOf(z), m), z)
    ensures Picks(mode, SignOf(z), m, u, MagOf(z))
  {
    hide Mag;
    var sign, w := SignOf(z), MagOf(z);
    var lo, hi := WithSign(sign, u), WithSign(sign, u + 1);
    ValueIsSignedMag(z);
    ValueIsSignedMag(lo);
    ValueIsSignedMag(hi);
    Gap(u, w);
    assert IsFinite(lo);
    if w == INF { Gap(u, INF); }
  }

  /** Every magnitude below 2^128 lies between two neighbouring encodings. */
  lemma {:induction false} Bracket(m: real, hi: int) returns (u: int)
    requires 0 < hi <= INF && 0.0 <= m < Mag(hi)
    ensures 0 <= u < hi && Mag(u) <= m < Mag(u + 1)
    decreases hi
  {
    hide Mag;
    MagZero(0);
    if Mag(hi - 1) <= m {
      u := hi - 1;
    } else {
      u := Bracket(m, hi - 1);
    }
  }

  lemma OverflowUnique(mode: Mode, m: real, z: Bits32)
    requires m >= Mag(INF) && !IsNaN(z) && Rounds(mode, Signed(SignOf(z), m), z)
    ensures MagOf(z) == if RoundsNear(mode) || RoundsAway(mode, SignOf(z)) then INF else MAXF
  {
    hide Mag;
    var sign, w := SignOf(z), MagOf(z);
    var inf, max := WithSign(sign, INF), WithSign(sign, MAXF);
    Distances(sign, m, z);
    Distances(sign, m, inf);
    ValueIsSignedMag(z);
    ValueIsSignedMag(inf);
    ValueIsSignedMag(max);
    Gap(MAXF, w);
    if w < MAXF { Gap(w, MAXF); MagMono(w, MAXF); }
    assert IsFinite(max);
  }

  lemma SignOfRounding(mode: Mode, x: real, z: Bits32)
    requires Rounds(mode, x, z)
    ensures !IsNaN(z) && x == Signed(SignOf(z), Abs(x))
  {
    hide Mag;
  }

  /** Correct rounding leaves no choice but the sign of a zero. */
  lemma RoundsUnique(mode: Mode, x: real, z: Bits32, z': Bits32)
    requires Rounds(mode, x, z) && Rounds(mode, x, z')
    ensures MagOf(z) == MagOf(z') && (x != 0.0 ==> z == z')
  {
    hide Mag, Nearest, Tie;
    SignOfRounding(mode, x, z);
    SignOfRounding(mode, x, z');
    var m := Abs(x);
    if m >= Mag(INF) {
      OverflowUnique(mode, m, z);
      OverflowUnique(mode, m, z');
      MagZero(INF);
    } else {
      var u := Bracket(m, INF);
      PicksOf(mode, m, u, z);
      PicksOf(mode, m, u, z');
      MagZero(u);
      Gap(0, u);
    }
  }

  lemma PicksOf(mode: Mode, m: real, u: int, z: Bits32)
    requires 0 <= u < INF && Mag(u) <= m < Mag(u + 1)
    requires !IsNaN(z) && Rounds(mode, Signed(SignOf(z), m), z)
    ensures Picks(mode, SignOf(z), m, u, MagOf(z))
  {
    hide Mag;
    if RoundsNear(mode) {
      NearestPicks(mode, m, u, z);
    } else {
      DirectedPicks(mode, m, u, z);
    }
  }

  /** Every real number has a correct rounding in every mode. */
  lemma RoundsExists(mode: Mode, x: real)
    ensures exists z: Bits32 :: Rounds(mode, x, z)
  {
    hide Mag;
    var sign, m := x < 0.0, Abs(x);
    if m >= Mag(INF) {
      RoundsOverflow(mode, sign, m);
    } else {
      var u := Bracket(m, INF);
      var twice := Mag(u) + Mag(u + 1);
      var up := m > Mag(u) &&
        if RoundsNear(mode) then 2.0 * m > twice || (2.0 * m == twice && (mode == NearMaxMag || u % 2 == 1))
        else RoundsAway(mode, sign);
      RoundsBetween(mode, sign, m, u, if up then u + 1 else u);
    }
  }
}
