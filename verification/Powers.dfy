/** Real powers of two with integer exponents of either sign, and integer powers
    of two, with the few laws the arithmetic proofs use. */
module Powers {

  /** 2 to the power e. */
  function Pow2(e: nat): (p: nat)
    ensures p >= 1
  {
    if e == 0 then 1 else 2 * Pow2(e - 1)
  }

  /** 2 to the power e, for any integer e. */
  ghost function Exp2(e: int): (p: real)
    ensures p > 0.0
    decreases if e < 0 then -e else e
  {
    if e == 0 then 1.0
    else if e > 0 then 2.0 * Exp2(e - 1)
    else Exp2(e + 1) / 2.0
  }

  lemma Exp2Step(e: int)
    ensures Exp2(e + 1) == 2.0 * Exp2(e)
  {
  }

  lemma {:induction false} Exp2Add(a: int, n: nat)
    ensures Exp2(a + n) == Exp2(a) * Pow2(n) as real
    decreases n
  {
    if n > 0 {
      Exp2Add(a, n - 1);
      Exp2Step(a + n - 1);
      var p := Pow2(n - 1) as real;
      assert Pow2(n) as real == 2.0 * p;
      assert 2.0 * (Exp2(a) * p) == Exp2(a) * (2.0 * p);
    } else {
      assert Exp2(a) * 1.0 == Exp2(a);
    }
  }

  lemma {:induction false} Exp2Mono(a: int, b: int)
    requires a <= b
    ensures Exp2(a) <= Exp2(b)
    decreases b - a
  {
    if a < b {
      Exp2Mono(a, b - 1);
      Exp2Step(b - 1);
    }
  }

  lemma {:induction false} Pow2Add(a: nat, b: nat)
    ensures Pow2(a + b) == Pow2(a) * Pow2(b)
    decreases b
  {
    if b > 0 {
      Pow2Add(a, b - 1);
      assert Pow2(a + b) == 2 * Pow2(a + b - 1);
    }
  }

  /** Multiplying by a positive real keeps the order. */
  lemma MulLess(a: real, b: real, p: real)
    requires a < b && p > 0.0
    ensures a * p < b * p
  {
    assert (b - a) * p > 0.0;
  }

  /** A product with a positive factor has the sign of the other factor. */
  lemma ProductSign(d: real, p: real, v: real)
    requires p > 0.0 && v == d * p
    ensures (v > 0.0 <==> d > 0.0) && (v == 0.0 <==> d == 0.0)
  {
    MulCompare(d, 0.0, p);
    MulCompare(0.0, d, p);
  }

  lemma MulCompare(a: real, b: real, p: real)
    requires p > 0.0
    ensures a * p < b * p <==> a < b
    ensures a * p == b * p <==> a == b
  {
    if a < b { MulLess(a, b, p); } else if b < a { MulLess(b, a, p); }
  }

  lemma {:induction false} RealMul(q: nat, p: int)
    ensures (q * p) as real == q as real * p as real
  {
    if q > 0 {
      RealMul(q - 1, p);
      assert q * p == (q - 1) * p + p;
      assert (q - 1) as real * p as real == q as real * p as real - p as real;
    }
  }

  // ------------------------------------------------------- division with remainder

  lemma MulBound(k: int, d: int)
    requires d > 0
    ensures k >= 1 ==> k * d >= d
    ensures k <= -1 ==> k * d <= -d
  {
    if k >= 1 {
      assert (k - 1) * d >= 0;
    } else if k <= -1 {
      assert (-k - 1) * d >= 0;
    }
  }

  lemma MulMonotone(f: nat, x: int, y: int)
    requires x <= y
    ensures f * x <= f * y
  {
    assert f * (y - x) >= 0;
  }

  lemma DivBound(x: nat, r: int, c: int)
    requires r > 0 && x < c * r
    ensures 0 <= x / r < c
  {
    var h := x / r;
    assert x == h * r + x % r;
    assert (c - h) * r == c * r - h * r;
    MulBound(c - h, r);
    MulBound(h, r);
  }

  /** A quotient and a remainder in range are the quotient and the remainder. */
  lemma DivModUnique(q: int, m: int, d: int)
    requires d > 0 && 0 <= m < d
    ensures (q * d + m) / d == q && (q * d + m) % d == m
  {
    var t := q * d + m;
    var k := q - t / d;
    assert t == t / d * d + t % d;
    assert k * d == t % d - m;
    MulBound(k, d);
  }

  lemma DivTwice(v: nat, a: nat, b: nat)
    requires a > 0 && b > 0
    ensures v / (a * b) == v / a / b
  {
    var q, r := v / a / b, v / a % b;
    assert v / a == q * b + r;
    assert v == v / a * a + v % a;
    assert v == (q * b + r) * a + v % a;
    assert (q * b + r) * a == q * (a * b) + r * a;
    MulMonotone(a, r + 1, b);
    assert a * (r + 1) == r * a + a;
    MulBound(a, b);
    DivModUnique(q, r * a + v % a, a * b);
  }

  lemma Pow2Values()
    ensures Pow2(6) == 64 && Pow2(7) == 128 && Pow2(8) == 256 && Pow2(31) == 0x8000_0000 && Pow2(32) == 0x1_0000_0000
  {
    var p1 := Pow2(1);
    var p8, p16 := Pow2(8), Pow2(16);
    Pow2Add(8, 8);
    assert p16 == 0x1_0000;
    Pow2Add(16, 16);
    assert Pow2(32) == 2 * Pow2(31);
  }
}
