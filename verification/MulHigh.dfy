/** The high half of a 64 by 64 bit product, from 32-bit pieces. */
module MulHigh {
  import opened Powers

  const W: int := 0x1_0000_0000
  const D: int := 0x1_0000_0000_0000_0000
  const H: int := 0x8000_0000_0000_0000

  type UInt64 = x: int | 0 <= x < D
  type Int64 = x: int | -H <= x < H

  /** Reinterpreting 64 bits as signed. */
  function ToSigned(x: UInt64): (s: Int64) { if x < H then x else x - D }

  lemma HalfProduct(x: int, y: int)
    requires 0 <= x < W && 0 <= y < W
    ensures 0 <= x * y <= (W - 1) * (W - 1)
  {
    MulMonotone(x, y, W - 1);
    MulMonotone(W - 1, x, W - 1);
    MulMonotone(x, 0, y);
  }

  lemma Schoolbook(a: int, b: int, a0: int, a1: int, b0: int, b1: int)
    requires a == a1 * W + a0 && b == b1 * W + b0
    ensures a * b == a1 * b1 * D + (a1 * b0 + a0 * b1) * W + a0 * b0
  {
    assert (a1 * W + a0) * (b1 * W + b0)
        == (a1 * W) * (b1 * W) + (a1 * W) * b0 + a0 * (b1 * W) + a0 * b0;
  }

  /** The carries: no partial sum leaves 64 bits, and the last one is the high half. */
  lemma Carries(p11: int, p10: int, p01: int, p00: int, product: int)
    requires 0 <= p11 <= (W - 1) * (W - 1) && 0 <= p10 <= (W - 1) * (W - 1)
    requires 0 <= p01 <= (W - 1) * (W - 1) && 0 <= p00 <= (W - 1) * (W - 1)
    requires product == p11 * D + (p10 + p01) * W + p00
    ensures var t1 := p10 + p00 / W;
            var t2 := p01 + t1 % W;
            var t3 := p11 + t1 / W + t2 / W;
            && 0 <= t1 < D && 0 <= t2 < D && 0 <= t3 < D && t3 == product / D
  {
    Digit(p00);
    var t1 := p10 + p00 / W;
    Digit(t1);
    var t2 := p01 + t1 % W;
    Digit(t2);
    var t3 := p11 + t1 / W + t2 / W;
    var rest := t2 % W * W + p00 % W;
    assert product == t3 * D + rest;
    assert 0 <= rest < D;
    DivModUnique(t3, rest, D);
  }

  lemma Digit(x: int)
    requires 0 <= x <= (W - 1) * W
    ensures x == x / W * W + x % W && 0 <= x % W < W && 0 <= x / W <= W - 1
  {
  }

  /** mulhu: schoolbook multiplication whose truncations lose nothing. */
  method MulHU(a: UInt64, b: UInt64) returns (r: UInt64)
    ensures r == a * b / D
  {
    var a0, a1 := a % W, a / W;
    var b0, b1 := b % W, b / W;
    HalfProduct(a1, b1);
    HalfProduct(a1, b0);
    HalfProduct(a0, b1);
    HalfProduct(a0, b0);
    Schoolbook(a, b, a0, a1, b0, b1);
    Carries(a1 * b1, a1 * b0, a0 * b1, a0 * b0, a * b);
    var t: UInt64 := a1 * b0 + a0 * b0 / W;
    var y1, y2 := t % W, t / W;
    t := a0 * b1 + y1;
    y1 := t % W;
    t := a1 * b1 + y2 + t / W;
    y2 := t % W;
    var y3 := t / W;
    r := y3 * W + y2;
  }

  /** The high half of a negated product, from the high half of the product: one's
      complement, plus one exactly when the low half is zero. */
  lemma NegatedHigh(p: int, res: int)
    requires p >= 0 && res == p / D
    ensures -p / D == -1 - res + (if -p % D == 0 then 1 else 0)
    ensures -p % D == 0 <==> p % D == 0
  {
    var lo := p % D;
    assert p == res * D + lo;
    if lo == 0 {
      DivModUnique(-res, 0, D);
    } else {
      DivModUnique(-1 - res, D - lo, D);
    }
  }

  /** -x as the unsigned operand, also for the most negative value. */
  function Magnitude(x: Int64): UInt64 { if x < 0 then 0 - x else x }

  function Complement(x: UInt64): UInt64 { D - 1 - x }

  lemma HighRange(x: nat, y: nat)
    requires x <= H && y < D
    ensures 0 <= x * y / D <= H - 1
  {
    MulMonotone(x, y, D - 1);
    MulMonotone(D - 1, x, H);
    assert 0 <= x * y <= (D - 1) * H;
  }

  /** mulh: the high half of the signed product, the exact product divided by 2^64
      and rounded down. */
  method MulH(a: Int64, b: Int64) returns (r: Int64)
    ensures r == a * b / D
  {
    var negate := (a < 0) != (b < 0);
    var res := MulHU(Magnitude(a), Magnitude(b));
    ghost var p := Magnitude(a) * Magnitude(b);
    HighRange(Magnitude(a), Magnitude(b));
    assert a * b == if negate then -p else p;
    NegatedHigh(p, res);
    if negate {
      r := ToSigned((Complement(res) + (if a * b % D == 0 then 1 else 0)) % D);
    } else {
      r := ToSigned(res);
    }
  }

  /** mulhsu: signed by unsigned. */
  method MulHSU(a: Int64, b: UInt64) returns (r: Int64)
    ensures r == a * b / D
  {
    var negate := a < 0;
    var res := MulHU(Magnitude(a), b);
    ghost var p := Magnitude(a) * b;
    HighRange(Magnitude(a), b);
    assert a * b == if negate then -p else p;
    NegatedHigh(p, res);
    if negate {
      r := ToSigned((Complement(res) + (if a * b % D == 0 then 1 else 0)) % D);
    } else {
      r := ToSigned(res);
    }
  }
}
