/** Bitwise or on natural numbers, and when it adds. */
module Bitwise {
  import opened Powers

  function Or(x: nat, y: nat): (r: nat) {
    if x == 0 then y else if y == 0 then x
    else (if x % 2 == 1 || y % 2 == 1 then 1 else 0) + 2 * Or(x / 2, y / 2)
  }

  lemma {:induction false} OrBound(x: nat, y: nat, n: nat)
    requires x < Pow2(n) && y < Pow2(n)
    ensures Or(x, y) < Pow2(n)
  {
    if x != 0 && y != 0 {
      OrBound(x / 2, y / 2, n - 1);
    }
  }

  lemma {:induction false} OrCommutes(x: nat, y: nat)
    ensures Or(x, y) == Or(y, x)
  {
    if x != 0 && y != 0 {
      OrCommutes(x / 2, y / 2);
    }
  }

  lemma {:induction false} OrAssociates(x: nat, y: nat, z: nat)
    ensures Or(Or(x, y), z) == Or(x, Or(y, z))
  {
    if x != 0 && y != 0 && z != 0 {
      OrAssociates(x / 2, y / 2, z / 2);
      OrHalves(x, y);
      OrHalves(y, z);
      OrHalves(Or(x, y), z);
      OrHalves(x, Or(y, z));
    }
  }

  /** The lowest bit and the others, one by one. */
  lemma OrHalves(x: nat, y: nat)
    ensures Or(x, y) % 2 == (if x % 2 == 1 || y % 2 == 1 then 1 else 0) && Or(x, y) / 2 == Or(x / 2, y / 2)
  {
  }

  /** Bits below c and bits from c up do not overlap, so or-ing adds. */
  lemma {:induction false} OrDisjoint(x: nat, y: nat, c: nat)
    requires x < Pow2(c) && y % Pow2(c) == 0
    ensures Or(x, y) == x + y
  {
    if x != 0 && y != 0 {
      var p := Pow2(c - 1);
      var k := y / (2 * p);
      assert y == k * (2 * p);
      assert y == 2 * (k * p);
      DivModUnique(k, 0, p);
      assert y / 2 == k * p;
      OrDisjoint(x / 2, y / 2, c - 1);
    }
  }
}
