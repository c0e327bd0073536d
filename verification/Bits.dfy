/** The bitwise or of two numbers; on disjoint bit ranges it is their sum. */
module Bits {
  import opened Numerals

  function Or(x: nat, y: nat): nat {
    if x == 0 && y == 0 then 0
    else 2 * Or(x / 2, y / 2) + if x % 2 == 1 || y % 2 == 1 then 1 else 0
  }

  lemma OrZero(x: nat)
    ensures Or(x, 0) == x && Or(0, x) == x
  {
  }

  lemma OrCommutes(x: nat, y: nat)
    ensures Or(x, y) == Or(y, x)
  {
  }

  /** An or is zero only when both operands are. */
  lemma OrIsZero(x: nat, y: nat)
    ensures Or(x, y) == 0 <==> x == 0 && y == 0
  {
  }

  /** Or-ing k low bits into a number shifted left by k adds them. */
  lemma {:induction false} OrShifted(x: nat, y: nat, k: nat)
    requires y < Pow(2, k)
    ensures Or(x * Pow(2, k), y) == x * Pow(2, k) + y
  {
    if k == 0 {
      OrZero(x);
    } else {
      var p := Pow(2, k - 1);
      assert x * Pow(2, k) == 2 * (x * p);
      OrShifted(x, y / 2, k - 1);
      OrHalves(x * p, y);
    }
  }

  lemma OrHalves(v: nat, y: nat)
    ensures Or(2 * v, y) == 2 * Or(v, y / 2) + y % 2
  {
    assert (2 * v) / 2 == v && (2 * v) % 2 == 0;
  }
}
