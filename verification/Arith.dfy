/** Division facts that the other modules share. */
module Arith {
  lemma Cancel(d: nat, a: int, b: int)
    requires d > 0
    ensures d * a < d * b <==> a < b
    ensures d * (a + 1) == d * a + d && d * (b + 1) == d * b + d
  {
    if a < b { MulOrder(d, a + 1, b); } else { MulOrder(d, b, a); }
  }

  lemma MulOrder(d: nat, a: int, b: int)
    requires a <= b
    ensures d * a <= d * b
  {
    assert d * b - d * a == d * (b - a);
  }

  lemma FloorMod(a: int, d: nat)
    requires d > 0
    ensures d * (a / d) <= a <= d * (a / d) + d - 1 && a == d * (a / d) + a % d
  {
  }

  /** The quotient is the only number that fits. */
  lemma Quotient(x: int, d: nat, k: int)
    requires d > 0 && d * k <= x < d * k + d
    ensures x / d == k && x % d == x - d * k
  {
    assert x == d * (x / d) + x % d;
    Cancel(d, x / d, k + 1);
    Cancel(d, k, x / d + 1);
  }

  lemma QuotientOrder(a: int, b: int, d: nat)
    requires d > 0 && a <= b
    ensures a / d <= b / d
  {
    assert a == d * (a / d) + a % d && b == d * (b / d) + b % d;
    Cancel(d, a / d, b / d + 1);
  }

  function Pow2(k: nat): (p: nat)
    ensures p > 0
  {
    if k == 0 then 1 else 2 * Pow2(k - 1)
  }

  lemma {:induction false} PowerMonotone(k: nat, n: nat)
    requires k <= n
    ensures Pow2(k) <= Pow2(n) && (k < n ==> Pow2(k) < Pow2(n))
    decreases n
  {
    if k < n { PowerMonotone(k, n - 1); }
  }
}
