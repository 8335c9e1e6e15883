/** Facts about multiplication and division by a variable. */
module Arithmetic {
  lemma MulMonotone(x: int, y: int, n: nat)
    ensures x <= y ==> x * n <= y * n
  {
  }

  lemma DivExact(x: nat, y: nat)
    requires y > 0
    ensures (x * y) / y == x
  {
    var q := (x * y) / y;
    assert q * y <= x * y < (q + 1) * y;
    MulMonotone(q + 1, x, y);
    MulMonotone(x + 1, q, y);
  }

  lemma ModExact(x: nat, y: nat)
    requires y > 0
    ensures (x * y) % y == 0
  {
    DivExact(x, y);
    var n := x * y;
    assert n == (n / y) * y + n % y;
  }

  lemma DivTimes(n: nat, d: nat)
    requires d > 0
    ensures (n / d) * d <= n < (n / d) * d + d
  {
  }

  /** A quotient is at most q when the dividend is at most q times the divisor. */
  lemma DivAtMost(n: nat, d: nat, q: nat)
    requires d > 0 && n <= q * d
    ensures n / d <= q
  {
    DivTimes(n, d);
    MulMonotone(q + 1, n / d, d);
    assert (q + 1) * d == q * d + d;
  }

  /** A quotient is at least q when the dividend is at least q times the divisor. */
  lemma DivAtLeast(n: nat, d: nat, q: nat)
    requires d > 0 && q * d <= n
    ensures q <= n / d
  {
    DivTimes(n, d);
    MulMonotone(n / d + 1, q, d);
    assert (n / d + 1) * d == (n / d) * d + d;
  }
}
