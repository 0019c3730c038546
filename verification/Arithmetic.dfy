/** Powers of two, and rounding down to their multiples. */
module Arithmetic {

  function Pow2(n: nat): (p: nat)
    ensures p > 0
  {
    if n == 0 then 1 else 2 * Pow2(n - 1)
  }

  lemma DivModUnique(x: int, n: int, q: int, r: int)
    requires n > 0 && 0 <= r < n && x == q * n + r
    ensures x / n == q && x % n == r
  {
    var d := x / n - q;
    assert n * d == r - x % n;
    assert d >= 1 ==> n * d >= n;
    assert d <= -1 ==> n * d <= -n;
  }

  /** Rounding x down to a multiple of 2 * m rounds x / 2 down to a multiple of m. */
  lemma RoundTwice(x: nat, m: nat)
    requires m > 0
    ensures x / (2 * m) * (2 * m) == 2 * (x / 2 / m * m)
  {
    var q := x / 2 / m;
    var r := x / 2 - q * m;
    assert x == q * (2 * m) + (2 * r + x % 2);
    DivModUnique(x, 2 * m, q, 2 * r + x % 2);
  }
}
