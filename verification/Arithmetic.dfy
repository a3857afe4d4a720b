/** Widths of numbers, and products, quotients and remainders of variables, one step at a time. */
module Arithmetic {

  const TWO32: int := 0x1_0000_0000
  const TWO63: int := 0x8000_0000_0000_0000
  const TWO64: int := 0x1_0000_0000_0000_0000

  function Pow2(k: nat): (r: nat)
    ensures r >= 1
  {
    if k == 0 then 1 else 2 * Pow2(k - 1)
  }

  lemma Distribute(k: int, x: int, y: int)
    ensures k * (x + y) == k * x + k * y
  {
  }

  lemma Scale(k: nat, x: int, y: int)
    requires x <= y
    ensures k * x <= k * y
  {
  }

  lemma DivUnique(x: nat, d: nat, q: nat, r: nat)
    requires r < d && x == d * q + r
    ensures x / d == q && x % d == r
  {
    if x / d < q {
      Scale(d, x / d + 1, q);
      Distribute(d, x / d, 1);
    } else if x / d > q {
      Scale(d, q + 1, x / d);
      Distribute(d, q, 1);
    }
  }

  lemma ModMultiple(x: nat, m: nat, k: nat)
    requires m > 0
    ensures (x + m * k) % m == x % m
  {
    Distribute(m, x / m, k);
    DivUnique(x + m * k, m, x / m + k, x % m);
  }

  /** A remainder may be taken before a multiplication and an addition as well as after. */
  lemma ModLinear(x: nat, m: nat, k: nat, d: nat)
    requires m > 0
    ensures (x % m * k + d) % m == (x * k + d) % m
  {
    ModParts(x, m, k, d, x / m, x % m);
  }

  lemma ModParts(x: nat, m: nat, k: nat, d: nat, q: nat, r: nat)
    requires m > 0 && x == m * q + r
    ensures (r * k + d) % m == (x * k + d) % m
  {
    var low, high := r * k + d, k * q;
    assert x * k + d == low + m * high by { Multiplied(k, m, q, r); }
    ModMultiple(low, m, high);
  }

  lemma Multiplied(k: int, m: int, q: int, r: int)
    ensures (m * q + r) * k == r * k + m * (k * q)
  {
    Distribute(k, m * q, r);
    Swap(k, m, q);
  }

  lemma Swap(a: int, b: int, c: int)
    ensures a * (b * c) == b * (a * c)
  {
  }
}
