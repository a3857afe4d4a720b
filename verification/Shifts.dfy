/** Left and right shifts of natural numbers, and the facts about them that tree code needs. */
module Shifts {

  /** `x << k` */
  function Shl(x: nat, k: nat): (r: nat)
    ensures r >= x
    ensures x == 0 ==> r == 0
  {
    if k == 0 then x else 2 * Shl(x, k - 1)
  }

  /** `x >> k` */
  function Shr(x: nat, k: nat): (r: nat)
    ensures r <= x
  {
    if k == 0 then x else Shr(x, k - 1) / 2
  }

  lemma {:induction false} ShlDouble(x: nat, k: nat)
    ensures Shl(2 * x, k) == Shl(x, k + 1)
  {
    if k > 0 { ShlDouble(x, k - 1); }
  }

  lemma {:induction false} ShlAdd(x: nat, y: nat, k: nat)
    ensures Shl(x + y, k) == Shl(x, k) + Shl(y, k)
  {
    if k > 0 { ShlAdd(x, y, k - 1); }
  }

  /** Shifting right is the upper adjoint of shifting left. */
  lemma {:induction false} ShrAdjoint(y: nat, p: nat, k: nat)
    ensures p <= Shr(y, k) <==> Shl(p, k) <= y
    decreases k
  {
    if k > 0 {
      ShrAdjoint(y, 2 * p, k - 1);
      ShlDouble(p, k - 1);
    }
  }

  lemma {:induction false} ShlMonotone(x: nat, y: nat, k: nat)
    requires x <= y
    ensures Shl(x, k) <= Shl(y, k)
  {
    if k > 0 { ShlMonotone(x, y, k - 1); }
  }
}
