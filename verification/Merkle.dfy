/**
 Merkle trees over a list of transaction ids.

 `NodeHash` is the reference definition of a tree node.  The flat array that a block
 stores, Merkle branches and partial Merkle trees are all stated against it.  The hash
 of two digests is a parameter `h`, so every result holds for every hash function;
 where collision resistance matters, it is a hypothesis on `h`.
 */
module Merkle {
  import opened Shifts

  /** No two different pairs of digests have the same hash. */
  ghost predicate Injective<D(!new)>(h: (D, D) -> D) {
    forall a, b, c, d :: h(a, b) == h(c, d) ==> a == c && b == d
  }

  /** The number of nodes at the given height above `n` leaves. */
  function TreeWidth(n: nat, height: nat): nat {
    Shr(n + Shl(1, height) - 1, height)
  }

  /** A node exists exactly when its leftmost leaf does. */
  lemma NodeExists(n: nat, height: nat, pos: nat)
    ensures pos < TreeWidth(n, height) <==> Shl(pos, height) < n
  {
    ShrAdjoint(n + Shl(1, height) - 1, pos + 1, height);
    ShlAdd(pos, 1, height);
  }

  lemma ChildExists(n: nat, height: nat, pos: nat)
    requires height > 0 && pos < TreeWidth(n, height)
    ensures 2 * pos < TreeWidth(n, height - 1)
  {
    NodeExists(n, height, pos);
    NodeExists(n, height - 1, 2 * pos);
    ShlDouble(pos, height - 1);
  }

  /** The widths of successive levels halve, rounding up. */
  lemma WidthHalves(n: nat, height: nat)
    ensures TreeWidth(n, height + 1) == (TreeWidth(n, height) + 1) / 2
  {
    var w, v := TreeWidth(n, height), TreeWidth(n, height + 1);
    if v > 0 {
      ChildExists(n, height + 1, v - 1);
    }
    NodeExists(n, height + 1, v);
    NodeExists(n, height, 2 * v);
    ShlDouble(v, height);
  }

  /** The height at which only the root is left. */
  function TreeHeight(n: nat): (height: nat)
    ensures TreeWidth(n, height) <= 1
    ensures n > 0 ==> TreeWidth(n, height) == 1
    ensures forall k: nat :: k < height ==> TreeWidth(n, k) > 1
  {
    HeightFrom(n, 0)
  }

  function HeightFrom(n: nat, k: nat): (height: nat)
    requires forall j: nat :: j < k ==> TreeWidth(n, j) > 1
    ensures height >= k
    ensures TreeWidth(n, height) <= 1
    ensures n > 0 ==> TreeWidth(n, height) == 1
    ensures forall j: nat :: j < height ==> TreeWidth(n, j) > 1
    decreases TreeWidth(n, k)
  {
    WidthHalves(n, k);
    NodeExists(n, k, 0);
    if TreeWidth(n, k) <= 1 then k else HeightFrom(n, k + 1)
  }

  /** The hash of a tree node: a txid at height 0, otherwise the hash of its children, where
      a missing right child counts as a copy of the left one. */
  function NodeHash<D>(h: (D, D) -> D, txids: seq<D>, height: nat, pos: nat): D
    requires pos < TreeWidth(|txids|, height)
    decreases height
  {
    if height == 0 then txids[pos] else
      ChildExists(|txids|, height, pos);
      var left := NodeHash(h, txids, height - 1, 2 * pos);
      var right :=
        if 2 * pos + 1 < TreeWidth(|txids|, height - 1)
        then NodeHash(h, txids, height - 1, 2 * pos + 1)
        else left;
      h(left, right)
  }

  function Root<D>(h: (D, D) -> D, txids: seq<D>): D
    requires txids != []
  {
    NodeHash(h, txids, TreeHeight(|txids|), 0)
  }
}
