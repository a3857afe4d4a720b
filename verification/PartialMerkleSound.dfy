/**
 What a received partial Merkle tree proves: src/main.cpp and src/main.h, CPartialMerkleTree.

 The bits, the hashes and the number of transactions are all received.  The shape of the
 traversal follows from that number, so a tree with the right root proves its matches only
 for some numbers; `Sound` says so for one number, and `SoundExactly` for which ones it holds.
 */
module PartialMerkleSound {
  import opened Transactions
  import opened Wrappers
  import opened Shifts
  import opened Merkle
  import opened PartialMerkle

  /** `picked` is the subsequence of `txids` at the strictly increasing positions `ps` in `[lo, hi)`. */
  ghost predicate PickedAt<D>(picked: seq<D>, txids: seq<D>, ps: seq<nat>, lo: nat, hi: nat) {
    && |ps| == |picked|
    && (forall i :: 0 <= i < |ps| ==> lo <= ps[i] < hi && ps[i] < |txids| && picked[i] == txids[ps[i]])
    && (forall i, j :: 0 <= i < j < |ps| ==> ps[i] < ps[j])
  }

  lemma PickedJoin<D>(a: seq<D>, b: seq<D>, txids: seq<D>, ps: seq<nat>, qs: seq<nat>, lo: nat, mid: nat, hi: nat)
    requires lo <= mid <= hi && PickedAt(a, txids, ps, lo, mid) && PickedAt(b, txids, qs, mid, hi)
    ensures PickedAt(a + b, txids, ps + qs, lo, hi)
  {
  }

  ghost predicate Distinct<D(!new)>(txids: seq<D>) {
    forall i, j :: 0 <= i < j < |txids| ==> txids[i] != txids[j]
  }

  // ---- The last node of a level ----

  /** The largest power of two that divides a number. */
  function LowBit(n: nat): (r: nat)
    requires n > 0
    ensures r >= 1
  {
    if n % 2 == 1 then 1 else 2 * LowBit(n / 2)
  }

  lemma HalfWidth(n: nat, height: nat)
    requires n % 2 == 0 && height > 0
    ensures TreeWidth(n, height) == TreeWidth(n / 2, height - 1)
  {
    hide TreeWidth;
    var w, v := TreeWidth(n, height), TreeWidth(n / 2, height - 1);
    NodeExists(n, height, v);
    NodeExists(n / 2, height - 1, v);
    NodeExists(n, height, w);
    NodeExists(n / 2, height - 1, w);
  }

  /** Only from the lowest bit of `n` on can a level have an odd number of nodes. */
  lemma {:induction false} OddWidth(n: nat, height: nat)
    requires n > 0 && TreeWidth(n, height) % 2 == 1
    ensures LowBit(n) <= Shl(1, height)
    decreases height
  {
    hide TreeWidth;
    if n % 2 == 0 {
      if height == 0 {
        LeafWidth(n);
      } else {
        HalfWidth(n, height);
        OddWidth(n / 2, height - 1);
      }
    }
  }

  lemma LeafWidth(n: nat)
    ensures TreeWidth(n, 0) == n
  {
  }

  /** Where the last node of a level has no sibling, `n` and half its lowest bit end before the middle of where that
      sibling would stand. */
  lemma LoneLimit(n: nat, height: nat)
    requires n > 0 && TreeWidth(n, height) % 2 == 1
    ensures n <= Shl(TreeWidth(n, height), height)
    ensures n + LowBit(n) / 2 <= Shl(TreeWidth(n, height), height) + Shl(1, height) / 2
  {
    hide TreeWidth, LowBit, Shl;
    OddWidth(n, height);
    NodeExists(n, height, TreeWidth(n, height));
  }

  lemma MiddleOf(pos: nat, height: nat)
    requires height > 0
    ensures Shl(2 * pos, height - 1) == Shl(pos, height) && Shl(1, height) == 2 * Shl(1, height - 1)
    ensures Shl(2 * pos + 1, height - 1) == Shl(pos, height) + Shl(1, height) / 2
    ensures Shl(2 * pos + 2, height - 1) == Shl(pos, height) + Shl(1, height)
  {
    hide Shl;
    ShlDouble(pos, height - 1);
    ShlDouble(1, height - 1);
    ShlAdd(1, 1, height - 1);
    ShlAdd(2 * pos, 1, height - 1);
    ShlAdd(2 * pos, 2, height - 1);
  }

  // ---- Different nodes ----

  lemma {:induction false} SiblingsDiffer<D(!new)>(h: (D, D) -> D, txids: seq<D>, height: nat, p: nat, q: nat)
    requires Injective(h) && Distinct(txids) && p < q < TreeWidth(|txids|, height)
    ensures NodeHash(h, txids, height, p) != NodeHash(h, txids, height, q)
    decreases height
  {
    hide TreeWidth;
    if height == 0 {
      LeafWidth(|txids|);
    } else {
      ChildExists(|txids|, height, p);
      ChildExists(|txids|, height, q);
      SiblingsDiffer(h, txids, height - 1, 2 * p, 2 * q);
      NodeHashStep(h, txids, height, p);
      NodeHashStep(h, txids, height, q);
    }
  }

  // ---- Soundness ----

  /** The announced number of transactions is close enough to that of the list. */
  ghost predicate Close<D(!new)>(n: nat, txids: seq<D>)
    requires txids != []
  {
    n <= |txids| || (Distinct(txids) && n <= |txids| + LowBit(|txids|) / 2)
  }

  /** Then the sibling that the last node of a level does not have is never visited, or has only one child where that
      last node has two. */
  lemma OnlyHalf(n: nat, m: nat, height: nat, pos: nat)
    requires n > 0 && m <= n + LowBit(n) / 2
    requires pos == TreeWidth(n, height) < TreeWidth(m, height) && pos % 2 == 1
    ensures m > n && height > 0
    ensures 2 * pos + 1 >= TreeWidth(m, height - 1) && 2 * pos - 1 < TreeWidth(n, height - 1)
  {
    hide TreeWidth, LowBit, Shl;
    LoneLimit(n, height);
    NodeExists(m, height, pos);
    OneLeaf();
    MiddleOf(pos, height);
    NodeExists(m, height - 1, 2 * pos + 1);
    ChildExists(n, height, pos - 1);
    if 2 * pos - 1 >= TreeWidth(n, height - 1) {
      LoneLimit(n, height - 1);
      ShlAdd(2 * pos - 1, 1, height - 1);
      assert false;
    }
  }

  lemma OneLeaf()
    ensures Shl(1, 0) == 1
  {
  }

  lemma ForeignNode<D(!new)>(h: (D, D) -> D, txids: seq<D>, n: nat, bits: seq<bool>, hashes: seq<D>,
                             height: nat, pos: nat, bitsUsed: nat, hashesUsed: nat)
    requires Injective(h) && txids != [] && Close(n, txids)
    requires pos == TreeWidth(|txids|, height) < TreeWidth(n, height) && pos % 2 == 1
    requires var d := Decode(h, n, bits, hashes, height, pos, bitsUsed, hashesUsed);
      d.Some? && d.value.hash == NodeHash(h, txids, height, pos - 1)
    ensures Decode(h, n, bits, hashes, height, pos, bitsUsed, hashesUsed).value.matches == []
  {
    hide TreeWidth, LowBit, Shl, NodeHash;
    OnlyHalf(|txids|, n, height, pos);
    ChildExists(|txids|, height, pos - 1);
    NodeHashStep(h, txids, height, pos - 1);
    SiblingsDiffer(h, txids, height - 1, 2 * (pos - 1), 2 * (pos - 1) + 1);
  }

  /** Where a traversal descends to a true hash, the children have true hashes too: a right child that only the
      announced number has is a copy of the left one.  The traversal may stand `up` levels above the node. */
  lemma ChildHashes<D(!new)>(h: (D, D) -> D, txids: seq<D>, n: nat, bits: seq<bool>, hashes: seq<D>,
                             height: nat, up: nat, pos: nat, q: nat, bitsUsed: nat, hashesUsed: nat)
    requires Injective(h) && height > 0 && bitsUsed < |bits| && bits[bitsUsed]
    requires q < TreeWidth(|txids|, height) && 2 * q < TreeWidth(|txids|, height - 1)
    requires var d := Decode(h, n, bits, hashes, height + up, pos, bitsUsed, hashesUsed);
      d.Some? && d.value.hash == NodeHash(h, txids, height, q)
    ensures var d := Decode(h, n, bits, hashes, height + up, pos, bitsUsed, hashesUsed).value;
      var below := height + up - 1;
      var left := Decode(h, n, bits, hashes, below, 2 * pos, bitsUsed + 1, hashesUsed);
      && left.Some? && left.value.hash == NodeHash(h, txids, height - 1, 2 * q)
      && if 2 * pos + 1 < TreeWidth(n, below) then
           var right := Decode(h, n, bits, hashes, below, 2 * pos + 1, left.value.bitsUsed, left.value.hashesUsed);
           && right.Some? && d.matches == left.value.matches + right.value.matches
           && right.value.hash == NodeHash(h, txids, height - 1, Clamp(|txids|, height - 1, 2 * q + 1))
         else d.matches == left.value.matches
  {
    hide TreeWidth;
    NodeHashStep(h, txids, height, q);
  }

  /** The position of a right child that may be missing: then it counts as a copy of the left one. */
  function Clamp(n: nat, height: nat, q: nat): nat
    requires 0 < q && q - 1 < TreeWidth(n, height)
    ensures Clamp(n, height, q) < TreeWidth(n, height)
  {
    if q < TreeWidth(n, height) then q else q - 1
  }

  /** Whatever bits and hashes are received: if they decode to the true hash of a node, the matches are txids below
      that node, at increasing positions. */
  lemma {:induction false} DecodeSound<D(!new)>(h: (D, D) -> D, txids: seq<D>, n: nat, bits: seq<bool>, hashes: seq<D>,
                                                height: nat, pos: nat, bitsUsed: nat, hashesUsed: nat) returns (ps: seq<nat>)
    requires Injective(h) && txids != [] && Close(n, txids) && pos < TreeWidth(|txids|, height)
    requires var d := Decode(h, n, bits, hashes, height, pos, bitsUsed, hashesUsed);
      d.Some? && d.value.hash == NodeHash(h, txids, height, pos)
    ensures PickedAt(Decode(h, n, bits, hashes, height, pos, bitsUsed, hashesUsed).value.matches,
                     txids, ps, Shl(pos, height), LeafEnd(|txids|, height, pos))
    decreases height
  {
    hide TreeWidth, Shl, Close, LowBit, Decode, NodeHash, Injective;
    DecodeStop(h, n, bits, hashes, height, pos, bitsUsed, hashesUsed);
    if height == 0 || !bits[bitsUsed] {
      if height == 0 {
        LeafNode(h, txids, pos);
        LeafRange(|txids|, pos);
      }
      ps := if height == 0 && bits[bitsUsed] then [pos] else [];
    } else {
      LeafRanges(|txids|, height, pos);
      ChildHashes(h, txids, n, bits, hashes, height, 0, pos, pos, bitsUsed, hashesUsed);
      ps := DecodeSound(h, txids, n, bits, hashes, height - 1, 2 * pos, bitsUsed + 1, hashesUsed);
      if 2 * pos + 1 < TreeWidth(n, height - 1) {
        var l := Decode(h, n, bits, hashes, height - 1, 2 * pos, bitsUsed + 1, hashesUsed).value;
        var r := Decode(h, n, bits, hashes, height - 1, 2 * pos + 1, l.bitsUsed, l.hashesUsed).value;
        if 2 * pos + 1 < TreeWidth(|txids|, height - 1) {
          var qs := DecodeSound(h, txids, n, bits, hashes, height - 1, 2 * pos + 1, l.bitsUsed, l.hashesUsed);
          PickedJoin(l.matches, r.matches, txids, ps, qs,
                     Shl(pos, height), LeafEnd(|txids|, height - 1, 2 * pos), LeafEnd(|txids|, height, pos));
          ps := ps + qs;
        } else {
          ForeignNode(h, txids, n, bits, hashes, height - 1, 2 * pos + 1, l.bitsUsed, l.hashesUsed);
          assert l.matches + [] == l.matches;
        }
      }
    }
  }

  lemma LeafNode<D>(h: (D, D) -> D, txids: seq<D>, pos: nat)
    requires pos < TreeWidth(|txids|, 0)
    ensures pos < |txids| && NodeHash(h, txids, 0, pos) == txids[pos]
  {
  }

  /** A traversal that goes well has a flag; where it stops it matches at most the hash it takes. */
  lemma DecodeStop<D>(h: (D, D) -> D, n: nat, bits: seq<bool>, hashes: seq<D>, height: nat, pos: nat, bitsUsed: nat, hashesUsed: nat)
    requires Decode(h, n, bits, hashes, height, pos, bitsUsed, hashesUsed).Some?
    ensures bitsUsed < |bits|
    ensures var d := Decode(h, n, bits, hashes, height, pos, bitsUsed, hashesUsed).value;
      height == 0 || !bits[bitsUsed] ==> d.matches == if height == 0 && bits[bitsUsed] then [d.hash] else []
  {
  }

  // ---- Too many levels ----

  /** No txid is the hash of a pair, so no txid can pass for an inner node. */
  ghost predicate NoPairs<D(!new)>(h: (D, D) -> D, txids: seq<D>) {
    forall i, a, b :: 0 <= i < |txids| ==> txids[i] != h(a, b)
  }

  /** A traversal that stands above the node whose hash it has to reach never gets down to a leaf. */
  lemma {:induction false} NothingMatched<D(!new)>(h: (D, D) -> D, txids: seq<D>, n: nat, bits: seq<bool>, hashes: seq<D>,
                                                   height: nat, up: nat, pos: nat, q: nat, bitsUsed: nat, hashesUsed: nat)
    requires Injective(h) && NoPairs(h, txids) && up > 0 && q < TreeWidth(|txids|, height)
    requires var d := Decode(h, n, bits, hashes, height + up, pos, bitsUsed, hashesUsed);
      d.Some? && d.value.hash == NodeHash(h, txids, height, q)
    ensures Decode(h, n, bits, hashes, height + up, pos, bitsUsed, hashesUsed).value.matches == []
    decreases height
  {
    hide TreeWidth, Decode, NodeHash, Injective, NoPairs, Clamp;
    DecodeStop(h, n, bits, hashes, height + up, pos, bitsUsed, hashesUsed);
    if bits[bitsUsed] {
      if height == 0 {
        LeafNode(h, txids, q);
        NotDescended(h, txids, n, bits, hashes, up, pos, q, bitsUsed, hashesUsed);
      } else {
        ChildExists(|txids|, height, q);
        ChildHashes(h, txids, n, bits, hashes, height, up, pos, q, bitsUsed, hashesUsed);
        var below := height - 1 + up;
        NothingMatched(h, txids, n, bits, hashes, height - 1, up, 2 * pos, 2 * q, bitsUsed + 1, hashesUsed);
        if 2 * pos + 1 < TreeWidth(n, below) {
          var l := Decode(h, n, bits, hashes, below, 2 * pos, bitsUsed + 1, hashesUsed).value;
          NothingMatched(h, txids, n, bits, hashes, height - 1, up, 2 * pos + 1, Clamp(|txids|, height - 1, 2 * q + 1),
                         l.bitsUsed, l.hashesUsed);
        }
      }
    }
  }

  lemma NotDescended<D(!new)>(h: (D, D) -> D, txids: seq<D>, n: nat, bits: seq<bool>, hashes: seq<D>,
                              height: nat, pos: nat, q: nat, bitsUsed: nat, hashesUsed: nat)
    requires NoPairs(h, txids) && height > 0 && q < |txids|
    requires var d := Decode(h, n, bits, hashes, height, pos, bitsUsed, hashesUsed);
      d.Some? && d.value.hash == txids[q]
    ensures bitsUsed < |bits| && !bits[bitsUsed]
  {
  }

  // ---- What a tree with the right root proves ----

  ghost predicate Picked<D(!new)>(picked: seq<D>, txids: seq<D>) {
    exists ps :: PickedAt(picked, txids, ps, 0, |txids|)
  }

  /** With the announced number `n`, whatever bits and hashes are received: if the extracted root is the Merkle root of
      the list, the matches are entries of the list, in its order. */
  ghost predicate Sound<D(!new)>(h: (D, D) -> D, txids: seq<D>, n: nat)
    requires txids != []
  {
    forall bits, hashes :: RootExtracted(h, txids, n, bits, hashes) ==> Picked(Extract(h, n, bits, hashes).value.matches, txids)
  }

  predicate RootExtracted<D(==)>(h: (D, D) -> D, txids: seq<D>, n: nat, bits: seq<bool>, hashes: seq<D>)
    requires txids != []
  {
    var x := Extract(h, n, bits, hashes);
    x.Some? && x.value.root == Root(h, txids)
  }

  /** A number of the same height that is not greater than the length of the list, or by less than half of its lowest
      bit. */
  lemma ExtractSound<D(!new)>(h: (D, D) -> D, txids: seq<D>, n: nat, bits: seq<bool>, hashes: seq<D>)
    requires Injective(h) && txids != [] && Close(n, txids) && TreeHeight(n) == TreeHeight(|txids|)
    requires RootExtracted(h, txids, n, bits, hashes)
    ensures Picked(Extract(h, n, bits, hashes).value.matches, txids)
  {
    hide TreeWidth, TreeHeight, Decode, PickedAt;
    WholeTree(|txids|);
    var ps := DecodeSound(h, txids, n, bits, hashes, TreeHeight(|txids|), 0, 0, 0);
  }

  /** A number of greater height: nothing is matched. */
  lemma TallerEmpty<D(!new)>(h: (D, D) -> D, txids: seq<D>, n: nat, bits: seq<bool>, hashes: seq<D>)
    requires Injective(h) && NoPairs(h, txids) && txids != [] && TreeHeight(n) > TreeHeight(|txids|)
    requires RootExtracted(h, txids, n, bits, hashes)
    ensures Extract(h, n, bits, hashes).value.matches == []
  {
    hide TreeWidth, TreeHeight, Decode, NoPairs;
    WholeTree(|txids|);
    var up := TreeHeight(n) - TreeHeight(|txids|);
    NothingMatched(h, txids, n, bits, hashes, TreeHeight(|txids|), up, 0, 0, 0, 0);
  }
}
