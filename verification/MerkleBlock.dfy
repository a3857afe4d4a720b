/**
 The flat Merkle tree a block keeps, and Merkle branches: src/core.cpp.

 A block appends its tree level by level to one array.  The offset of a level is the
 number of nodes below it, and element `Offset(n, k) + i` is node `i` of level `k`.
 */
module MerkleBlock {
  import opened Wrappers
  import opened Shifts
  import opened Merkle

  /** Where level `height` starts in the flat array of a tree over `n` leaves. */
  function Offset(n: nat, height: nat): nat {
    if height == 0 then 0 else Offset(n, height - 1) + TreeWidth(n, height - 1)
  }

  /** The first `count` nodes of level `height` are in place. */
  ghost predicate LevelIs<D(!new)>(h: (D, D) -> D, txids: seq<D>, flat: seq<D>, height: nat, count: nat)
    requires count <= TreeWidth(|txids|, height)
  {
    && Offset(|txids|, height) + count <= |flat|
    && forall i: nat :: i < count ==> flat[Offset(|txids|, height) + i] == NodeHash(h, txids, height, i)
  }

  /** The first `height` levels of `flat` hold the reference nodes. */
  ghost predicate LevelsAre<D(!new)>(h: (D, D) -> D, txids: seq<D>, flat: seq<D>, height: nat) {
    forall k: nat :: k < height ==> LevelDone(h, txids, flat, k)
  }

  ghost predicate LevelDone<D(!new)>(h: (D, D) -> D, txids: seq<D>, flat: seq<D>, height: nat) {
    LevelIs(h, txids, flat, height, TreeWidth(|txids|, height))
  }

  /** The stored tree is complete: it has every level and nothing else. */
  ghost predicate IsFlatTree<D(!new)>(h: (D, D) -> D, txids: seq<D>, flat: seq<D>) {
    && |flat| == Offset(|txids|, TreeHeight(|txids|) + 1)
    && LevelsAre(h, txids, flat, TreeHeight(|txids|) + 1)
  }

  lemma {:induction false} OffsetMonotone(n: nat, j: nat, k: nat)
    requires j <= k
    ensures Offset(n, j) <= Offset(n, k)
    decreases k
  {
    if j < k { OffsetMonotone(n, j, k - 1); }
  }

  lemma AppendKeepsLevels<D(!new)>(h: (D, D) -> D, txids: seq<D>, flat: seq<D>, node: D, height: nat)
    requires LevelsAre(h, txids, flat, height)
    ensures LevelsAre(h, txids, flat + [node], height)
  {
    forall k: nat | k < height
      ensures LevelDone(h, txids, flat + [node], k)
    {
      assert LevelDone(h, txids, flat, k);
    }
  }

  /** The parent of nodes `2*i` and `min(2*i+1, width-1)` is node `i` one level up. */
  lemma ParentHash<D>(h: (D, D) -> D, txids: seq<D>, height: nat, i: nat)
    requires i < TreeWidth(|txids|, height + 1)
    ensures 2 * i < TreeWidth(|txids|, height)
    ensures var w := TreeWidth(|txids|, height);
      var i2 := if 2 * i + 1 <= w - 1 then 2 * i + 1 else w - 1;
      NodeHash(h, txids, height + 1, i) == h(NodeHash(h, txids, height, 2 * i), NodeHash(h, txids, height, i2))
  {
    ChildExists(|txids|, height + 1, i);
    WidthHalves(|txids|, height);
  }

  /** The sibling that a branch records for index `i` on a level of `size` nodes. */
  function Sibling(i: nat, size: nat): (s: nat)
    requires size > 0
    ensures s < size
  {
    var flipped := if i % 2 == 0 then i + 1 else i - 1;
    if flipped <= size - 1 then flipped else size - 1
  }

  /** Folds a branch into a hash; the reference for CheckMerkleBranch.  Halves of negative numbers round down, as an
      arithmetic shift does. */
  function FoldBranch<D>(h: (D, D) -> D, hash: D, branch: seq<D>, index: int): D
    decreases |branch|
  {
    if branch == [] then hash else
      FoldBranch(h, if index % 2 == 1 then h(branch[0], hash) else h(hash, branch[0]), branch[1..], index / 2)
  }

  /** The branch of leaf `index`: the siblings on the way to the root. */
  ghost predicate IsBranch<D>(h: (D, D) -> D, txids: seq<D>, index: nat, branch: seq<D>) {
    && index < |txids|
    && |branch| == TreeHeight(|txids|)
    && SiblingsFrom(h, txids, index, branch, 0)
  }

  /** From level `k` up, the branch holds the sibling of the node above leaf `index`. */
  ghost predicate SiblingsFrom<D>(h: (D, D) -> D, txids: seq<D>, index: nat, branch: seq<D>, k: nat)
    requires |branch| <= TreeHeight(|txids|)
  {
    forall j :: k <= j < |branch| ==> branch[j] == SiblingHash(h, txids, j, Shr(index, j))
  }

  /** The hash of the node that a branch records beside node `(height, pos)`. */
  function SiblingHash<D>(h: (D, D) -> D, txids: seq<D>, height: nat, pos: nat): D
    requires TreeWidth(|txids|, height) > 0
  {
    NodeHash(h, txids, height, Sibling(pos, TreeWidth(|txids|, height)))
  }

  /** Hashing a node with its sibling, in the order its position asks for, gives its parent. */
  lemma SiblingStep<D>(h: (D, D) -> D, txids: seq<D>, height: nat, pos: nat)
    requires 1 < TreeWidth(|txids|, height) && pos < TreeWidth(|txids|, height)
    ensures pos / 2 < TreeWidth(|txids|, height + 1)
    ensures var node := NodeHash(h, txids, height, pos);
      var sibling := SiblingHash(h, txids, height, pos);
      NodeHash(h, txids, height + 1, pos / 2) == if pos % 2 == 1 then h(sibling, node) else h(node, sibling)
  {
    hide TreeWidth, NodeHash;
    WidthHalves(|txids|, height);
    ParentHash(h, txids, height, pos / 2);
  }

  /** Folding the upper part of a branch from node `(k, pos)` gives the root. */
  lemma {:induction false} FoldFrom<D>(h: (D, D) -> D, txids: seq<D>, index: nat, branch: seq<D>, k: nat)
    requires IsBranch(h, txids, index, branch) && k <= |branch|
    requires Shr(index, k) < TreeWidth(|txids|, k)
    ensures FoldBranch(h, NodeHash(h, txids, k, Shr(index, k)), branch[k..], Shr(index, k)) == Root(h, txids)
    decreases |branch| - k
  {
    hide TreeWidth, NodeHash, TreeHeight, SiblingHash;
    var pos := Shr(index, k);
    if k < |branch| {
      SiblingStep(h, txids, k, pos);
      assert branch[k..][0] == branch[k];
      assert branch[k..][1..] == branch[k + 1..];
      FoldFrom(h, txids, index, branch, k + 1);
    }
  }

  /** A block's branch proves the membership of every one of its leaves. */
  lemma BranchReachesRoot<D>(h: (D, D) -> D, txids: seq<D>, index: nat, branch: seq<D>)
    requires IsBranch(h, txids, index, branch)
    ensures FoldBranch(h, txids[index], branch, index) == Root(h, txids)
  {
    NodeExists(|txids|, 0, index);
    FoldFrom(h, txids, index, branch, 0);
    assert branch[0..] == branch;
  }

  /** Conversely, with an injective hash, only the leaf itself passes the check: a branch of full
      length that folds to the root pins both the leaf and every recorded sibling. */
  lemma BranchIsBinding<D(!new)>(h: (D, D) -> D, txids: seq<D>, index: nat, leaf: D, branch: seq<D>)
    requires Injective(h) && index < |txids| && |branch| == TreeHeight(|txids|)
    requires FoldBranch(h, leaf, branch, index) == Root(h, txids)
    ensures leaf == txids[index]
    ensures IsBranch(h, txids, index, branch)
  {
    NodeExists(|txids|, 0, index);
    assert branch[0..] == branch;
    BindFrom(h, txids, index, leaf, branch, 0);
  }

  lemma {:induction false} BindFrom<D(!new)>(h: (D, D) -> D, txids: seq<D>, index: nat, hash: D, branch: seq<D>, k: nat)
    requires Injective(h) && index < |txids| && k <= |branch| == TreeHeight(|txids|)
    requires Shr(index, k) < TreeWidth(|txids|, k)
    requires FoldBranch(h, hash, branch[k..], Shr(index, k)) == Root(h, txids)
    ensures hash == NodeHash(h, txids, k, Shr(index, k))
    ensures SiblingsFrom(h, txids, index, branch, k)
    decreases |branch| - k
  {
    hide TreeWidth, NodeHash, TreeHeight, SiblingHash;
    var pos := Shr(index, k);
    if k < |branch| {
      SiblingStep(h, txids, k, pos);
      assert branch[k..][0] == branch[k];
      assert branch[k..][1..] == branch[k + 1..];
      var up := if pos % 2 == 1 then h(branch[k], hash) else h(hash, branch[k]);
      BindFrom(h, txids, index, up, branch, k + 1);
    }
  }

  /** Climbing one level from an inner node stays inside the tree. */
  lemma LevelUp(n: nat, index: nat, k: nat)
    requires 1 < TreeWidth(n, k) && Shr(index, k) < TreeWidth(n, k) && k <= TreeHeight(n)
    ensures k < TreeHeight(n)
    ensures Shr(index, k + 1) < TreeWidth(n, k + 1) == (TreeWidth(n, k) + 1) / 2
  {
    WidthHalves(n, k);
  }

  lemma BranchExtends<D(!new)>(h: (D, D) -> D, txids: seq<D>, flat: seq<D>, index: nat, branch: seq<D>)
    requires IsFlatTree(h, txids, flat)
    requires |branch| < TreeHeight(|txids|) && SiblingsFrom(h, txids, index, branch, 0)
    ensures var at := Offset(|txids|, |branch|) + Sibling(Shr(index, |branch|), TreeWidth(|txids|, |branch|));
      at < |flat| && SiblingsFrom(h, txids, index, branch + [flat[at]], 0)
  {
    hide TreeWidth, NodeHash, Offset, Shr, TreeHeight;
    assert LevelDone(h, txids, flat, |branch|);
  }

  lemma TopReached(n: nat, k: nat)
    requires k <= TreeHeight(n) && TreeWidth(n, k) <= 1
    ensures k == TreeHeight(n)
  {
  }

  lemma NextLevel(n: nat, index: nat, k: nat)
    ensures Offset(n, k + 1) == Offset(n, k) + TreeWidth(n, k) && Shr(index, k + 1) == Shr(index, k) / 2
  {
    hide TreeWidth;
  }

  lemma BranchStart<D>(h: (D, D) -> D, txids: seq<D>, index: nat)
    ensures Offset(|txids|, 0) == 0 && Shr(index, 0) == index && TreeWidth(|txids|, 0) == |txids|
    ensures SiblingsFrom(h, txids, index, [], 0)
  {
  }

  lemma LeavesFirst<D(!new)>(h: (D, D) -> D, txids: seq<D>)
    ensures TreeWidth(|txids|, 0) == |txids| && LevelsAre(h, txids, txids, 1)
  {
    assert LevelDone(h, txids, txids, 0);
  }

  /** Appending one parent to an unfinished level. */
  lemma AppendParent<D(!new)>(h: (D, D) -> D, txids: seq<D>, flat: seq<D>, k: nat, m: nat)
    requires LevelsAre(h, txids, flat, k + 1) && m < TreeWidth(|txids|, k + 1)
    requires LevelIs(h, txids, flat, k + 1, m) && |flat| == Offset(|txids|, k + 1) + m
    ensures var j, w := Offset(|txids|, k), TreeWidth(|txids|, k);
      var i2 := if 2 * m + 1 <= w - 1 then 2 * m + 1 else w - 1;
      && j + 2 * m < |flat| && 0 <= j + i2 < |flat|
      && var flat' := flat + [h(flat[j + 2 * m], flat[j + i2])];
         LevelsAre(h, txids, flat', k + 1) && LevelIs(h, txids, flat', k + 1, m + 1)
  {
    var j, w := Offset(|txids|, k), TreeWidth(|txids|, k);
    hide TreeWidth, NodeHash, Offset;
    ParentHash(h, txids, k, m);
    assert LevelDone(h, txids, flat, k);
    var i2 := if 2 * m + 1 <= w - 1 then 2 * m + 1 else w - 1;
    AppendKeepsLevels(h, txids, flat, h(flat[j + 2 * m], flat[j + i2]), k + 1);
  }

  /** A level with all its nodes makes one more complete level. */
  lemma LevelCompleted<D(!new)>(h: (D, D) -> D, txids: seq<D>, flat: seq<D>, k: nat)
    requires LevelsAre(h, txids, flat, k + 1)
    requires LevelIs(h, txids, flat, k + 1, TreeWidth(|txids|, k + 1))
    ensures LevelsAre(h, txids, flat, k + 2)
  {
    assert LevelDone(h, txids, flat, k + 1);
  }

  lemma LastIsRoot<D(!new)>(h: (D, D) -> D, txids: seq<D>, flat: seq<D>)
    requires txids != [] && IsFlatTree(h, txids, flat)
    ensures |flat| > 0 && flat[|flat| - 1] == Root(h, txids)
  {
    assert LevelDone(h, txids, flat, TreeHeight(|txids|));
  }

  /** The part of a block that concerns its Merkle tree. */
  class Block<D(==, !new)> {
    const h: (D, D) -> D
    const txids: seq<D>
    var vMerkleTree: seq<D>

    constructor (h: (D, D) -> D, txids: seq<D>)
      ensures this.h == h && this.txids == txids && vMerkleTree == []
    {
      this.h, this.txids, vMerkleTree := h, txids, [];
    }

    ghost predicate Valid()
      reads this
    {
      vMerkleTree == [] || IsFlatTree(h, txids, vMerkleTree)
    }

    /** Rebuilds the flat tree, level by level, and returns its last element. */
    method BuildMerkleTree() returns (root: Option<D>)
      modifies this`vMerkleTree
      ensures Valid()
      ensures txids == [] ==> root == None && vMerkleTree == []
      ensures txids != [] ==> IsFlatTree(h, txids, vMerkleTree) && root == Some(Root(h, txids))
    {
      hide TreeWidth, NodeHash, TreeHeight;
      vMerkleTree := txids;
      ghost var n := |txids|;
      var j, nSize := 0, |txids|;
      ghost var k: nat := 0;
      LeavesFirst(h, txids);
      while nSize > 1
        invariant nSize == TreeWidth(n, k) && j == Offset(n, k)
        invariant |vMerkleTree| == j + nSize
        invariant LevelsAre(h, txids, vMerkleTree, k + 1)
        invariant k <= TreeHeight(n)
        decreases nSize
      {
        WidthHalves(n, k);
        var i := 0;
        ghost var m: nat := 0;
        while i < nSize
          invariant i == 2 * m && m <= TreeWidth(n, k + 1)
          invariant |vMerkleTree| == Offset(n, k + 1) + m
          invariant LevelsAre(h, txids, vMerkleTree, k + 1)
          invariant LevelIs(h, txids, vMerkleTree, k + 1, m)
        {
          AppendParent(h, txids, vMerkleTree, k, m);
          var i2 := if i + 1 <= nSize - 1 then i + 1 else nSize - 1;
          vMerkleTree := vMerkleTree + [h(vMerkleTree[j + i], vMerkleTree[j + i2])];
          i, m := i + 2, m + 1;
        }
        LevelCompleted(h, txids, vMerkleTree, k);
        j := j + nSize;
        nSize := (nSize + 1) / 2;
        k := k + 1;
      }
      if txids == [] {
        root := None;
      } else {
        NodeExists(n, k, 0);
        LastIsRoot(h, txids, vMerkleTree);
        root := Some(vMerkleTree[|vMerkleTree| - 1]);
      }
    }

    /** The branch of transaction `nIndex`, building the tree first when that was not done yet. */
    method GetMerkleBranch(nIndex: nat) returns (branch: seq<D>)
      requires Valid() && nIndex < |txids|
      modifies this`vMerkleTree
      ensures IsFlatTree(h, txids, vMerkleTree)
      ensures IsBranch(h, txids, nIndex, branch)
    {
      if vMerkleTree == [] {
        var _ := BuildMerkleTree();
      }
      branch := CollectSiblings(nIndex);
    }

    /** One sibling for every level below the root. */
    method CollectSiblings(nIndex: nat) returns (branch: seq<D>)
      requires IsFlatTree(h, txids, vMerkleTree) && nIndex < |txids|
      ensures IsBranch(h, txids, nIndex, branch)
    {
      hide TreeWidth, NodeHash, TreeHeight, Offset, Shr, IsFlatTree, SiblingsFrom, Sibling;
      branch := [];
      var j, nSize, index := 0, |txids|, nIndex;
      BranchStart(h, txids, nIndex);
      while nSize > 1
        invariant |branch| <= TreeHeight(|txids|)
        invariant nSize == TreeWidth(|txids|, |branch|) && j == Offset(|txids|, |branch|)
        invariant index == Shr(nIndex, |branch|) < nSize
        invariant SiblingsFrom(h, txids, nIndex, branch, 0)
        decreases nSize
      {
        LevelUp(|txids|, nIndex, |branch|);
        NextLevel(|txids|, nIndex, |branch|);
        BranchExtends(h, txids, vMerkleTree, nIndex, branch);
        var i := Sibling(index, nSize);
        branch := branch + [vMerkleTree[j + i]];
        index := index / 2;
        j := j + nSize;
        nSize := (nSize + 1) / 2;
      }
      TopReached(|txids|, |branch|);
    }

    /** Index -1 marks a transaction that is in no block; it never verifies. */
    static method CheckMerkleBranch(h: (D, D) -> D, leaf: D, branch: seq<D>, nIndex: int) returns (root: Option<D>)
      ensures root == if nIndex == -1 then None else Some(FoldBranch(h, leaf, branch, nIndex))
    {
      if nIndex == -1 {
        return None;
      }
      var hash, index := leaf, nIndex;
      var k := 0;
      while k < |branch|
        invariant 0 <= k <= |branch|
        invariant FoldBranch(h, hash, branch[k..], index) == FoldBranch(h, leaf, branch, nIndex)
      {
        assert branch[k..][0] == branch[k];
        assert branch[k..][1..] == branch[k + 1..];
        var otherside := branch[k];
        hash := if index % 2 == 1 then h(otherside, hash) else h(hash, otherside);
        index := index / 2;
        k := k + 1;
      }
      return Some(hash);
    }
  }
}
