/**
 Exactly which announced numbers of transactions make a partial Merkle tree proof sound.

 `Reshaped` encodes the nodes of one list in the shape that another length gives.  Where
 every node with a lone child in that shape has equal children in the list, decoding it
 reaches the true root; so it shows for every other number how soundness fails.
 */
module PartialMerkleShapes {
  import opened Transactions
  import opened Wrappers
  import opened Shifts
  import opened Merkle
  import opened PartialMerkle
  import opened PartialMerkleSound

  datatype Shape<D> = Shape(bits: seq<bool>, hashes: seq<D>, matches: seq<D>)

  /** The traversal of a tree of |mask| leaves at `(height, pos)`, with the hashes of the nodes of `txids` below
      `(height + up, q)`. */
  function Reshaped<D>(h: (D, D) -> D, txids: seq<D>, up: nat, mask: seq<bool>, height: nat, pos: nat, q: nat): Shape<D>
    requires q < TreeWidth(|txids|, height + up)
    decreases height
  {
    var flag := ParentOfMatch(mask, height, pos);
    if height == 0 || !flag then
      var hash := NodeHash(h, txids, height + up, q);
      Shape([flag], [hash], if flag then [hash] else [])
    else
      ChildExists(|txids|, height + up, q);
      var left := Reshaped(h, txids, up, mask, height - 1, 2 * pos, 2 * q);
      if 2 * pos + 1 < TreeWidth(|mask|, height - 1) then
        var right := Reshaped(h, txids, up, mask, height - 1, 2 * pos + 1, Right(|txids|, up, height, q));
        Shape([flag] + left.bits + right.bits, left.hashes + right.hashes, left.matches + right.matches)
      else
        left.(bits := [flag] + left.bits)
  }

  /** Wherever the traversal descends to a lone child, the node of `txids` has a lone child too. */
  predicate Fits(n: nat, up: nat, mask: seq<bool>, height: nat, pos: nat, q: nat)
    requires q < TreeWidth(n, height + up)
    decreases height
  {
    height == 0 || !ParentOfMatch(mask, height, pos) || (
      ChildExists(n, height + up, q);
      && Fits(n, up, mask, height - 1, 2 * pos, 2 * q)
      && if 2 * pos + 1 < TreeWidth(|mask|, height - 1)
         then Fits(n, up, mask, height - 1, 2 * pos + 1, Right(n, up, height, q))
         else 2 * q + 1 >= TreeWidth(n, height - 1 + up))
  }

  /** The position of the node beside `(height - 1 + up, 2 * q)`. */
  function Right(n: nat, up: nat, height: nat, q: nat): (c: nat)
    requires height > 0 && q < TreeWidth(n, height + up)
    ensures c < TreeWidth(n, height - 1 + up) && 2 * q < TreeWidth(n, height - 1 + up)
  {
    ChildExists(n, height + up, q);
    Clamp(n, height - 1 + up, 2 * q + 1)
  }

  lemma FitsStep(n: nat, up: nat, mask: seq<bool>, height: nat, pos: nat, q: nat)
    requires height > 0 && q < TreeWidth(n, height + up) && ParentOfMatch(mask, height, pos) && Fits(n, up, mask, height, pos, q)
    ensures 2 * q < TreeWidth(n, height - 1 + up) && Fits(n, up, mask, height - 1, 2 * pos, 2 * q)
    ensures if 2 * pos + 1 < TreeWidth(|mask|, height - 1)
            then Fits(n, up, mask, height - 1, 2 * pos + 1, Right(n, up, height, q)) else Right(n, up, height, q) == 2 * q
  {
    hide TreeWidth, ParentOfMatch;
    ChildExists(n, height + up, q);
  }

  lemma RightNode<D>(h: (D, D) -> D, txids: seq<D>, up: nat, height: nat, q: nat)
    requires height > 0 && q < TreeWidth(|txids|, height + up)
    ensures 2 * q < TreeWidth(|txids|, height - 1 + up)
    ensures NodeHash(h, txids, height + up, q)
         == h(NodeHash(h, txids, height - 1 + up, 2 * q), NodeHash(h, txids, height - 1 + up, Right(|txids|, up, height, q)))
  {
    hide TreeWidth;
    ChildExists(|txids|, height + up, q);
    NodeHashStep(h, txids, height + up, q);
  }

  lemma ReshapedStep<D>(h: (D, D) -> D, txids: seq<D>, up: nat, mask: seq<bool>, height: nat, pos: nat, q: nat)
    requires height > 0 && q < TreeWidth(|txids|, height + up) && ParentOfMatch(mask, height, pos)
    ensures 2 * q < TreeWidth(|txids|, height - 1 + up)
    ensures var s := Reshaped(h, txids, up, mask, height, pos, q);
      var left := Reshaped(h, txids, up, mask, height - 1, 2 * pos, 2 * q);
      if 2 * pos + 1 < TreeWidth(|mask|, height - 1) then
        var right := Reshaped(h, txids, up, mask, height - 1, 2 * pos + 1, Right(|txids|, up, height, q));
        s == Shape([true] + (left.bits + right.bits), left.hashes + right.hashes, left.matches + right.matches)
      else s == left.(bits := [true] + left.bits)
  {
    hide TreeWidth, ParentOfMatch, NodeHash;
    ChildExists(|txids|, height + up, q);
    var left := Reshaped(h, txids, up, mask, height - 1, 2 * pos, 2 * q);
    if 2 * pos + 1 < TreeWidth(|mask|, height - 1) {
      var right := Reshaped(h, txids, up, mask, height - 1, 2 * pos + 1, Right(|txids|, up, height, q));
      assert [true] + left.bits + right.bits == [true] + (left.bits + right.bits);
    }
  }

  lemma ReshapedStop<D>(h: (D, D) -> D, txids: seq<D>, up: nat, mask: seq<bool>, height: nat, pos: nat, q: nat)
    requires q < TreeWidth(|txids|, height + up) && (height == 0 || !ParentOfMatch(mask, height, pos))
    ensures var hash, flag := NodeHash(h, txids, height + up, q), ParentOfMatch(mask, height, pos);
      Reshaped(h, txids, up, mask, height, pos, q) == Shape([flag], [hash], if flag then [hash] else [])
    ensures Fits(|txids|, up, mask, height, pos, q)
  {
  }

  /** Decoding gives the true hash and the matches, wherever the encoding stands. */
  lemma {:induction false} DecodeReshaped<D>(h: (D, D) -> D, txids: seq<D>, up: nat, mask: seq<bool>, bits: seq<bool>, hashes: seq<D>,
                                             height: nat, pos: nat, q: nat, bitsUsed: nat, hashesUsed: nat)
    requires q < TreeWidth(|txids|, height + up) && Fits(|txids|, up, mask, height, pos, q)
    requires At(bits, Reshaped(h, txids, up, mask, height, pos, q).bits, bitsUsed)
    requires At(hashes, Reshaped(h, txids, up, mask, height, pos, q).hashes, hashesUsed)
    ensures var s := Reshaped(h, txids, up, mask, height, pos, q);
      Decode(h, |mask|, bits, hashes, height, pos, bitsUsed, hashesUsed) ==
      Some(Decoded(NodeHash(h, txids, height + up, q), bitsUsed + |s.bits|, hashesUsed + |s.hashes|, s.matches))
    decreases height
  {
    hide TreeWidth, Shl, ParentOfMatch, NodeHash, Reshaped, Decode, At, Fits, Right;
    if height == 0 || !ParentOfMatch(mask, height, pos) {
      ReshapedStop(h, txids, up, mask, height, pos, q);
      DecodeTaken(h, |mask|, bits, hashes, height, pos, bitsUsed, hashesUsed, ParentOfMatch(mask, height, pos), NodeHash(h, txids, height + up, q));
    } else {
      FitsStep(|txids|, up, mask, height, pos, q);
      RightNode(h, txids, up, height, q);
      ReshapedStep(h, txids, up, mask, height, pos, q);
      var left := Reshaped(h, txids, up, mask, height - 1, 2 * pos, 2 * q);
      if 2 * pos + 1 < TreeWidth(|mask|, height - 1) {
        var c := Right(|txids|, up, height, q);
        var right := Reshaped(h, txids, up, mask, height - 1, 2 * pos + 1, c);
        AtSplit(bits, [true], left.bits + right.bits, bitsUsed);
        AtSplit(bits, left.bits, right.bits, bitsUsed + 1);
        AtSplit(hashes, left.hashes, right.hashes, hashesUsed);
        DecodeReshaped(h, txids, up, mask, bits, hashes, height - 1, 2 * pos, 2 * q, bitsUsed + 1, hashesUsed);
        DecodeReshaped(h, txids, up, mask, bits, hashes, height - 1, 2 * pos + 1, c, bitsUsed + 1 + |left.bits|, hashesUsed + |left.hashes|);
      } else {
        AtSplit(bits, [true], left.bits, bitsUsed);
        DecodeReshaped(h, txids, up, mask, bits, hashes, height - 1, 2 * pos, 2 * q, bitsUsed + 1, hashesUsed);
      }
      AtOne(bits, true, bitsUsed);
      DecodeStep(h, |mask|, bits, hashes, height, pos, bitsUsed, hashesUsed);
    }
  }

  lemma AtOne<T>(whole: seq<T>, x: T, at: nat)
    requires At(whole, [x], at)
    ensures at < |whole| && whole[at] == x
  {
    assert whole[at..at + 1][0] == x;
  }

  lemma DecodeTaken<D>(h: (D, D) -> D, n: nat, bits: seq<bool>, hashes: seq<D>, height: nat, pos: nat, bitsUsed: nat, hashesUsed: nat,
                       flag: bool, hash: D)
    requires At(bits, [flag], bitsUsed) && At(hashes, [hash], hashesUsed) && (height == 0 || !flag)
    ensures Decode(h, n, bits, hashes, height, pos, bitsUsed, hashesUsed)
         == Some(Decoded(hash, bitsUsed + 1, hashesUsed + 1, if flag then [hash] else []))
  {
    AtOne(bits, flag, bitsUsed);
    AtOne(hashes, hash, hashesUsed);
  }

  /** As many hashes as there are leaves at most, and no fewer bits. */
  lemma {:induction false} ReshapedSize<D>(h: (D, D) -> D, txids: seq<D>, up: nat, mask: seq<bool>, height: nat, pos: nat, q: nat)
    requires pos < TreeWidth(|mask|, height)
    requires q < TreeWidth(|txids|, height + up) && Fits(|txids|, up, mask, height, pos, q)
    ensures var s := Reshaped(h, txids, up, mask, height, pos, q);
      |s.hashes| <= |s.bits| && |s.hashes| <= LeafEnd(|mask|, height, pos) - Shl(pos, height)
    decreases height
  {
    hide TreeWidth, Shl, ParentOfMatch, NodeHash, Reshaped, Fits, Right, LeafEnd;
    if height == 0 || !ParentOfMatch(mask, height, pos) {
      ReshapedStop(h, txids, up, mask, height, pos, q);
      if height == 0 { LeafRange(|mask|, pos); } else { LeafRanges(|mask|, height, pos); }
    } else {
      FitsStep(|txids|, up, mask, height, pos, q);
      ReshapedStep(h, txids, up, mask, height, pos, q);
      LeafRanges(|mask|, height, pos);
      ReshapedSize(h, txids, up, mask, height - 1, 2 * pos, 2 * q);
      if 2 * pos + 1 < TreeWidth(|mask|, height - 1) {
        ReshapedSize(h, txids, up, mask, height - 1, 2 * pos + 1, Right(|txids|, up, height, q));
      }
    }
  }

  /** The whole tree is extracted, with the true root. */
  lemma ExtractReshaped<D>(h: (D, D) -> D, txids: seq<D>, up: nat, mask: seq<bool>)
    requires txids != [] && mask != [] && |mask| <= MAX_BLOCK_SIZE / 60 && TreeHeight(|mask|) + up == TreeHeight(|txids|)
    requires Fits(|txids|, up, mask, TreeHeight(|mask|), 0, 0)
    ensures var s := Reshaped(h, txids, up, mask, TreeHeight(|mask|), 0, 0);
      Extract(h, |mask|, s.bits, s.hashes) == Some(Extraction(Root(h, txids), s.matches))
  {
    hide TreeWidth, TreeHeight, Decode, Reshaped, Fits;
    WholeTree(|mask|);
    WholeTree(|txids|);
    var s := Reshaped(h, txids, up, mask, TreeHeight(|mask|), 0, 0);
    assert s.bits[0..|s.bits|] == s.bits && s.hashes[0..|s.hashes|] == s.hashes;
    ReshapedSize(h, txids, up, mask, TreeHeight(|mask|), 0, 0);
    DecodeReshaped(h, txids, up, mask, s.bits, s.hashes, TreeHeight(|mask|), 0, 0, 0, 0);
  }

  // ---- One leaf below a node ----

  /** The children fit, and so does their parent; its matches are theirs. */
  lemma FitsFold<D>(h: (D, D) -> D, txids: seq<D>, up: nat, mask: seq<bool>, height: nat, pos: nat, q: nat)
    requires height > 0 && ParentOfMatch(mask, height, pos)
    requires q < TreeWidth(|txids|, height + up) && 2 * q < TreeWidth(|txids|, height - 1 + up)
    requires Fits(|txids|, up, mask, height - 1, 2 * pos, 2 * q)
    requires if 2 * pos + 1 < TreeWidth(|mask|, height - 1)
             then Fits(|txids|, up, mask, height - 1, 2 * pos + 1, Right(|txids|, up, height, q))
             else 2 * q + 1 >= TreeWidth(|txids|, height - 1 + up)
    ensures Fits(|txids|, up, mask, height, pos, q)
    ensures Reshaped(h, txids, up, mask, height, pos, q).matches ==
      var left := Reshaped(h, txids, up, mask, height - 1, 2 * pos, 2 * q).matches;
      if 2 * pos + 1 < TreeWidth(|mask|, height - 1)
      then left + Reshaped(h, txids, up, mask, height - 1, 2 * pos + 1, Right(|txids|, up, height, q)).matches
      else left
  {
    hide TreeWidth, ParentOfMatch, NodeHash;
  }

  /** The first leaf below a node is matched, and no other. */
  predicate OnlyFirst(mask: seq<bool>, height: nat, pos: nat) {
    var first := Shl(pos, height);
    first < |mask| && mask[first] && !AnyMatch(mask, first + 1, LeafEnd(|mask|, height, pos))
  }

  lemma FirstBelow(mask: seq<bool>, height: nat, pos: nat)
    requires pos < TreeWidth(|mask|, height) && OnlyFirst(mask, height, pos)
    ensures ParentOfMatch(mask, height, pos)
    ensures height > 0 ==> OnlyFirst(mask, height - 1, 2 * pos)
    ensures height > 0 && 2 * pos + 1 < TreeWidth(|mask|, height - 1) ==> !ParentOfMatch(mask, height - 1, 2 * pos + 1)
  {
    hide TreeWidth, Shl;
    if height == 0 { LeafRange(|mask|, pos); } else { LeafRanges(|mask|, height, pos); }
    assert mask[Shl(pos, height)];
  }

  lemma WidthMonotone(n: nat, m: nat, height: nat)
    requires n <= m
    ensures TreeWidth(n, height) <= TreeWidth(m, height)
  {
    hide TreeWidth;
    NodeExists(n, height, TreeWidth(m, height));
    NodeExists(m, height, TreeWidth(m, height));
  }

  /** The traversal below a node with only its first leaf matched goes down to that leaf, where it takes the node of
      `txids` for a txid.  Either both shapes agree there, or the announced one has two children all the way. */
  lemma {:induction false} FirstLeaf<D>(h: (D, D) -> D, txids: seq<D>, up: nat, mask: seq<bool>, height: nat, pos: nat, q: nat)
    requires pos < TreeWidth(|mask|, height) && OnlyFirst(mask, height, pos) && q < TreeWidth(|txids|, height + up)
    requires (up == 0 && pos == q && |txids| <= |mask|) || (height > 0 ==> Shl(pos, height) + Shl(1, height) / 2 < |mask|)
    ensures Fits(|txids|, up, mask, height, pos, q) && Shl(q, height) < TreeWidth(|txids|, up)
    ensures Reshaped(h, txids, up, mask, height, pos, q).matches == [NodeHash(h, txids, up, Shl(q, height))]
    decreases height
  {
    hide TreeWidth, Shl, ParentOfMatch, NodeHash, Reshaped, Fits, Right, LeafEnd, OnlyFirst;
    FirstBelow(mask, height, pos);
    if height == 0 {
      ReshapedStop(h, txids, up, mask, height, pos, q);
      Unshifted(q);
    } else {
      MiddleOf(pos, height);
      MiddleOf(q, height);
      ChildExists(|txids|, height + up, q);
      ChildExists(|mask|, height, pos);
      FirstLeaf(h, txids, up, mask, height - 1, 2 * pos, 2 * q);
      NodeExists(|mask|, height - 1, 2 * pos + 1);
      if 2 * pos + 1 < TreeWidth(|mask|, height - 1) {
        ReshapedStop(h, txids, up, mask, height - 1, 2 * pos + 1, Right(|txids|, up, height, q));
      } else {
        WidthMonotone(|txids|, |mask|, height - 1);
      }
      FitsFold(h, txids, up, mask, height, pos, q);
    }
  }

  lemma Unshifted(x: nat)
    ensures Shl(x, 0) == x
  {
  }

  // ---- A number of smaller height ----

  function FirstOnly(n: nat): (mask: seq<bool>)
    ensures |mask| == n
  {
    seq(n, i => i == 0)
  }

  /** With a number of smaller height, an inner node passes for the first txid. */
  lemma ShorterMatches<D>(h: (D, D) -> D, txids: seq<D>, n: nat)
    requires 0 < n <= MAX_BLOCK_SIZE / 60 && txids != [] && TreeHeight(n) < TreeHeight(|txids|)
    ensures var up := TreeHeight(|txids|) - TreeHeight(n);
      0 < TreeWidth(|txids|, up)
    ensures var up := TreeHeight(|txids|) - TreeHeight(n);
      exists bits, hashes :: Extract(h, n, bits, hashes) == Some(Extraction(Root(h, txids), [NodeHash(h, txids, up, 0)]))
  {
    hide TreeWidth, TreeHeight, Shl, NodeHash, Extract, Reshaped, Fits, Root;
    var height, mask := TreeHeight(n), FirstOnly(n);
    var up := TreeHeight(|txids|) - height;
    WholeTree(n);
    WholeTree(|txids|);
    NodeExists(|txids|, up, 0);
    assert Shl(0, up) == 0 && Shl(0, height) == 0;
    if height > 0 {
      MiddleOf(0, height);
      NodeExists(n, height - 1, 1);
    }
    FirstLeaf(h, txids, up, mask, height, 0, 0);
    ExtractReshaped(h, txids, up, mask);
    var s := Reshaped(h, txids, up, mask, height, 0, 0);
    assert Extract(h, n, s.bits, s.hashes) == Some(Extraction(Root(h, txids), [NodeHash(h, txids, up, 0)]));
  }

  // ---- A greater number of the same height ----

  /** The level of the lowest bit: the first with an odd number of nodes. */
  function LowLevel(n: nat): nat
    requires n > 0
  {
    if n % 2 == 1 then 0 else 1 + LowLevel(n / 2)
  }

  lemma {:induction false} AtLowLevel(n: nat)
    requires n > 0
    ensures var k, w := LowLevel(n), TreeWidth(n, LowLevel(n));
      Shl(1, k) == LowBit(n) && w % 2 == 1 && Shl(w, k) == n
  {
    hide TreeWidth;
    if n % 2 == 1 {
      LeafWidth(n);
      Unshifted(n);
      Unshifted(1);
    } else {
      AtLowLevel(n / 2);
      HalfWidth(n, LowLevel(n));
    }
  }

  /** Two leaves are matched: the first below the last node of the lowest odd level, and the one behind the list. */
  predicate TwoMatched(n: nat, mask: seq<bool>)
    requires n > 0
  {
    var k := LowLevel(n);
    var w := TreeWidth(n, k);
    && n + LowBit(n) / 2 < |mask| && w > 0
    && forall i :: 0 <= i < |mask| ==> (mask[i] <==> i == Shl(w - 1, k) || i == n)
  }

  lemma NoneBetween(mask: seq<bool>, lo: nat, hi: nat, a: nat, b: nat)
    requires hi <= |mask| && forall i :: 0 <= i < |mask| ==> (mask[i] <==> i == a || i == b)
    ensures AnyMatch(mask, lo, hi) <==> lo <= a < hi || lo <= b < hi
  {
    if lo <= a < hi { assert mask[a]; }
    if lo <= b < hi { assert mask[b]; }
  }

  lemma TwoLeavesBelow(n: nat, mask: seq<bool>, height: nat, pos: nat)
    requires n > 0 && TwoMatched(n, mask) && pos < TreeWidth(|mask|, height)
    ensures var a := Shl(TreeWidth(n, LowLevel(n)) - 1, LowLevel(n));
      && a < n < |mask|
      && (ParentOfMatch(mask, height, pos) <==> Shl(pos, height) <= a < Shl(pos + 1, height) || Shl(pos, height) <= n < Shl(pos + 1, height))
      && (Shl(pos, height) == n && n < Shl(pos + 1, height) ==> OnlyFirst(mask, height, pos))
      && (Shl(pos, height) == a && Shl(pos + 1, height) == n ==> OnlyFirst(mask, height, pos))
  {
    hide TreeWidth, Shl, AnyMatch, LowBit;
    AtLowLevel(n);
    var k, w := LowLevel(n), TreeWidth(n, LowLevel(n));
    var a := Shl(w - 1, k);
    ShlAdd(w - 1, 1, k);
    var lo, hi := Shl(pos, height), LeafEnd(|mask|, height, pos);
    NoneBetween(mask, lo, hi, a, n);
    NoneBetween(mask, lo + 1, hi, a, n);
  }

  lemma PartingNumbers(n: nat, k: nat, pos: nat)
    requires n > 0 && k == LowLevel(n) && TreeWidth(n, k) == 2 * pos + 1
    ensures Shl(pos, k + 1) == Shl(2 * pos, k) < n && Shl(2 * pos + 1, k) == n
    ensures Shl(1, k) == LowBit(n) && n < Shl(2 * pos + 2, k) == Shl(pos + 1, k + 1)
    ensures pos < TreeWidth(n, k + 1)
  {
    hide TreeWidth, Shl, LowBit, LowLevel;
    AtLowLevel(n);
    MiddleOf(pos, k + 1);
    ShlAdd(2 * pos, 1, k);
    ShlAdd(2 * pos + 1, 1, k);
    ShlAdd(pos, 1, k + 1);
    ShlAdd(1, 1, k);
    NodeExists(n, k + 1, pos);
  }

  /** Where the shapes part: the last node of the lowest odd level, and the sibling that only the greater number has. */
  lemma PartingPoint<D>(h: (D, D) -> D, txids: seq<D>, mask: seq<bool>, pos: nat)
    requires txids != [] && TwoMatched(|txids|, mask)
    requires TreeWidth(|txids|, LowLevel(|txids|)) == 2 * pos + 1
    ensures var k, a := LowLevel(|txids|), Shl(2 * pos, LowLevel(|txids|));
      && a < |txids| && pos < TreeWidth(|txids|, k + 1)
      && Fits(|txids|, 0, mask, k + 1, pos, pos)
      && Reshaped(h, txids, 0, mask, k + 1, pos, pos).matches == [txids[a], txids[a]]
  {
    hide TreeWidth, Shl, ParentOfMatch, NodeHash, Reshaped, Fits, OnlyFirst, LowBit, LowLevel, TwoMatched;
    var n, m := |txids|, |mask|;
    var k := LowLevel(n);
    BiggerShape(n, mask);
    PartingNumbers(n, k, pos);
    NodeExists(m, k + 1, pos);
    NodeExists(m, k, 2 * pos);
    NodeExists(m, k, 2 * pos + 1);
    TwoLeavesBelow(n, mask, k + 1, pos);
    TwoLeavesBelow(n, mask, k, 2 * pos);
    TwoLeavesBelow(n, mask, k, 2 * pos + 1);
    FirstLeaf(h, txids, 0, mask, k, 2 * pos, 2 * pos);
    FirstLeaf(h, txids, 0, mask, k, 2 * pos + 1, 2 * pos);
    LeafNode(h, txids, Shl(2 * pos, k));
    FitsFold(h, txids, 0, mask, k + 1, pos, pos);
  }

  /** From there up to the root the traversal follows the last nodes of the levels. */
  lemma {:induction false} LastNodes<D>(h: (D, D) -> D, txids: seq<D>, mask: seq<bool>, height: nat)
    requires txids != [] && TwoMatched(|txids|, mask) && height > LowLevel(|txids|)
    ensures var a, w := Shl(TreeWidth(|txids|, LowLevel(|txids|)) - 1, LowLevel(|txids|)), TreeWidth(|txids|, height);
      && w > 0 && Shl(w - 1, height) <= a < |txids| < Shl(w, height)
      && Fits(|txids|, 0, mask, height, w - 1, w - 1)
      && Reshaped(h, txids, 0, mask, height, w - 1, w - 1).matches == [txids[a], txids[a]]
    decreases height
  {
    hide TreeWidth, Shl, ParentOfMatch, NodeHash, Reshaped, Fits, OnlyFirst, LowBit, TwoMatched;
    var n, m := |txids|, |mask|;
    var k := LowLevel(n);
    WidthHalves(n, height - 1);
    var v, w := TreeWidth(n, height - 1), TreeWidth(n, height);
    AtLowLevel(n);
    if height == k + 1 {
      PartingPoint(h, txids, mask, w - 1);
      MiddleOf(w - 1, height);
      ShlAdd(v, 1, k);
      NodeExists(n, height, w);
      ShlAdd(w - 1, 1, height);
    } else {
      LastNodes(h, txids, mask, height - 1);
      LastStep(h, txids, mask, height);
    }
  }

  lemma LastNumbers(n: nat, height: nat)
    requires height > 0 && TreeWidth(n, height - 1) > 0
    ensures var v, w := TreeWidth(n, height - 1), TreeWidth(n, height);
      && w > 0 && 2 * (w - 1) == (if v % 2 == 1 then v - 1 else v - 2)
      && Shl(w - 1, height) == Shl(2 * (w - 1), height - 1) <= Shl(v - 1, height - 1)
      && Shl(v, height - 1) <= Shl(w, height)
  {
    hide TreeWidth, Shl;
    WidthHalves(n, height - 1);
    var v, w := TreeWidth(n, height - 1), TreeWidth(n, height);
    MiddleOf(w - 1, height);
    MiddleOf(w, height);
    ShlMonotone(2 * (w - 1), v - 1, height - 1);
    ShlMonotone(v, 2 * w, height - 1);
  }

  lemma LastStep<D>(h: (D, D) -> D, txids: seq<D>, mask: seq<bool>, height: nat)
    requires txids != [] && TwoMatched(|txids|, mask) && height > 0 && TreeWidth(|txids|, height - 1) > 0
    requires var a, v := Shl(TreeWidth(|txids|, LowLevel(|txids|)) - 1, LowLevel(|txids|)), TreeWidth(|txids|, height - 1);
      && Shl(v - 1, height - 1) <= a < |txids| < Shl(v, height - 1)
      && Fits(|txids|, 0, mask, height - 1, v - 1, v - 1)
    ensures var a, v, w := Shl(TreeWidth(|txids|, LowLevel(|txids|)) - 1, LowLevel(|txids|)), TreeWidth(|txids|, height - 1), TreeWidth(|txids|, height);
      && w > 0 && Shl(w - 1, height) <= a && |txids| < Shl(w, height)
      && Fits(|txids|, 0, mask, height, w - 1, w - 1)
      && Reshaped(h, txids, 0, mask, height, w - 1, w - 1).matches == Reshaped(h, txids, 0, mask, height - 1, v - 1, v - 1).matches
  {
    hide TreeWidth, Shl, ParentOfMatch, NodeHash, Reshaped, Fits, OnlyFirst, LowBit, TwoMatched, LowLevel;
    var n, m := |txids|, |mask|;
    var v, w := TreeWidth(n, height - 1), TreeWidth(n, height);
    LastNumbers(n, height);
    var pos := w - 1;
    BiggerShape(n, mask);
    WidthMonotone(n, m, height);
    WidthMonotone(n, m, height - 1);
    TwoLeavesBelow(n, mask, height, pos);
    ChildExists(n, height, pos);
    if v % 2 == 1 {
      if 2 * pos + 1 < TreeWidth(m, height - 1) {
        TwoLeavesBelow(n, mask, height - 1, 2 * pos + 1);
        ReshapedStop(h, txids, 0, mask, height - 1, 2 * pos + 1, Right(n, 0, height, pos));
      }
    } else {
      TwoLeavesBelow(n, mask, height - 1, 2 * pos);
      ReshapedStop(h, txids, 0, mask, height - 1, 2 * pos, 2 * pos);
    }
    FitsFold(h, txids, 0, mask, height, pos, pos);
  }

  lemma BiggerShape(n: nat, mask: seq<bool>)
    requires n > 0 && TwoMatched(n, mask)
    ensures n <= n + LowBit(n) / 2 < |mask|
  {
    hide TreeWidth, Shl, LowBit;
  }

  lemma LowLevelInside(n: nat, m: nat)
    requires 0 < n < m && TreeHeight(m) == TreeHeight(n)
    ensures LowLevel(n) < TreeHeight(n)
  {
    hide TreeWidth, TreeHeight, Shl, LowLevel, LowBit;
    var k, height := LowLevel(n), TreeHeight(n);
    AtLowLevel(n);
    NodeExists(m, height, 1);
    if k >= height {
      ShlGrows(1, height, k);
      NodeExists(n, k, 0);
      ShlMonotone(1, TreeWidth(n, k), k);
      assert false;
    }
  }

  lemma {:induction false} ShlGrows(x: nat, j: nat, k: nat)
    requires j <= k
    ensures Shl(x, j) <= Shl(x, k)
    decreases k
  {
    if j < k { ShlGrows(x, j, k - 1); }
  }

  function TwoLeaves(n: nat, a: nat, b: nat): (mask: seq<bool>)
    ensures |mask| == n
  {
    seq(n, i => i == a || i == b)
  }

  /** With a number of the same height that is greater by more than half the lowest bit, a txid is matched twice. */
  lemma GreaterMatchesTwice<D>(h: (D, D) -> D, txids: seq<D>, n: nat)
    requires txids != [] && |txids| + LowBit(|txids|) / 2 < n <= MAX_BLOCK_SIZE / 60 && TreeHeight(n) == TreeHeight(|txids|)
    ensures exists a, bits, hashes :: 0 <= a < |txids| && Extract(h, n, bits, hashes) == Some(Extraction(Root(h, txids), [txids[a], txids[a]]))
  {
    hide TreeWidth, TreeHeight, Shl, NodeHash, Extract, Reshaped, Fits, Root, LowBit, LowLevel;
    var k, height := LowLevel(|txids|), TreeHeight(|txids|);
    AtLowLevel(|txids|);
    var a := Shl(TreeWidth(|txids|, k) - 1, k);
    var mask := TwoLeaves(n, a, |txids|);
    LowLevelInside(|txids|, n);
    LastNodes(h, txids, mask, height);
    WholeTree(|txids|);
    ExtractReshaped(h, txids, 0, mask);
    var s := Reshaped(h, txids, 0, mask, height, 0, 0);
    assert Extract(h, n, s.bits, s.hashes) == Some(Extraction(Root(h, txids), [txids[a], txids[a]]));
  }

  // ---- Exactly when ----

  lemma TwiceNotPicked<D(!new)>(txids: seq<D>, a: nat)
    requires Distinct(txids) && a < |txids|
    ensures !Picked([txids[a], txids[a]], txids)
  {
    forall ps ensures !PickedAt([txids[a], txids[a]], txids, ps, 0, |txids|) {
      if |ps| == 2 && ps[0] < ps[1] < |txids| { assert txids[ps[0]] != txids[ps[1]]; }
    }
  }

  lemma PairNotPicked<D(!new)>(h: (D, D) -> D, txids: seq<D>, up: nat)
    requires NoPairs(h, txids) && up > 0 && 0 < TreeWidth(|txids|, up)
    ensures !Picked([NodeHash(h, txids, up, 0)], txids)
  {
    hide TreeWidth;
    ChildExists(|txids|, up, 0);
    NodeHashStep(h, txids, up, 0);
    var hash := NodeHash(h, txids, up, 0);
    forall ps ensures !PickedAt([hash], txids, ps, 0, |txids|) {
      if |ps| == 1 && ps[0] < |txids| { assert txids[ps[0]] != hash; }
    }
  }

  lemma NothingPicked<D(!new)>(txids: seq<D>)
    ensures Picked([], txids)
  {
    assert PickedAt([], txids, [], 0, |txids|);
  }

  /** The announced numbers with which a tree is refused, proves nothing, or proves its matches. */
  predicate SoundNumber(n: nat, length: nat)
    requires length > 0
  {
    || n == 0 || n > MAX_BLOCK_SIZE / 60 || TreeHeight(n) > TreeHeight(length)
    || (TreeHeight(n) == TreeHeight(length) && n <= length + LowBit(length) / 2)
  }

  lemma SoundWith<D(!new)>(h: (D, D) -> D, txids: seq<D>, n: nat)
    requires Injective(h) && Distinct(txids) && NoPairs(h, txids) && txids != [] && SoundNumber(n, |txids|)
    ensures Sound(h, txids, n)
  {
    hide TreeHeight, NoPairs, Picked, Injective, Distinct, LowBit, Root, Decode;
    forall bits, hashes | RootExtracted(h, txids, n, bits, hashes)
      ensures Picked(Extract(h, n, bits, hashes).value.matches, txids)
    {
      if TreeHeight(n) > TreeHeight(|txids|) {
        TallerEmpty(h, txids, n, bits, hashes);
        NothingPicked(txids);
      } else {
        ExtractSound(h, txids, n, bits, hashes);
      }
    }
  }

  lemma UnsoundWith<D(!new)>(h: (D, D) -> D, txids: seq<D>, n: nat)
    requires Distinct(txids) && NoPairs(h, txids) && txids != [] && !SoundNumber(n, |txids|)
    ensures !Sound(h, txids, n)
  {
    hide TreeHeight, NoPairs, Picked, Distinct, LowBit, Root, Extract, NodeHash, TreeWidth;
    if TreeHeight(n) < TreeHeight(|txids|) {
      var up := TreeHeight(|txids|) - TreeHeight(n);
      ShorterMatches(h, txids, n);
      PairNotPicked(h, txids, up);
      var bits, hashes :| Extract(h, n, bits, hashes) == Some(Extraction(Root(h, txids), [NodeHash(h, txids, up, 0)]));
      assert RootExtracted(h, txids, n, bits, hashes);
    } else {
      GreaterMatchesTwice(h, txids, n);
      var a, bits, hashes :| 0 <= a < |txids| && Extract(h, n, bits, hashes) == Some(Extraction(Root(h, txids), [txids[a], txids[a]]));
      TwiceNotPicked(txids, a);
      assert RootExtracted(h, txids, n, bits, hashes);
    }
  }

  /** For different txids none of which is the hash of a pair, an announced number keeps the proof sound if and only if
      it is one of these. */
  lemma SoundExactly<D(!new)>(h: (D, D) -> D, txids: seq<D>, n: nat)
    requires Injective(h) && Distinct(txids) && NoPairs(h, txids) && txids != []
    ensures Sound(h, txids, n) <==> SoundNumber(n, |txids|)
  {
    if SoundNumber(n, |txids|) { SoundWith(h, txids, n); } else { UnsoundWith(h, txids, n); }
  }

  // ---- The smallest examples ----

  lemma SmallWidths()
    ensures TreeWidth(1, 0) == 1 && TreeHeight(1) == 0
    ensures TreeWidth(2, 0) == 2 && TreeWidth(2, 1) == 1 && TreeHeight(2) == 1
    ensures TreeWidth(4, 0) == 4 && TreeWidth(4, 1) == 2 && TreeWidth(4, 2) == 1 && TreeHeight(4) == 2
  {
    hide TreeWidth, TreeHeight;
    LeafWidth(1);
    LeafWidth(2);
    LeafWidth(4);
    WidthHalves(2, 0);
    WidthHalves(4, 0);
    WidthHalves(4, 1);
  }

  lemma DecodeLeaf<D>(h: (D, D) -> D, n: nat, bits: seq<bool>, hashes: seq<D>, pos: nat, bitsUsed: nat, hashesUsed: nat)
    requires bitsUsed < |bits| && hashesUsed < |hashes|
    ensures Decode(h, n, bits, hashes, 0, pos, bitsUsed, hashesUsed)
         == Some(Decoded(hashes[hashesUsed], bitsUsed + 1, hashesUsed + 1, if bits[bitsUsed] then [hashes[hashesUsed]] else []))
  {
  }

  lemma TwoDecoded<D>(h: (D, D) -> D, n: nat, bits: seq<bool>, hashes: seq<D>, pos: nat, bitsUsed: nat, hashesUsed: nat)
    requires bitsUsed + 3 <= |bits| && hashesUsed + 2 <= |hashes| && 2 * pos + 1 < TreeWidth(n, 0) && bits[bitsUsed]
    ensures var x, y := hashes[hashesUsed], hashes[hashesUsed + 1];
      Decode(h, n, bits, hashes, 1, pos, bitsUsed, hashesUsed)
      == Some(Decoded(h(x, y), bitsUsed + 3, hashesUsed + 2,
                      (if bits[bitsUsed + 1] then [x] else []) + (if bits[bitsUsed + 2] then [y] else [])))
  {
    hide TreeWidth, Decode;
    DecodeLeaf(h, n, bits, hashes, 2 * pos, bitsUsed + 1, hashesUsed);
    DecodeLeaf(h, n, bits, hashes, 2 * pos + 1, bitsUsed + 2, hashesUsed + 1);
    DecodeStep(h, n, bits, hashes, 1, pos, bitsUsed, hashesUsed);
  }

  lemma RootOfOne<D>(h: (D, D) -> D, a: D)
    ensures Root(h, [a]) == a
  {
    hide TreeWidth, TreeHeight;
    SmallWidths();
  }

  lemma RootOfTwo<D>(h: (D, D) -> D, txids: seq<D>, pos: nat)
    requires 2 * pos + 1 < |txids|
    ensures pos < TreeWidth(|txids|, 1) && NodeHash(h, txids, 1, pos) == h(txids[2 * pos], txids[2 * pos + 1])
  {
    hide TreeWidth;
    LeafWidth(|txids|);
    WidthHalves(|txids|, 0);
    NodeHashStep(h, txids, 1, pos);
    LeafNode(h, txids, 2 * pos);
    LeafNode(h, txids, 2 * pos + 1);
  }

  lemma RootsOfMore<D>(h: (D, D) -> D, a: D, b: D, c: D, d: D)
    ensures Root(h, [a, b, c]) == h(h(a, b), h(c, c)) && Root(h, [a, b, c, d]) == h(h(a, b), h(c, d))
  {
    hide TreeWidth, TreeHeight, NodeHash;
    SmallWidths();
    ThreeLeaves();
    var three, four := [a, b, c], [a, b, c, d];
    RootOfTwo(h, three, 0);
    NodeHashStep(h, three, 1, 1);
    LeafNode(h, three, 2);
    NodeHashStep(h, three, 2, 0);
    RootOfTwo(h, four, 0);
    RootOfTwo(h, four, 1);
    NodeHashStep(h, four, 2, 0);
  }

  /** Four transactions announced for three: the last one is matched twice. */
  lemma FourForThree<D>(h: (D, D) -> D, a: D, b: D, c: D)
    ensures Extract(h, 4, [true, true, true, true, true, true, true], [a, b, c, c])
         == Some(Extraction(Root(h, [a, b, c]), [a, b, c, c]))
  {
    hide TreeWidth, TreeHeight, Decode, Root;
    var bits, hashes := [true, true, true, true, true, true, true], [a, b, c, c];
    SmallWidths();
    TwoDecoded(h, 4, bits, hashes, 0, 1, 0);
    TwoDecoded(h, 4, bits, hashes, 1, 4, 2);
    DecodeStep(h, 4, bits, hashes, 2, 0, 0, 0);
    RootsOfMore(h, a, b, c, c);
    assert ([a] + [b]) + ([c] + [c]) == [a, b, c, c];
  }

  lemma ExtractTwo<D>(h: (D, D) -> D, x: D, y: D)
    ensures Extract(h, 2, [true, true, false], [x, y]) == Some(Extraction(h(x, y), [x]))
  {
    hide TreeWidth, TreeHeight, Decode;
    SmallWidths();
    TwoDecoded(h, 2, [true, true, false], [x, y], 0, 0, 0);
    assert [x] + [] == [x];
  }

  /** Two announced for four: an inner node is matched. */
  lemma TwoForFour<D>(h: (D, D) -> D, a: D, b: D, c: D, d: D)
    ensures Extract(h, 2, [true, true, false], [h(a, b), h(c, d)]) == Some(Extraction(Root(h, [a, b, c, d]), [h(a, b)]))
  {
    hide Extract, Root;
    ExtractTwo(h, h(a, b), h(c, d));
    RootsOfMore(h, a, b, c, d);
  }

  /** And two for one whose txid is the hash of a pair: half of the pair is matched. */
  lemma TwoForOne<D>(h: (D, D) -> D, a: D, b: D)
    ensures Extract(h, 2, [true, true, false], [a, b]) == Some(Extraction(Root(h, [h(a, b)]), [a]))
  {
    hide Extract, Root;
    ExtractTwo(h, a, b);
    RootOfOne(h, h(a, b));
  }
}
