/**
 Partial Merkle trees: src/main.cpp and src/main.h, CPartialMerkleTree.

 A partial tree authenticates a subset of a block's txids.  It is a depth-first list of
 flag bits and a list of hashes.  `Encode` and `Decode` describe the two traversals as
 functions; PartialMerkleTree runs them on fields and cursors, as the program does, and
 PartialMerkleSound says what a received tree proves.
 */
module PartialMerkle {
  import opened Transactions
  import opened Wrappers
  import opened Shifts
  import opened Merkle

  datatype Encoding<D> = Encoding(bits: seq<bool>, hashes: seq<D>)
  datatype Decoded<D> = Decoded(hash: D, bitsUsed: nat, hashesUsed: nat, matches: seq<D>)
  datatype Extraction<D> = Extraction(root: D, matches: seq<D>)

  /** One past the last leaf below a node. */
  function LeafEnd(n: nat, height: nat, pos: nat): nat {
    var e := Shl(pos + 1, height);
    if e < n then e else n
  }

  /** Whether some leaf in `[lo, hi)` is matched. */
  predicate AnyMatch(mask: seq<bool>, lo: nat, hi: nat)
    requires hi <= |mask|
  {
    exists p :: lo <= p < hi && mask[p]
  }

  predicate ParentOfMatch(mask: seq<bool>, height: nat, pos: nat) {
    AnyMatch(mask, Shl(pos, height), LeafEnd(|mask|, height, pos))
  }

  /** The matched txids among leaves `[lo, hi)`, in order. */
  function Selected<D>(txids: seq<D>, mask: seq<bool>, lo: nat, hi: nat): seq<D>
    requires lo <= hi <= |txids| == |mask|
    decreases hi - lo
  {
    if lo == hi then []
    else (if mask[lo] then [txids[lo]] else []) + Selected(txids, mask, lo + 1, hi)
  }

  lemma {:induction false} SelectedSplit<D>(txids: seq<D>, mask: seq<bool>, lo: nat, mid: nat, hi: nat)
    requires lo <= mid <= hi <= |txids| == |mask|
    ensures Selected(txids, mask, lo, hi) == Selected(txids, mask, lo, mid) + Selected(txids, mask, mid, hi)
    decreases mid - lo
  {
    if lo < mid { SelectedSplit(txids, mask, lo + 1, mid, hi); }
  }

  lemma {:induction false} SelectedNone<D>(txids: seq<D>, mask: seq<bool>, lo: nat, hi: nat)
    requires lo <= hi <= |txids| == |mask|
    ensures Selected(txids, mask, lo, hi) == [] <==> !AnyMatch(mask, lo, hi)
    decreases hi - lo
  {
    if lo < hi { SelectedNone(txids, mask, lo + 1, hi); }
  }

  lemma SelectedSingle<D>(txids: seq<D>, mask: seq<bool>, pos: nat)
    requires pos < |txids| == |mask|
    ensures Selected(txids, mask, pos, pos + 1) == if mask[pos] then [txids[pos]] else []
  {
    assert Selected(txids, mask, pos + 1, pos + 1) == [];
  }

  /** How the leaves of an inner node are shared between its one or two children. */
  lemma LeafRanges(n: nat, height: nat, pos: nat)
    requires height > 0 && pos < TreeWidth(n, height)
    ensures var lo, hi := Shl(pos, height), LeafEnd(n, height, pos);
      && lo < hi <= n
      && lo == Shl(2 * pos, height - 1) < LeafEnd(n, height - 1, 2 * pos)
      && 2 * pos < TreeWidth(n, height - 1)
      && if 2 * pos + 1 < TreeWidth(n, height - 1)
         then LeafEnd(n, height - 1, 2 * pos) == Shl(2 * pos + 1, height - 1) < hi
           && LeafEnd(n, height - 1, 2 * pos + 1) == hi
         else LeafEnd(n, height - 1, 2 * pos) == hi
  {
    hide TreeWidth, Shl;
    ChildExists(n, height, pos);
    NodeExists(n, height, pos);
    NodeExists(n, height - 1, 2 * pos + 1);
    ShlDouble(pos, height - 1);
    ShlDouble(pos + 1, height - 1);
    ShlAdd(pos, 1, height);
    ShlAdd(2 * pos, 1, height - 1);
    ShlAdd(2 * pos + 1, 1, height - 1);
  }

  lemma LeafRange(n: nat, pos: nat)
    requires pos < TreeWidth(n, 0)
    ensures Shl(pos, 0) == pos < n && LeafEnd(n, 0, pos) == pos + 1
  {
    NodeExists(n, 0, pos);
  }

  /** The bits and hashes of the partial tree below a node. */
  function Encode<D>(h: (D, D) -> D, txids: seq<D>, mask: seq<bool>, height: nat, pos: nat): Encoding<D>
    requires |mask| == |txids| && pos < TreeWidth(|txids|, height)
    decreases height
  {
    var flag := ParentOfMatch(mask, height, pos);
    if height == 0 || !flag then
      Encoding([flag], [NodeHash(h, txids, height, pos)])
    else
      ChildExists(|txids|, height, pos);
      var left := Encode(h, txids, mask, height - 1, 2 * pos);
      if 2 * pos + 1 < TreeWidth(|txids|, height - 1) then
        var right := Encode(h, txids, mask, height - 1, 2 * pos + 1);
        Encoding([flag] + left.bits + right.bits, left.hashes + right.hashes)
      else
        Encoding([flag] + left.bits, left.hashes)
  }

  /** Reads a partial tree at the given cursors; None when it runs out of bits or hashes. */
  function Decode<D>(h: (D, D) -> D, n: nat, bits: seq<bool>, hashes: seq<D>,
                     height: nat, pos: nat, bitsUsed: nat, hashesUsed: nat): Option<Decoded<D>>
    decreases height
  {
    if bitsUsed >= |bits| then None
    else if height == 0 || !bits[bitsUsed] then
      if hashesUsed >= |hashes| then None
      else
        var hash := hashes[hashesUsed];
        Some(Decoded(hash, bitsUsed + 1, hashesUsed + 1, if height == 0 && bits[bitsUsed] then [hash] else []))
    else
      var left := Decode(h, n, bits, hashes, height - 1, 2 * pos, bitsUsed + 1, hashesUsed);
      if left.None? then None
      else if 2 * pos + 1 < TreeWidth(n, height - 1) then
        var l := left.value;
        var right := Decode(h, n, bits, hashes, height - 1, 2 * pos + 1, l.bitsUsed, l.hashesUsed);
        if right.None? then None
        else Some(Decoded(h(l.hash, right.value.hash), right.value.bitsUsed, right.value.hashesUsed,
                          l.matches + right.value.matches))
      else
        Some(left.value.(hash := h(left.value.hash, left.value.hash)))
  }

  /** `part` stands in `whole` at `at`. */
  ghost predicate At<T>(whole: seq<T>, part: seq<T>, at: nat) {
    at + |part| <= |whole| && whole[at..at + |part|] == part
  }

  lemma AtSplit<T>(whole: seq<T>, a: seq<T>, b: seq<T>, at: nat)
    requires At(whole, a + b, at)
    ensures At(whole, a, at) && At(whole, b, at + |a|)
  {
    var both := whole[at..at + |a| + |b|];
    assert both[..|a|] == whole[at..at + |a|];
    assert both[|a|..] == whole[at + |a|..at + |a| + |b|];
  }

  /** Decoding undoes encoding, wherever the encoding stands and whatever follows it. */
  lemma {:induction false} DecodeEncode<D>(h: (D, D) -> D, txids: seq<D>, mask: seq<bool>, bits: seq<bool>, hashes: seq<D>,
                                           height: nat, pos: nat, bitsUsed: nat, hashesUsed: nat)
    requires |mask| == |txids| && pos < TreeWidth(|txids|, height)
    requires At(bits, Encode(h, txids, mask, height, pos).bits, bitsUsed)
    requires At(hashes, Encode(h, txids, mask, height, pos).hashes, hashesUsed)
    ensures Shl(pos, height) <= LeafEnd(|txids|, height, pos)
    ensures var e := Encode(h, txids, mask, height, pos);
      Decode(h, |txids|, bits, hashes, height, pos, bitsUsed, hashesUsed) ==
      Some(Decoded(NodeHash(h, txids, height, pos), bitsUsed + |e.bits|, hashesUsed + |e.hashes|,
                   Selected(txids, mask, Shl(pos, height), LeafEnd(|txids|, height, pos))))
    decreases height
  {
    hide TreeWidth, Shl, Selected, ParentOfMatch, NodeHash, Encode, Decode, At;
    if height == 0 || !ParentOfMatch(mask, height, pos) {
      DecodeEncodeStop(h, txids, mask, bits, hashes, height, pos, bitsUsed, hashesUsed);
    } else {
      EncodingParts(h, txids, mask, bits, hashes, height, pos, bitsUsed, hashesUsed);
      LeafRanges(|txids|, height, pos);
      var left := Encode(h, txids, mask, height - 1, 2 * pos);
      DecodeEncode(h, txids, mask, bits, hashes, height - 1, 2 * pos, bitsUsed + 1, hashesUsed);
      if 2 * pos + 1 < TreeWidth(|txids|, height - 1) {
        DecodeEncode(h, txids, mask, bits, hashes, height - 1, 2 * pos + 1,
                     bitsUsed + 1 + |left.bits|, hashesUsed + |left.hashes|);
        SelectedSplit(txids, mask, Shl(pos, height), Shl(2 * pos + 1, height - 1), LeafEnd(|txids|, height, pos));
      }
      NodeHashStep(h, txids, height, pos);
      DecodeStep(h, |txids|, bits, hashes, height, pos, bitsUsed, hashesUsed);
    }
  }

  lemma DecodeStep<D>(h: (D, D) -> D, n: nat, bits: seq<bool>, hashes: seq<D>,
                      height: nat, pos: nat, bitsUsed: nat, hashesUsed: nat)
    requires height > 0 && bitsUsed < |bits| && bits[bitsUsed]
    requires Decode(h, n, bits, hashes, height - 1, 2 * pos, bitsUsed + 1, hashesUsed).Some?
    ensures var d := Decode(h, n, bits, hashes, height, pos, bitsUsed, hashesUsed);
      var l := Decode(h, n, bits, hashes, height - 1, 2 * pos, bitsUsed + 1, hashesUsed).value;
      if 2 * pos + 1 < TreeWidth(n, height - 1) then
        var r := Decode(h, n, bits, hashes, height - 1, 2 * pos + 1, l.bitsUsed, l.hashesUsed);
        d == if r.None? then None
             else Some(Decoded(h(l.hash, r.value.hash), r.value.bitsUsed, r.value.hashesUsed, l.matches + r.value.matches))
      else d == Some(l.(hash := h(l.hash, l.hash)))
  {
  }

  lemma NodeHashStep<D>(h: (D, D) -> D, txids: seq<D>, height: nat, pos: nat)
    requires height > 0 && pos < TreeWidth(|txids|, height) && 2 * pos < TreeWidth(|txids|, height - 1)
    ensures NodeHash(h, txids, height, pos) ==
            var left := NodeHash(h, txids, height - 1, 2 * pos);
            if 2 * pos + 1 < TreeWidth(|txids|, height - 1)
            then h(left, NodeHash(h, txids, height - 1, 2 * pos + 1)) else h(left, left)
  {
  }

  lemma DecodeEncodeStop<D>(h: (D, D) -> D, txids: seq<D>, mask: seq<bool>, bits: seq<bool>, hashes: seq<D>,
                            height: nat, pos: nat, bitsUsed: nat, hashesUsed: nat)
    requires |mask| == |txids| && pos < TreeWidth(|txids|, height)
    requires height == 0 || !ParentOfMatch(mask, height, pos)
    requires At(bits, Encode(h, txids, mask, height, pos).bits, bitsUsed)
    requires At(hashes, Encode(h, txids, mask, height, pos).hashes, hashesUsed)
    ensures Shl(pos, height) <= LeafEnd(|txids|, height, pos)
    ensures var e := Encode(h, txids, mask, height, pos);
      Decode(h, |txids|, bits, hashes, height, pos, bitsUsed, hashesUsed) ==
      Some(Decoded(NodeHash(h, txids, height, pos), bitsUsed + |e.bits|, hashesUsed + |e.hashes|,
                   Selected(txids, mask, Shl(pos, height), LeafEnd(|txids|, height, pos))))
  {
    hide TreeWidth, Shl, Selected, ParentOfMatch;
    assert bits[bitsUsed] == bits[bitsUsed..bitsUsed + 1][0];
    assert hashes[hashesUsed] == hashes[hashesUsed..hashesUsed + 1][0];
    EncodeStops(txids, mask, height, pos);
    if height == 0 {
      LeafRange(|txids|, pos);
    }
  }

  lemma EncodeStep<D>(h: (D, D) -> D, txids: seq<D>, mask: seq<bool>, height: nat, pos: nat)
    requires |mask| == |txids| && pos < TreeWidth(|txids|, height)
    requires height > 0 && ParentOfMatch(mask, height, pos) && 2 * pos < TreeWidth(|txids|, height - 1)
    ensures Encode(h, txids, mask, height, pos) ==
      var left := Encode(h, txids, mask, height - 1, 2 * pos);
      if 2 * pos + 1 < TreeWidth(|txids|, height - 1) then
        var right := Encode(h, txids, mask, height - 1, 2 * pos + 1);
        Encoding([true] + left.bits + right.bits, left.hashes + right.hashes)
      else Encoding([true] + left.bits, left.hashes)
  {
  }

  /** An encoding of an inner node stands where its flag and its children's encodings stand. */
  lemma EncodingParts<D>(h: (D, D) -> D, txids: seq<D>, mask: seq<bool>, bits: seq<bool>, hashes: seq<D>,
                         height: nat, pos: nat, bitsUsed: nat, hashesUsed: nat)
    requires |mask| == |txids| && pos < TreeWidth(|txids|, height)
    requires height > 0 && ParentOfMatch(mask, height, pos)
    requires At(bits, Encode(h, txids, mask, height, pos).bits, bitsUsed)
    requires At(hashes, Encode(h, txids, mask, height, pos).hashes, hashesUsed)
    ensures bitsUsed < |bits| && bits[bitsUsed]
    ensures 2 * pos < TreeWidth(|txids|, height - 1)
    ensures var e := Encode(h, txids, mask, height, pos);
      var left := Encode(h, txids, mask, height - 1, 2 * pos);
      && At(bits, left.bits, bitsUsed + 1) && At(hashes, left.hashes, hashesUsed)
      && (2 * pos + 1 < TreeWidth(|txids|, height - 1) ==>
            var right := Encode(h, txids, mask, height - 1, 2 * pos + 1);
            && At(bits, right.bits, bitsUsed + 1 + |left.bits|)
            && At(hashes, right.hashes, hashesUsed + |left.hashes|)
            && |e.bits| == 1 + |left.bits| + |right.bits| && |e.hashes| == |left.hashes| + |right.hashes|)
      && (2 * pos + 1 >= TreeWidth(|txids|, height - 1) ==>
            |e.bits| == 1 + |left.bits| && |e.hashes| == |left.hashes|)
  {
    hide TreeWidth, Shl, ParentOfMatch, NodeHash, Encode;
    ChildExists(|txids|, height, pos);
    EncodeStep(h, txids, mask, height, pos);
    var e := Encode(h, txids, mask, height, pos);
    var left := Encode(h, txids, mask, height - 1, 2 * pos);
    if 2 * pos + 1 < TreeWidth(|txids|, height - 1) {
      var right := Encode(h, txids, mask, height - 1, 2 * pos + 1);
      assert e.bits == [true] + (left.bits + right.bits);
      AtSplit(bits, [true], left.bits + right.bits, bitsUsed);
      AtSplit(bits, left.bits, right.bits, bitsUsed + 1);
      AtSplit(hashes, left.hashes, right.hashes, hashesUsed);
    } else {
      AtSplit(bits, [true], left.bits, bitsUsed);
    }
    assert bits[bitsUsed] == bits[bitsUsed..bitsUsed + 1][0];
  }

  /** Where the traversal stops, the node contributes its own txid or nothing. */
  lemma EncodeStops<D>(txids: seq<D>, mask: seq<bool>, height: nat, pos: nat)
    requires |mask| == |txids| && pos < TreeWidth(|txids|, height)
    requires height == 0 || !ParentOfMatch(mask, height, pos)
    ensures Shl(pos, height) <= LeafEnd(|txids|, height, pos)
    ensures Selected(txids, mask, Shl(pos, height), LeafEnd(|txids|, height, pos)) ==
            if height == 0 && ParentOfMatch(mask, height, pos) then [txids[pos]] else []
  {
    hide TreeWidth, Shl;
    if height == 0 {
      LeafRange(|txids|, pos);
      assert ParentOfMatch(mask, 0, pos) <==> mask[pos];
      SelectedSingle(txids, mask, pos);
    } else {
      LeafRanges(|txids|, height, pos);
      SelectedNone(txids, mask, Shl(pos, height), LeafEnd(|txids|, height, pos));
    }
  }

  /** The number of nodes a traversal descends through that have only one child. */
  function LoneChildren(mask: seq<bool>, height: nat, pos: nat): nat
    decreases height
  {
    if height == 0 || !ParentOfMatch(mask, height, pos) then 0
    else if 2 * pos + 1 < TreeWidth(|mask|, height - 1) then
      LoneChildren(mask, height - 1, 2 * pos) + LoneChildren(mask, height - 1, 2 * pos + 1)
    else 1 + LoneChildren(mask, height - 1, 2 * pos)
  }

  /** The number of matches below a node. */
  function MatchesBelow<D>(txids: seq<D>, mask: seq<bool>, height: nat, pos: nat): nat
    requires |mask| == |txids| && pos < TreeWidth(|txids|, height)
    requires Shl(pos, height) <= LeafEnd(|txids|, height, pos)
  {
    |Selected(txids, mask, Shl(pos, height), LeafEnd(|txids|, height, pos))|
  }

  /** The size bounds that the class comment promises, except the one on bits: it promises at most
      2N-1 bits for N hashes, but every node with a lone child adds one more. */
  lemma {:induction false} EncodeSize<D>(h: (D, D) -> D, txids: seq<D>, mask: seq<bool>, height: nat, pos: nat)
    requires |mask| == |txids| && pos < TreeWidth(|txids|, height)
    ensures Shl(pos, height) <= LeafEnd(|txids|, height, pos)
    ensures var e, m := Encode(h, txids, mask, height, pos), MatchesBelow(txids, mask, height, pos);
      && 1 <= |e.hashes| <= LeafEnd(|txids|, height, pos) - Shl(pos, height)
      && |e.hashes| <= 1 + m * height
      && |e.bits| <= 1 + 2 * (m * height)
      && |e.bits| == 2 * |e.hashes| - 1 + LoneChildren(mask, height, pos)
    decreases height
  {
    hide TreeWidth, Shl, Selected, ParentOfMatch, NodeHash, Encode;
    var n := |txids|;
    if height == 0 || !ParentOfMatch(mask, height, pos) {
      EncodeStopSize(h, txids, mask, height, pos);
    } else {
      EncodeStopsNot(txids, mask, height, pos);
      LeafRanges(n, height, pos);
      EncodeStep(h, txids, mask, height, pos);
      EncodeSize(h, txids, mask, height - 1, 2 * pos);
      var l := MatchesBelow(txids, mask, height - 1, 2 * pos);
      if 2 * pos + 1 < TreeWidth(n, height - 1) {
        EncodeSize(h, txids, mask, height - 1, 2 * pos + 1);
        SelectedSplit(txids, mask, Shl(pos, height), Shl(2 * pos + 1, height - 1), LeafEnd(n, height, pos));
        OneLevelMore(l, MatchesBelow(txids, mask, height - 1, 2 * pos + 1), height);
      } else {
        OneLevelMore(l, 0, height);
      }
    }
  }

  lemma OneLevelMore(l: nat, r: nat, height: nat)
    requires height > 0 && l + r > 0
    ensures l * (height - 1) + r * (height - 1) + 1 <= (l + r) * height
  {
    assert (l + r) * height == l * (height - 1) + r * (height - 1) + l + r;
  }

  lemma EncodeStopSize<D>(h: (D, D) -> D, txids: seq<D>, mask: seq<bool>, height: nat, pos: nat)
    requires |mask| == |txids| && pos < TreeWidth(|txids|, height)
    requires height == 0 || !ParentOfMatch(mask, height, pos)
    ensures Shl(pos, height) < LeafEnd(|txids|, height, pos)
    ensures var e := Encode(h, txids, mask, height, pos);
      |e.bits| == |e.hashes| == 1 && LoneChildren(mask, height, pos) == 0
  {
    hide TreeWidth, Shl;
    if height == 0 { LeafRange(|txids|, pos); } else { LeafRanges(|txids|, height, pos); }
  }

  lemma EncodeStopsNot<D>(txids: seq<D>, mask: seq<bool>, height: nat, pos: nat)
    requires |mask| == |txids| && pos < TreeWidth(|txids|, height)
    requires height > 0 && ParentOfMatch(mask, height, pos)
    ensures Shl(pos, height) <= LeafEnd(|txids|, height, pos)
    ensures MatchesBelow(txids, mask, height, pos) > 0
  {
    hide TreeWidth, Shl;
    LeafRanges(|txids|, height, pos);
    SelectedNone(txids, mask, Shl(pos, height), LeafEnd(|txids|, height, pos));
  }

  /** A list of three txids with the last one matched: four bits for two hashes. */
  lemma BitBoundCounterexample<D>(h: (D, D) -> D, a: D, b: D, c: D)
    ensures TreeHeight(3) == 2 && 0 < TreeWidth(3, 2)
    ensures var e := Encode(h, [a, b, c], [false, false, true], 2, 0);
      |e.bits| == 4 && |e.hashes| == 2
  {
    hide Encode, NodeHash, LoneChildren, TreeWidth, TreeHeight, Shl, ParentOfMatch;
    var txids, mask := [a, b, c], [false, false, true];
    ThreeLeaves();
    ThreeMask(mask);
    EncodeStep(h, txids, mask, 2, 0);
    EncodeStopSize(h, txids, mask, 1, 0);
    EncodeStep(h, txids, mask, 1, 1);
    EncodeStopSize(h, txids, mask, 0, 2);
  }

  lemma ThreeMask(mask: seq<bool>)
    requires mask == [false, false, true]
    ensures ParentOfMatch(mask, 2, 0) && ParentOfMatch(mask, 1, 1) && !ParentOfMatch(mask, 1, 0)
  {
    hide Shl, TreeWidth, TreeHeight, AnyMatch;
    ThreeLeaves();
    assert LeafEnd(3, 2, 0) == 3 && LeafEnd(3, 1, 1) == 3 && LeafEnd(3, 1, 0) == 2;
    OnlyThird(mask);
  }

  lemma OnlyThird(mask: seq<bool>)
    requires mask == [false, false, true]
    ensures AnyMatch(mask, 0, 3) && AnyMatch(mask, 2, 3) && !AnyMatch(mask, 0, 2)
  {
    assert mask[2];
  }

  lemma ThreeLeaves()
    ensures TreeWidth(3, 0) == 3 && TreeWidth(3, 1) == 2 && TreeWidth(3, 2) == 1 && TreeHeight(3) == 2
    ensures Shl(0, 2) == 0 && Shl(1, 2) == 4 && Shl(0, 1) == 0 && Shl(1, 1) == 2 && Shl(2, 1) == 4
  {
    hide TreeWidth;
    assert Shl(1, 0) == 1 && Shl(1, 1) == 2 && Shl(1, 2) == 4;
    assert TreeWidth(3, 0) == 3 by { NodeExists(3, 0, 2); NodeExists(3, 0, 3); }
    WidthHalves(3, 0);
    WidthHalves(3, 1);
  }

  /** The whole tree: what the constructor stores. */
  function EncodeTree<D>(h: (D, D) -> D, txids: seq<D>, mask: seq<bool>): Encoding<D>
    requires |mask| == |txids| > 0
  {
    Encode(h, txids, mask, TreeHeight(|txids|), 0)
  }

  /** What ExtractMatches computes: None wherever it returns 0. */
  function Extract<D>(h: (D, D) -> D, n: nat, bits: seq<bool>, hashes: seq<D>): Option<Extraction<D>> {
    if n == 0 || n > MAX_BLOCK_SIZE / 60 || |hashes| > n || |bits| < |hashes| then None
    else
      var d := Decode(h, n, bits, hashes, TreeHeight(n), 0, 0, 0);
      if d.None? then None
      else if (d.value.bitsUsed + 7) / 8 != (|bits| + 7) / 8 then None
      else if d.value.hashesUsed != |hashes| then None
      else Some(Extraction(d.value.hash, d.value.matches))
  }

  lemma WholeTree(n: nat)
    requires n > 0
    ensures TreeWidth(n, TreeHeight(n)) == 1
    ensures Shl(0, TreeHeight(n)) == 0 && LeafEnd(n, TreeHeight(n), 0) == n
  {
    hide TreeWidth, TreeHeight;
    NodeExists(n, TreeHeight(n), 1);
  }

  /** The widths that the program computes with 32-bit unsigned numbers do not wrap around. */
  lemma WidthFitsUint32(n: nat, k: nat)
    requires 0 < n <= 0x4000_0000 && k <= TreeHeight(n)
    ensures n + Shl(1, k) - 1 < 0x1_0000_0000
  {
    hide TreeWidth, TreeHeight;
    if k > 0 {
      NodeExists(n, k - 1, 1);
    }
  }

  /** Round trip: extracting from a constructed tree, even with the padding that packing its bits into bytes
      adds, gives the true root and exactly the masked txids, in order. */
  lemma ExtractEncode<D>(h: (D, D) -> D, txids: seq<D>, mask: seq<bool>, padding: seq<bool>)
    requires |mask| == |txids| && 0 < |txids| <= MAX_BLOCK_SIZE / 60
    requires var e := EncodeTree(h, txids, mask); |padding| < 8 && (|e.bits| + |padding| + 7) / 8 == (|e.bits| + 7) / 8
    ensures var e := EncodeTree(h, txids, mask);
      Extract(h, |txids|, e.bits + padding, e.hashes) ==
      Some(Extraction(Root(h, txids), Selected(txids, mask, 0, |txids|)))
  {
    hide TreeWidth, TreeHeight, Decode, Encode, Selected, LoneChildren;
    WholeTree(|txids|);
    var e := EncodeTree(h, txids, mask);
    assert (e.bits + padding)[0..|e.bits|] == e.bits;
    assert e.hashes[0..|e.hashes|] == e.hashes;
    EncodeSize(h, txids, mask, TreeHeight(|txids|), 0);
    DecodeEncode(h, txids, mask, e.bits + padding, e.hashes, TreeHeight(|txids|), 0, 0, 0);
  }

  // ---- Nothing may be left over ----

  /** More bits and hashes behind what a traversal needs make no difference to it. */
  lemma {:induction false} DecodeExtended<D>(h: (D, D) -> D, n: nat, bits: seq<bool>, hashes: seq<D>, moreBits: seq<bool>,
                                             moreHashes: seq<D>, height: nat, pos: nat, bitsUsed: nat, hashesUsed: nat)
    requires Decode(h, n, bits, hashes, height, pos, bitsUsed, hashesUsed).Some?
    ensures Decode(h, n, bits + moreBits, hashes + moreHashes, height, pos, bitsUsed, hashesUsed)
         == Decode(h, n, bits, hashes, height, pos, bitsUsed, hashesUsed)
    decreases height
  {
    hide TreeWidth;
    if height > 0 && bits[bitsUsed] {
      DecodeExtended(h, n, bits, hashes, moreBits, moreHashes, height - 1, 2 * pos, bitsUsed + 1, hashesUsed);
      var l := Decode(h, n, bits, hashes, height - 1, 2 * pos, bitsUsed + 1, hashesUsed).value;
      if 2 * pos + 1 < TreeWidth(n, height - 1) {
        DecodeExtended(h, n, bits, hashes, moreBits, moreHashes, height - 1, 2 * pos + 1, l.bitsUsed, l.hashesUsed);
      }
    }
  }

  /** An accepted tree announces 1 to 16666 transactions.  With anything behind it but bits that fill its last byte it
      is refused, so no two accepted trees differ in what they leave unused. */
  lemma NothingUnused<D>(h: (D, D) -> D, n: nat, bits: seq<bool>, hashes: seq<D>, moreBits: seq<bool>, moreHashes: seq<D>)
    requires Extract(h, n, bits, hashes).Some?
    ensures 1 <= n <= 16_666
    ensures Extract(h, n, bits + moreBits, hashes + moreHashes)
         == if moreHashes == [] && (|bits| + |moreBits| + 7) / 8 == (|bits| + 7) / 8 then Extract(h, n, bits, hashes) else None
  {
    hide Decode, TreeHeight;
    DecodeExtended(h, n, bits, hashes, moreBits, moreHashes, TreeHeight(n), 0, 0, 0);
  }
}
