/**
 The class CPartialMerkleTree: src/main.cpp and src/main.h.

 Its methods move cursors and fill `vBits` and `vHash` in place; each is tied to the
 functions `Encode`, `Decode` and `Extract`, about which the properties are proved.
 */
module PartialMerkleTree {
  import opened Transactions
  import opened Wrappers
  import opened Shifts
  import opened Merkle
  import opened PartialMerkle

  /** `1 << i` in a byte. */
  function Bit(i: nat): bv8
    requires i < 8
  {
    1 << i
  }

  predicate BitOf(b: bv8, i: nat)
    requires i < 8
  {
    b & Bit(i) != 0
  }

  lemma BitValues()
    ensures Bit(0) == 1 && Bit(1) == 2 && Bit(2) == 4 && Bit(3) == 8
    ensures Bit(4) == 16 && Bit(5) == 32 && Bit(6) == 64 && Bit(7) == 128
  {
  }

  lemma SetBit(b: bv8, i: nat, j: nat)
    requires i < 8 && j < 8
    ensures BitOf(b | Bit(i), j) <==> i == j || BitOf(b, j)
  {
    BitValues();
    if i != j {
      assert Bit(i) & Bit(j) == 0;
      assert (b | Bit(i)) & Bit(j) == (b & Bit(j)) | (Bit(i) & Bit(j));
    } else {
      assert (b | Bit(i)) & Bit(i) == Bit(i);
    }
  }

  /** Bits packed eight to a byte, least significant first, the last byte padded with zeros. */
  ghost predicate Packs(bits: seq<bool>, bytes: seq<bv8>) {
    && |bytes| == (|bits| + 7) / 8
    && forall p: nat :: p < 8 * |bytes| ==> (BitAt(bytes, p) <==> p < |bits| && bits[p])
  }

  predicate BitAt(bytes: seq<bv8>, p: nat)
    requires p < 8 * |bytes|
  {
    BitOf(bytes[p / 8], p % 8)
  }

  /** Unpacking a packed list gives the list back, with fewer than eight zero bits behind it. */
  lemma UnpackPacked(bits: seq<bool>, bytes: seq<bv8>, unpacked: seq<bool>)
    requires Packs(bits, bytes)
    requires |unpacked| == 8 * |bytes| && forall p: nat :: p < |unpacked| ==> unpacked[p] == BitAt(bytes, p)
    ensures |bits| <= |unpacked| < |bits| + 8 && unpacked[..|bits|] == bits
    ensures forall p: nat :: |bits| <= p < |unpacked| ==> !unpacked[p]
    ensures (|unpacked| + 7) / 8 == (|bits| + 7) / 8
  {
  }

  /** `vBytes[p / 8] |= vBits[p] << (p % 8)` for every p. */
  method PackBits(vBits: seq<bool>) returns (vBytes: seq<bv8>)
    ensures Packs(vBits, vBytes)
  {
    vBytes := seq((|vBits| + 7) / 8, _ => 0);
    var p := 0;
    while p < |vBits|
      invariant 0 <= p <= |vBits| && |vBytes| == (|vBits| + 7) / 8
      invariant forall q: nat :: q < 8 * |vBytes| ==> (BitAt(vBytes, q) <==> q < p && vBits[q])
    {
      var before := vBytes;
      vBytes := vBytes[p / 8 := vBytes[p / 8] | (if vBits[p] then Bit(p % 8) else 0)];
      forall q: nat | q < 8 * |vBytes|
        ensures BitAt(vBytes, q) <==> q < p + 1 && vBits[q]
      {
        assert BitAt(before, q) <==> q < p && vBits[q];
        if q / 8 == p / 8 {
          SetBit(before[p / 8], p % 8, q % 8);
          assert before[p / 8] | 0 == before[p / 8];
        }
      }
      p := p + 1;
    }
  }

  method UnpackBits(vBytes: seq<bv8>) returns (vBits: seq<bool>)
    ensures |vBits| == 8 * |vBytes|
    ensures forall p: nat :: p < |vBits| ==> vBits[p] == BitAt(vBytes, p)
  {
    vBits := [];
    var p := 0;
    while p < 8 * |vBytes|
      invariant 0 <= p == |vBits| <= 8 * |vBytes|
      invariant forall q: nat :: q < p ==> vBits[q] == BitAt(vBytes, q)
    {
      vBits := vBits + [vBytes[p / 8] & Bit(p % 8) != 0];
      p := p + 1;
    }
  }

  /** What goes over the wire. */
  datatype Message<D> = Message(nTransactions: nat, vHash: seq<D>, vBytes: seq<bv8>)

  class CPartialMerkleTree<D(==)> {
    const h: (D, D) -> D
    /** The value the traversal returns when it runs out of input. */
    const zero: D
    var nTransactions: nat
    var vBits: seq<bool>
    var vHash: seq<D>
    var fBad: bool

    constructor (h: (D, D) -> D, zero: D, vTxid: seq<D>, vMatch: seq<bool>)
      requires 0 < |vTxid| == |vMatch|
      ensures this.h == h && this.zero == zero && nTransactions == |vTxid| && !fBad
      ensures vBits == EncodeTree(h, vTxid, vMatch).bits && vHash == EncodeTree(h, vTxid, vMatch).hashes
    {
      this.h, this.zero := h, zero;
      nTransactions, fBad := |vTxid|, false;
      vBits, vHash := [], [];
      new;
      var nHeight := CalcHeight();
      WholeTree(|vTxid|);
      TraverseAndBuild(nHeight, 0, vTxid, vMatch);
      assert vBits == [] + EncodeTree(h, vTxid, vMatch).bits;
      assert vHash == [] + EncodeTree(h, vTxid, vMatch).hashes;
    }

    /** Reading a message replaces everything. */
    constructor Unserialize(h: (D, D) -> D, zero: D, m: Message<D>)
      ensures this.h == h && this.zero == zero && !fBad
      ensures nTransactions == m.nTransactions && vHash == m.vHash
      ensures |vBits| == 8 * |m.vBytes| && forall p: nat :: p < |vBits| ==> vBits[p] == BitAt(m.vBytes, p)
    {
      this.h, this.zero := h, zero;
      nTransactions, vHash, fBad := m.nTransactions, m.vHash, false;
      var bits := UnpackBits(m.vBytes);
      vBits := bits;
    }

    method Serialize() returns (m: Message<D>)
      ensures m.nTransactions == nTransactions && m.vHash == vHash && Packs(vBits, m.vBytes)
    {
      var vBytes := PackBits(vBits);
      m := Message(nTransactions, vHash, vBytes);
    }

    /** The loop that both the constructor and ExtractMatches start with. */
    method CalcHeight() returns (nHeight: nat)
      ensures nHeight == TreeHeight(nTransactions)
    {
      nHeight := 0;
      while TreeWidth(nTransactions, nHeight) > 1
        invariant nHeight <= TreeHeight(nTransactions)
        decreases TreeHeight(nTransactions) - nHeight
      {
        nHeight := nHeight + 1;
      }
    }

    method TraverseAndBuild(height: nat, pos: nat, vTxid: seq<D>, vMatch: seq<bool>)
      requires nTransactions == |vTxid| == |vMatch| && pos < TreeWidth(|vTxid|, height)
      modifies this`vBits, this`vHash
      ensures vBits == old(vBits) + Encode(h, vTxid, vMatch, height, pos).bits
      ensures vHash == old(vHash) + Encode(h, vTxid, vMatch, height, pos).hashes
      decreases height
    {
      hide TreeWidth, Shl, NodeHash, Encode, ParentOfMatch;
      var fParentOfMatch := IsParentOfMatch(height, pos, vMatch);
      vBits := vBits + [fParentOfMatch];
      if height == 0 || !fParentOfMatch {
        EncodeStop(h, vTxid, vMatch, height, pos);
        vHash := vHash + [NodeHash(h, vTxid, height, pos)];
      } else {
        ChildExists(|vTxid|, height, pos);
        EncodeStep(h, vTxid, vMatch, height, pos);
        TraverseAndBuild(height - 1, 2 * pos, vTxid, vMatch);
        if 2 * pos + 1 < TreeWidth(nTransactions, height - 1) {
          TraverseAndBuild(height - 1, 2 * pos + 1, vTxid, vMatch);
        }
      }
    }

    /** The loop that looks for a matched leaf below a node. */
    method IsParentOfMatch(height: nat, pos: nat, vMatch: seq<bool>) returns (fParentOfMatch: bool)
      requires nTransactions == |vMatch|
      ensures fParentOfMatch <==> ParentOfMatch(vMatch, height, pos)
    {
      hide Shl;
      fParentOfMatch := false;
      var p := Shl(pos, height);
      while p < Shl(pos + 1, height) && p < nTransactions
        invariant Shl(pos, height) <= p && (p <= LeafEnd(nTransactions, height, pos) || p == Shl(pos, height))
        invariant fParentOfMatch <==> p <= nTransactions && AnyMatch(vMatch, Shl(pos, height), p)
        decreases nTransactions - p
      {
        fParentOfMatch := fParentOfMatch || vMatch[p];
        p := p + 1;
      }
    }

    /** Cursors and matches are updated in place by the program; here they go in and come out.  Running out of
        input sets `fBad` and the traversal carries on with the zero hash. */
    method TraverseAndExtract(height: nat, pos: nat, bitsUsed: nat, hashesUsed: nat, matches: seq<D>)
      returns (hash: D, nBitsUsed: nat, nHashUsed: nat, vMatch: seq<D>)
      modifies this`fBad
      ensures var d := Decode(h, nTransactions, vBits, vHash, height, pos, bitsUsed, hashesUsed);
        && fBad == (old(fBad) || d.None?)
        && (d.Some? ==> d.value == Decoded(hash, nBitsUsed, nHashUsed, d.value.matches) && vMatch == matches + d.value.matches)
      decreases height
    {
      hide TreeWidth, Decode;
      DecodeUnfold(h, nTransactions, vBits, vHash, height, pos, bitsUsed, hashesUsed);
      nBitsUsed, nHashUsed, vMatch := bitsUsed, hashesUsed, matches;
      if nBitsUsed >= |vBits| {
        fBad := true;
        return zero, nBitsUsed, nHashUsed, vMatch;
      }
      var fParentOfMatch := vBits[nBitsUsed];
      nBitsUsed := nBitsUsed + 1;
      if height == 0 || !fParentOfMatch {
        if nHashUsed >= |vHash| {
          fBad := true;
          return zero, nBitsUsed, nHashUsed, vMatch;
        }
        hash := vHash[nHashUsed];
        nHashUsed := nHashUsed + 1;
        if height == 0 && fParentOfMatch {
          vMatch := vMatch + [hash];
        }
      } else {
        var left, right;
        ghost var l := Decode(h, nTransactions, vBits, vHash, height - 1, 2 * pos, nBitsUsed, nHashUsed);
        left, nBitsUsed, nHashUsed, vMatch := TraverseAndExtract(height - 1, 2 * pos, nBitsUsed, nHashUsed, vMatch);
        ghost var r := Decode(h, nTransactions, vBits, vHash, height - 1, 2 * pos + 1, nBitsUsed, nHashUsed);
        if l.Some? && r.Some? {
          assert (matches + l.value.matches) + r.value.matches == matches + (l.value.matches + r.value.matches);
        }
        if 2 * pos + 1 < TreeWidth(nTransactions, height - 1) {
          right, nBitsUsed, nHashUsed, vMatch := TraverseAndExtract(height - 1, 2 * pos + 1, nBitsUsed, nHashUsed, vMatch);
        } else {
          right := left;
        }
        hash := h(left, right);
      }
    }

    /** Returns the root and the matches, or None where the program returns the zero hash. */
    method ExtractMatches() returns (r: Option<Extraction<D>>)
      modifies this`fBad
      ensures r == if old(fBad) then None else Extract(h, nTransactions, vBits, vHash)
    {
      hide TreeWidth, Decode, TreeHeight;
      if nTransactions == 0 { return None; }
      if nTransactions > MAX_BLOCK_SIZE / 60 { return None; }
      if |vHash| > nTransactions { return None; }
      if |vBits| < |vHash| { return None; }
      var nHeight := CalcHeight();
      var hashMerkleRoot, nBitsUsed, nHashUsed, vMatch := TraverseAndExtract(nHeight, 0, 0, 0, []);
      assert [] + vMatch == vMatch;
      ghost var d := Decode(h, nTransactions, vBits, vHash, nHeight, 0, 0, 0);
      assert d.Some? ==> vMatch == d.value.matches;
      if fBad { return None; }
      if (nBitsUsed + 7) / 8 != (|vBits| + 7) / 8 { return None; }
      if nHashUsed != |vHash| { return None; }
      return Some(Extraction(hashMerkleRoot, vMatch));
    }
  }

  lemma DecodeUnfold<D>(h: (D, D) -> D, n: nat, bits: seq<bool>, hashes: seq<D>,
                        height: nat, pos: nat, bitsUsed: nat, hashesUsed: nat)
    ensures bitsUsed >= |bits| ==> Decode(h, n, bits, hashes, height, pos, bitsUsed, hashesUsed).None?
    ensures (bitsUsed < |bits| && (height == 0 || !bits[bitsUsed]) ==>
      Decode(h, n, bits, hashes, height, pos, bitsUsed, hashesUsed) ==
        if hashesUsed >= |hashes| then None
        else Some(Decoded(hashes[hashesUsed], bitsUsed + 1, hashesUsed + 1,
                          if height == 0 && bits[bitsUsed] then [hashes[hashesUsed]] else [])))
    ensures (bitsUsed < |bits| && height > 0 && bits[bitsUsed] ==>
      Decode(h, n, bits, hashes, height, pos, bitsUsed, hashesUsed) ==
        var left := Decode(h, n, bits, hashes, height - 1, 2 * pos, bitsUsed + 1, hashesUsed);
        if left.None? then None
        else if 2 * pos + 1 < TreeWidth(n, height - 1) then
          var right := Decode(h, n, bits, hashes, height - 1, 2 * pos + 1, left.value.bitsUsed, left.value.hashesUsed);
          if right.None? then None
          else Some(Decoded(h(left.value.hash, right.value.hash), right.value.bitsUsed, right.value.hashesUsed,
                            left.value.matches + right.value.matches))
        else Some(left.value.(hash := h(left.value.hash, left.value.hash))))
  {
  }

  lemma EncodeStop<D>(h: (D, D) -> D, txids: seq<D>, mask: seq<bool>, height: nat, pos: nat)
    requires |mask| == |txids| && pos < TreeWidth(|txids|, height)
    requires height == 0 || !ParentOfMatch(mask, height, pos)
    ensures Encode(h, txids, mask, height, pos) ==
            Encoding([ParentOfMatch(mask, height, pos)], [NodeHash(h, txids, height, pos)])
  {
  }

  /** End to end: a tree built from a list and a mask, sent as bytes and read back by a peer, extracts to the
      true root and exactly the masked txids in order. */
  method SendAndExtract<D(==)>(h: (D, D) -> D, zero: D, vTxid: seq<D>, vMatch: seq<bool>) returns (r: Option<Extraction<D>>)
    requires 0 < |vTxid| == |vMatch| <= MAX_BLOCK_SIZE / 60
    ensures r == Some(Extraction(Root(h, vTxid), Selected(vTxid, vMatch, 0, |vTxid|)))
  {
    hide Encode, Decode, TreeWidth, TreeHeight, Extract;
    var sent := new CPartialMerkleTree(h, zero, vTxid, vMatch);
    var m := sent.Serialize();
    var received := new CPartialMerkleTree.Unserialize(h, zero, m);
    UnpackPacked(sent.vBits, m.vBytes, received.vBits);
    ghost var padding := received.vBits[|sent.vBits|..];
    assert received.vBits == sent.vBits + padding;
    ExtractEncode(h, vTxid, vMatch, padding);
    r := received.ExtractMatches();
  }
}
