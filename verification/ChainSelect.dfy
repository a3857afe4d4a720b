/**
 Choosing and activating the best chain: FindMostWorkChain and ActivateBestChain in
 src/main.cpp.
 */
module ChainSelect {
  import opened BlockTree
  import opened Chain

  /** A chain without the failed blocks at its end. */
  ghost function Unfailed(v: seq<Ptr>, failed: set<Ptr>): (r: seq<Ptr>)
    ensures r <= v
    ensures r != [] ==> r[|r| - 1] !in failed
    ensures forall k :: |r| <= k < |v| ==> v[k] in failed
  {
    if v != [] && v[|v| - 1] in failed then Unfailed(v[..|v| - 1], failed) else v
  }

  ghost function Suffix(v: seq<Ptr>, k: nat): set<Ptr>
    requires k <= |v|
  {
    set p | p in v[k..]
  }

  lemma NoSuffix(v: seq<Ptr>)
    ensures Suffix(v, |v|) == {}
  {
  }

  lemma SuffixStep(v: seq<Ptr>, k: nat)
    requires k < |v|
    ensures Suffix(v, k) == {v[k]} + Suffix(v, k + 1)
  {
    assert v[k..] == [v[k]] + v[k + 1..];
  }

  ghost function EligibleOf(t: Tree, failed: set<Ptr>, active: seq<Ptr>, s: set<Ptr>): set<Ptr>
    requires WellFormed(t) && InTree(t, s)
  {
    set p | p in s && Eligible(t, failed, active, p)
  }

  /** What can be chosen when `active` is active: its last unfailed block, and the eligible members of the set, save
      failed blocks from the end of the chain. */
  ghost function Candidates(t: Tree, failed: set<Ptr>, active: seq<Ptr>, s: set<Ptr>): (r: set<Ptr>)
    requires WellFormed(t) && IsPath(t, active) && InTree(t, s)
    ensures InTree(t, r)
  {
    UnfailedInTree(t, active, failed);
    var stays := Unfailed(active, failed);
    EligibleOf(t, failed, active, Remaining(active, failed, s)) + if stays == [] then {} else {stays[|stays| - 1]}
  }

  lemma UnfailedInTree(t: Tree, v: seq<Ptr>, failed: set<Ptr>)
    requires WellFormed(t) && IsPath(t, v)
    ensures IsPath(t, Unfailed(v, failed))
    ensures var r := Unfailed(v, failed); r != [] ==> r[|r| - 1] in t
  {
    var r := Unfailed(v, failed);
    if r != [] {
      InPath(t, v, |r| - 1);
      assert r == v[..|r|];
    }
  }

  /** Failed blocks at the end of the active chain are not candidates. */
  ghost function Remaining(active: seq<Ptr>, failed: set<Ptr>, s: set<Ptr>): set<Ptr> {
    s - Suffix(active, |Unfailed(active, failed)|)
  }

  /** What the search does to the set and the failure bits: only ineligible blocks leave the set or are marked, and
      so what is eligible stays the same. */
  ghost predicate Narrowed(t: Tree, active: seq<Ptr>, failed: set<Ptr>, s: set<Ptr>, failed1: set<Ptr>, s1: set<Ptr>)
    requires WellFormed(t) && InTree(t, s)
  {
    && s1 <= s
    && failed <= failed1
    && (forall p :: p in s && p !in s1 ==> !Eligible(t, failed, active, p))
    && (forall p :: p in t ==> (Eligible(t, failed1, active, p) <==> Eligible(t, failed, active, p)))
  }

  lemma NarrowedAgain(t: Tree, active: seq<Ptr>, f: set<Ptr>, s: set<Ptr>, f1: set<Ptr>, s1: set<Ptr>,
                      above: set<Ptr>)
    requires WellFormed(t) && InTree(t, s) && Narrowed(t, active, f, s, f1, s1)
    requires forall q :: q in above ==> q in t && !Eligible(t, f1, active, q)
    ensures Narrowed(t, active, f, s, f1 + above, s1 - above)
  {
    hide Eligible, WellFormed;
    forall p | p in t ensures Eligible(t, f1 + above, active, p) <==> Eligible(t, f, active, p) {
      MarkingKeepsEligible(t, f1, above, active, p);
    }
  }

  class BlockChains {
    const tree: Tree
    const chainActive: CChain
    const chainMostWork: CChain
    var failed: set<Ptr>
    var setBlockIndexValid: set<Ptr>
    var pindexBestInvalid: Ptr

    constructor (tree: Tree, active: CChain, mostWork: CChain, failed: set<Ptr>, s: set<Ptr>)
      requires active != mostWork && active.tree == mostWork.tree == tree && active.Valid() && mostWork.Valid()
      requires InTree(tree, s)
      ensures Valid() && this.tree == tree && chainActive == active && chainMostWork == mostWork
      ensures this.failed == failed && setBlockIndexValid == s
    {
      this.tree, chainActive, chainMostWork, this.failed := tree, active, mostWork, failed;
      setBlockIndexValid, pindexBestInvalid := s, NULL;
    }

    ghost predicate Valid()
      reads this, chainActive, chainMostWork
    {
      && chainActive != chainMostWork && chainActive.tree == chainMostWork.tree == tree
      && chainActive.Valid() && chainMostWork.Valid()
      && InTree(tree, setBlockIndexValid)
      && (pindexBestInvalid == NULL || pindexBestInvalid in tree)
    }

    /** Drops the failed blocks at the end of the best chain. */
    method DropFailedTips()
      requires Valid()
      modifies this`setBlockIndexValid, chainMostWork`vChain
      ensures Valid()
      ensures chainMostWork.vChain == Unfailed(old(chainMostWork.vChain), failed)
      ensures var v, stays := old(chainMostWork.vChain), chainMostWork.vChain;
        setBlockIndexValid == old(setBlockIndexValid) - Suffix(v, |stays|)
    {
      hide WellFormed, Path, IsPath, Suffix;
      ghost var v := chainMostWork.vChain;
      NoSuffix(v);
      while chainMostWork.Tip() != NULL && chainMostWork.Tip() in failed
        invariant Valid() && chainMostWork.vChain <= v
        invariant Unfailed(chainMostWork.vChain, failed) == Unfailed(v, failed)
        invariant setBlockIndexValid == old(setBlockIndexValid) - Suffix(v, |chainMostWork.vChain|)
        decreases |chainMostWork.vChain|
      {
        ghost var before := chainMostWork.vChain;
        chainMostWork.TipIsBlock();
        Parent(tree, chainMostWork.Tip());
        PathParent(tree, chainMostWork.Tip());
        setBlockIndexValid := setBlockIndexValid - {chainMostWork.Tip()};
        var _ := chainMostWork.SetTip(tree[chainMostWork.Tip()].pprev);
        assert chainMostWork.vChain == before[..|before| - 1];
        SuffixStep(v, |before| - 1);
      }
      chainMostWork.TipIsBlock();
    }

    /** Walks from a candidate down to the active chain.  When it meets a failed block, everything above that block
        is marked and taken out of the set, which is nothing if the candidate itself has failed. */
    method RejectInvalid(pindexNew: Ptr) returns (fInvalidAncestor: bool)
      requires Valid() && pindexNew in setBlockIndexValid
      modifies this`failed, this`setBlockIndexValid, this`pindexBestInvalid
      ensures Valid()
      ensures fInvalidAncestor <==> !Eligible(tree, old(failed), chainActive.vChain, pindexNew)
      ensures var above := Rejected(tree, old(failed), chainActive.vChain, pindexNew);
        failed == old(failed) + above && setBlockIndexValid == old(setBlockIndexValid) - above
      ensures !fInvalidAncestor ==> pindexBestInvalid == old(pindexBestInvalid)
      ensures fInvalidAncestor ==>
        && pindexBestInvalid in {old(pindexBestInvalid), pindexNew} && pindexBestInvalid != NULL
        && tree[pindexNew].nChainWork <= tree[pindexBestInvalid].nChainWork
        && (old(pindexBestInvalid) != NULL ==> tree[old(pindexBestInvalid)].nChainWork <= tree[pindexBestInvalid].nChainWork)
    {
      hide WellFormed, Path, IsPath;
      ghost var active := chainActive.vChain;
      var pindexTest := pindexNew;
      while pindexTest != NULL && !chainActive.Contains(pindexTest)
        invariant pindexTest == NULL || pindexTest in tree
        invariant Reaches(tree, failed, active, pindexNew, pindexTest)
        invariant failed == old(failed) && setBlockIndexValid == old(setBlockIndexValid)
        invariant pindexBestInvalid == old(pindexBestInvalid)
        decreases if pindexTest == NULL then 0 else tree[pindexTest].nHeight + 1
      {
        if pindexTest in failed {
          if pindexBestInvalid == NULL || tree[pindexNew].nChainWork > tree[pindexBestInvalid].nChainWork {
            pindexBestInvalid := pindexNew;
          }
          ReachesEligible(tree, failed, active, pindexNew, pindexTest);
          FirstReached(tree, failed, active, pindexNew, pindexTest);
          MarkBetween(pindexNew, pindexTest);
          return true;
        }
        ReachesFurther(tree, failed, active, pindexNew, pindexTest);
        Parent(tree, pindexTest);
        pindexTest := tree[pindexTest].pprev;
      }
      ReachesEligible(tree, failed, active, pindexNew, pindexTest);
      return false;
    }

    method MarkBetween(pindexNew: Ptr, pindexTest: Ptr)
      requires Valid() && pindexNew in tree && pindexTest in tree
      requires exists f, active :: Reaches(tree, f, active, pindexNew, pindexTest)
      modifies this`failed, this`setBlockIndexValid
      ensures failed == old(failed) + Between(tree, pindexNew, pindexTest)
      ensures setBlockIndexValid == old(setBlockIndexValid) - Between(tree, pindexNew, pindexTest)
    {
      hide WellFormed, Path, IsPath;
      ghost var f, active :| Reaches(tree, f, active, pindexNew, pindexTest);
      ghost var all := Between(tree, pindexNew, pindexTest);
      var pindexFailed := pindexNew;
      while pindexTest != pindexFailed
        invariant pindexFailed == NULL || pindexFailed in tree
        invariant Reaches(tree, f, active, pindexFailed, pindexTest)
        invariant failed + Between(tree, pindexFailed, pindexTest) == old(failed) + all
        invariant setBlockIndexValid - Between(tree, pindexFailed, pindexTest) == old(setBlockIndexValid) - all
        decreases if pindexFailed == NULL then 0 else tree[pindexFailed].nHeight + 1
      {
        Parent(tree, pindexFailed);
        failed := failed + {pindexFailed};
        setBlockIndexValid := setBlockIndexValid - {pindexFailed};
        pindexFailed := tree[pindexFailed].pprev;
      }
    }

    /** The last element in the order of the set. */
    method LastCandidate() returns (pindexNew: Ptr)
      requires Valid()
      ensures pindexNew == NULL <==> setBlockIndexValid == {}
      ensures pindexNew != NULL ==> IsGreatest(tree, setBlockIndexValid, pindexNew)
    {
      if setBlockIndexValid == {} { return NULL; }
      ghost var g := GreatestExists(tree, setBlockIndexValid);
      var p :| p in setBlockIndexValid && IsGreatest(tree, setBlockIndexValid, p);
      return p;
    }

    /** Tries candidates, best first, until one is eligible.  Each retry shrinks the set. */
    method FindCandidate() returns (pindexNew: Ptr)
      requires Valid() && Outranked(tree, failed, chainActive.vChain, setBlockIndexValid)
      modifies this`failed, this`setBlockIndexValid, this`pindexBestInvalid
      ensures Valid() && Outranked(tree, failed, chainActive.vChain, setBlockIndexValid)
      ensures Narrowed(tree, chainActive.vChain, old(failed), old(setBlockIndexValid), failed, setBlockIndexValid)
      ensures pindexNew == NULL ==> EligibleOf(tree, old(failed), chainActive.vChain, old(setBlockIndexValid)) == {}
      ensures pindexNew != NULL ==>
        IsBest(tree, EligibleOf(tree, old(failed), chainActive.vChain, old(setBlockIndexValid)), pindexNew)
    {
      hide WellFormed, Path, IsPath, Eligible, Outranked, Rejected, IsBest;
      while true
        invariant Valid() && Outranked(tree, failed, chainActive.vChain, setBlockIndexValid)
        invariant Narrowed(tree, chainActive.vChain, old(failed), old(setBlockIndexValid), failed, setBlockIndexValid)
        decreases setBlockIndexValid
      {
        ghost var f, s := failed, setBlockIndexValid;
        pindexNew := LastCandidate();
        if pindexNew == NULL { return; }
        var fInvalidAncestor := RejectInvalid(pindexNew);
        ghost var above := Rejected(tree, f, chainActive.vChain, pindexNew);
        GreatestMoves(tree, f, chainActive.vChain, s, pindexNew);
        RetryOutranked(tree, f, chainActive.vChain, s, pindexNew);
        RejectedParts(tree, f, chainActive.vChain, pindexNew);
        NarrowedAgain(tree, chainActive.vChain, old(failed), old(setBlockIndexValid), f, s, above);
        if !fInvalidAncestor {
          GreatestIsBest(tree, EligibleOf(tree, old(failed), chainActive.vChain, old(setBlockIndexValid)), pindexNew);
          return;
        }
        assert setBlockIndexValid < s;
      }
    }

    /** Makes chainMostWork the chain that ends in the greatest candidate there is. */
    method FindMostWorkChain()
      requires Valid() && chainMostWork.vChain == chainActive.vChain
      requires Outranked(tree, failed, chainActive.vChain, Remaining(chainActive.vChain, failed, setBlockIndexValid))
      modifies this`failed, this`setBlockIndexValid, this`pindexBestInvalid, chainMostWork`vChain
      ensures Valid() && Outranked(tree, failed, chainActive.vChain, setBlockIndexValid)
      ensures (var c := Candidates(tree, old(failed), chainActive.vChain, old(setBlockIndexValid));
        if c == {} then chainMostWork.vChain == []
        else chainMostWork.Tip() in tree && IsBest(tree, c, chainMostWork.Tip()))
    {
      hide WellFormed, Path, IsPath, Eligible, Unfailed, Less, Outranked;
      ghost var f, active := failed, chainActive.vChain;
      DropFailedTips();
      chainMostWork.TipIsBlock();
      ghost var eligible := EligibleOf(tree, f, active, setBlockIndexValid);
      var pindexNew := FindCandidate();
      ghost var c := Candidates(tree, f, active, old(setBlockIndexValid));
      var tip := chainMostWork.Tip();
      assert c == eligible + if tip == NULL then {} else {tip};
      if pindexNew == NULL { return; }
      if tip != NULL { BestOfBoth(tree, eligible, pindexNew, tip); }
      if tip != NULL && !Less(tree, tip, pindexNew) { return; }
      var _ := chainMostWork.SetTip(pindexNew);
    }

    method DisconnectTip() returns (ok: bool)
      requires Valid() && chainActive.vChain != []
      modifies chainActive`vChain
      ensures Valid()
      ensures ok <==> |old(chainActive.vChain)| > 1
      ensures chainActive.vChain == if ok then old(chainActive.vChain)[..|old(chainActive.vChain)| - 1] else old(chainActive.vChain)
    {
      hide WellFormed, Path, IsPath;
      var pindexDelete := chainActive.Tip();
      chainActive.TipIsBlock();
      Parent(tree, pindexDelete);
      PathParent(tree, pindexDelete);
      if tree[pindexDelete].pprev != NULL {
        var _ := chainActive.SetTip(tree[pindexDelete].pprev);
        return true;
      }
      return false;
    }

    /** Disconnects down to the fork, connects up to the new tip.  Never fails, and ends with both chains being the
      path to the greatest candidate; without one the active chain stays. */
    method ActivateBestChain() returns (ok: bool)
      requires Valid() && SingleRoot(tree) && chainMostWork.vChain == chainActive.vChain
      requires Outranked(tree, failed, chainActive.vChain, Remaining(chainActive.vChain, failed, setBlockIndexValid))
      modifies this`failed, this`setBlockIndexValid, this`pindexBestInvalid, chainMostWork`vChain, chainActive`vChain
      ensures Valid() && ok
      ensures (var c := Candidates(tree, old(failed), old(chainActive.vChain), old(setBlockIndexValid));
        if c == {} then chainMostWork.vChain == [] && chainActive.vChain == old(chainActive.vChain)
        else
          var target := chainActive.Tip();
          target in tree && IsBest(tree, c, target)
          && chainActive.vChain == chainMostWork.vChain == Path(tree, target))
    {
      hide WellFormed, Path, IsPath, Candidates, IsBest, Outranked, Remaining, InTree, SingleRoot;
      ghost var was := chainActive.vChain;
      FindMostWorkChain();
      chainMostWork.TipIsBlock();
      if chainMostWork.Tip() == NULL { return true; }
      ghost var best := chainMostWork.vChain;
      chainActive.TipIsBlock();
      while chainActive.Tip() != NULL && !chainMostWork.Contains(chainActive.Tip())
        invariant Valid() && chainMostWork.vChain == best
        invariant chainActive.Tip() == NULL || chainActive.Tip() in tree
        decreases |chainActive.vChain|
      {
        if |chainActive.vChain| == 1 { RootsAgree(tree, chainActive.vChain, best); }
        var disconnected := DisconnectTip();
        if !disconnected { return false; }
        chainActive.TipIsBlock();
      }
      chainActive.TipIsBlock();
      Joined();
      while !chainActive.Contains(chainMostWork.Tip())
        invariant Valid() && chainMostWork.vChain == best && chainActive.vChain <= best
        decreases |best| - |chainActive.vChain|
      {
        LastIsTip();
        var pindexConnect := chainMostWork.At(chainActive.Height() + 1);
        InPath(tree, best, |chainActive.vChain|);
        var _ := chainActive.SetTip(pindexConnect);
      }
      LastIsTip();
      return true;
    }

    lemma Joined()
      requires Valid() && (chainActive.vChain == [] || chainActive.Tip() in chainMostWork.vChain)
      ensures chainActive.vChain <= chainMostWork.vChain
    {
      if chainActive.vChain != [] {
        var n := |chainActive.vChain| - 1;
        ContainsIsMember(tree, chainMostWork.vChain, chainActive.Tip());
        PathsAgree(tree, chainActive.vChain, chainMostWork.vChain, n);
      }
    }

    lemma LastIsTip()
      requires Valid() && chainMostWork.vChain != [] && chainActive.vChain <= chainMostWork.vChain
      ensures chainMostWork.Tip() in chainActive.vChain <==> chainActive.vChain == chainMostWork.vChain
    {
      ContainsIsMember(tree, chainActive.vChain, chainMostWork.Tip());
    }
  }

  /** The greater of the best block of a set and one more block is the best of all. */
  lemma BestOfBoth(t: Tree, s: set<Ptr>, g: Ptr, b: Ptr)
    requires InTree(t, s) && IsBest(t, s, g) && b in t
    ensures InTree(t, s + {b}) && IsBest(t, s + {b}, if Less(t, b, g) then g else b)
  {
    hide Less, IsBest;
    GreatestIsBest(t, s, g);
    forall q | q in s ensures !Less(t, b, g) && q != b ==> Less(t, q, b) {
      LessIsTotal(t, q, g, b);
      LessIsTotal(t, g, b, b);
    }
    GreatestIsBest(t, s + {b}, if Less(t, b, g) then g else b);
  }

  lemma PathParent(t: Tree, p: Ptr)
    requires WellFormed(t) && p in t
    ensures t[p].pprev == NULL || t[p].pprev in t
    ensures Path(t, t[p].pprev) == Path(t, p)[..t[p].nHeight]
  {
    assert Linked(t, p);
  }
}
