/**
 CChain: a chain of blocks as a vector indexed by height, and locators, which describe a
 place in one chain to someone on another (src/main.cpp, src/main.h).
 */
module Chain {
  import opened Arithmetic
  import opened BlockTree

  // ---- Locators ----

  function Log2(n: nat): nat
    requires n > 0
  {
    if n == 1 then 0 else 1 + Log2(n / 2)
  }

  lemma {:induction false} Log2Bound(n: nat)
    requires n > 0
    ensures Pow2(Log2(n)) <= n < Pow2(Log2(n) + 1)
  {
    if n > 1 { Log2Bound(n / 2); }
  }

  lemma {:induction false} Pow2Monotone(a: nat, b: nat)
    requires a <= b
    ensures Pow2(a) <= Pow2(b)
  {
    if a < b { Pow2Monotone(a, b - 1); }
  }

  /** How far below its start the `k`-th entry of a locator lies: one step each at first, then doubling. */
  function Depth(k: nat): nat {
    if k <= 11 then k else 9 + Pow2(k - 10)
  }

  /** The step that follows entry `k`. */
  function StepAfter(k: nat): nat {
    if k <= 10 then 1 else Pow2(k - 10)
  }

  lemma DepthStep(k: nat)
    ensures Depth(k + 1) == Depth(k) + StepAfter(k)
    ensures StepAfter(k + 1) == if k + 1 > 10 then 2 * StepAfter(k) else StepAfter(k)
    ensures Depth(k + 1) <= 2 * (Depth(k) + 1)
  {
    if k >= 11 { assert Pow2(k + 1 - 10) == 2 * Pow2(k - 10); }
    assert Pow2(1) == 2 * Pow2(0);
    assert Pow2(2) == 2 * Pow2(1);
  }

  lemma DepthZero()
    ensures Depth(0) == 0 && StepAfter(0) == 1
  {
  }

  lemma {:induction false} DepthMonotone(a: nat, b: nat)
    requires a <= b
    ensures Depth(a) <= Depth(b)
  {
    if a < b {
      DepthMonotone(a, b - 1);
      DepthStep(b - 1);
    }
  }

  lemma InOrder(a: nat, b: nat)
    ensures Depth(b) < Depth(a) ==> b < a
  {
    if a <= b { DepthMonotone(a, b); }
  }

  function HeightAfter(height: nat, k: nat): nat {
    if Depth(k) < height then height - Depth(k) else 0
  }

  /** The locator of the block at the end of the path `v`: entries down to, and only once, the root. */
  ghost predicate IsLocator(v: seq<Ptr>, locator: seq<Ptr>) {
    && v != [] && locator != []
    && (forall k :: 0 <= k < |locator| ==> locator[k] == v[HeightAfter(|v| - 1, k)])
    && (forall k :: 0 <= k < |locator| - 1 ==> Depth(k) < |v| - 1)
    && Depth(|locator| - 1) >= |v| - 1
  }

  /** Locator heights strictly decrease to zero. */
  lemma LocatorDescends(t: Tree, v: seq<Ptr>, locator: seq<Ptr>)
    requires WellFormed(t) && IsPath(t, v) && IsLocator(v, locator)
    ensures forall k :: 0 <= k < |locator| ==> locator[k] in t
    ensures locator[0] == v[|v| - 1]
    ensures forall j, k :: 0 <= j < k < |locator| ==> t[locator[j]].nHeight > t[locator[k]].nHeight
    ensures t[locator[|locator| - 1]].nHeight == 0
  {
    hide Depth, StepAfter, WellFormed, IsPath;
    DepthZero();
    forall k | 0 <= k < |locator|
      ensures locator[k] in t && t[locator[k]].nHeight == HeightAfter(|v| - 1, k)
    {
      InPath(t, v, HeightAfter(|v| - 1, k));
    }
    forall j, k | 0 <= j < k < |locator|
      ensures t[locator[j]].nHeight > t[locator[k]].nHeight
    {
      DepthStep(j);
      StepPositive(j);
      DepthMonotone(j + 1, k);
    }
  }

  /** In figures: after the tip, up to eleven entries one below the other; from there on the way down doubles with every
      entry, except that the last one is the root. */
  lemma LocatorSteps(t: Tree, v: seq<Ptr>, locator: seq<Ptr>, k: nat)
    requires WellFormed(t) && IsPath(t, v) && IsLocator(v, locator) && k + 2 < |locator|
    ensures locator[k] in t && locator[k + 1] in t && locator[k + 2] in t
    ensures var a, b, c := t[locator[k]].nHeight, t[locator[k + 1]].nHeight, t[locator[k + 2]].nHeight;
      && (k == 0 ==> a - b == 1)
      && (c > 0 ==> b - c == if k < 10 then 1 else 2 * (a - b))
  {
    hide Depth, StepAfter, WellFormed, IsPath;
    InPath(t, v, HeightAfter(|v| - 1, k));
    InPath(t, v, HeightAfter(|v| - 1, k + 1));
    InPath(t, v, HeightAfter(|v| - 1, k + 2));
    DepthZero();
    DepthStep(k);
    DepthStep(k + 1);
    FirstSteps(k);
  }

  lemma FirstSteps(k: nat)
    ensures StepAfter(k + 1) == if k < 10 then 1 else 2 * StepAfter(k)
  {
    if k >= 10 { assert Pow2(k + 1 - 10) == 2 * Pow2(k - 10); }
  }

  lemma StepPositive(k: nat)
    ensures StepAfter(k) >= 1
  {
  }

  /** The length of a locator is logarithmic. */
  lemma LocatorLength(v: seq<Ptr>, locator: seq<Ptr>)
    requires IsLocator(v, locator)
    ensures |v| == 1 ==> |locator| == 1
    ensures |v| > 1 ==> |locator| <= 12 + Log2(|v| - 1)
  {
    hide Log2;
    var n, top := |locator|, Depth(0);
    if |v| > 1 && n > 1 {
      var l := Log2(|v| - 1);
      Log2Bound(|v| - 1);
      assert Pow2(1) == 2 * Pow2(0);
      assert Depth(11 + l) >= Pow2(l + 1);
      assert Depth(n - 2) < |v| - 1;
      InOrder(11 + l, n - 2);
    }
  }

  /** The first entry of a locator that a chain contains, or else its root. */
  ghost function FirstShared(w: seq<Ptr>, locator: seq<Ptr>): Ptr {
    if locator == [] then (if w == [] then NULL else w[0])
    else if locator[0] in w then locator[0]
    else FirstShared(w, locator[1..])
  }

  lemma {:induction false} FirstSharedAt(w: seq<Ptr>, locator: seq<Ptr>, k: nat)
    requires k < |locator| && locator[k] in w && forall j :: 0 <= j < k ==> locator[j] !in w
    ensures FirstShared(w, locator) == locator[k]
  {
    if k > 0 {
      forall j | 0 <= j < k - 1 ensures locator[1..][j] !in w { assert locator[1..][j] == locator[j + 1]; }
      FirstSharedAt(w, locator[1..], k - 1);
    }
  }

  /** The first entry deep enough. */
  lemma {:induction false} FirstDeepEnough(d: nat, n: nat) returns (k: nat)
    requires n > 0 && Depth(n - 1) >= d
    ensures k < n && Depth(k) >= d && (k > 0 ==> Depth(k - 1) < d)
  {
    if n > 1 && Depth(n - 2) >= d { k := FirstDeepEnough(d, n - 1); } else { k := n - 1; }
  }

  lemma ForkHeights(v: seq<Ptr>, w: seq<Ptr>, f: nat)
    requires ForksAt(v, w, f)
    ensures f < |v| && f < |w|
  {
  }

  /** A locator of one chain finds a block of another that is at most twice as deep as the fork between them. */
  lemma LocatorFindsFork(t: Tree, v: seq<Ptr>, w: seq<Ptr>, locator: seq<Ptr>, f: nat)
    requires WellFormed(t) && IsPath(t, v) && IsPath(t, w) && IsLocator(v, locator) && ForksAt(v, w, f)
    ensures var r := FirstShared(w, locator);
      r in v && r in w && r in t && t[r].nHeight <= f && |v| - 1 - t[r].nHeight <= 2 * (|v| - 1 - f)
  {
    hide Depth, WellFormed, IsPath, Path, ForksAt, FirstShared;
    var h, d := |v| - 1, |v| - 1 - f;
    ForkHeights(v, w, f);
    DepthZero();
    var k := FirstDeepEnough(d, |locator|);
    forall j | 0 <= j < k ensures locator[j] !in w {
      DepthMonotone(j, k - 1);
      CommonUpToFork(t, v, w, f, HeightAfter(h, j));
    }
    CommonUpToFork(t, v, w, f, HeightAfter(h, k));
    FirstSharedAt(w, locator, k);
    InPath(t, v, HeightAfter(h, k));
    if k > 0 { DepthStep(k - 1); }
  }

  // ---- The class ----

  function Resize(v: seq<Ptr>, n: nat): (r: seq<Ptr>)
    ensures |r| == n
    ensures forall k :: 0 <= k < n ==> r[k] == if k < |v| then v[k] else NULL
  {
    if n <= |v| then v[..n] else v + seq(n - |v|, _ => NULL)
  }

  /** The last block on both paths, or NULL: what SetTip returns. */
  ghost predicate IsForkPoint(v: seq<Ptr>, w: seq<Ptr>, r: Ptr) {
    if r == NULL then v == [] || w == [] || v[0] != w[0]
    else exists f: nat :: ForksAt(v, w, f) && v[f] == r
  }

  class CChain {
    const tree: Tree
    var vChain: seq<Ptr>

    constructor (tree: Tree)
      requires WellFormed(tree)
      ensures this.tree == tree && vChain == [] && Valid()
    {
      this.tree, vChain := tree, [];
    }

    ghost predicate Valid()
      reads this
    {
      WellFormed(tree) && IsPath(tree, vChain)
    }

    function Genesis(): Ptr
      reads this
    {
      if |vChain| > 0 then vChain[0] else NULL
    }

    function Tip(): Ptr
      reads this
    {
      if |vChain| > 0 then vChain[|vChain| - 1] else NULL
    }

    function At(nHeight: int): Ptr
      reads this
    {
      if nHeight < 0 || nHeight >= |vChain| then NULL else vChain[nHeight]
    }

    predicate Contains(pindex: Ptr)
      requires Valid() && pindex in tree
      reads this
      ensures Contains(pindex) <==> pindex in vChain
    {
      ContainsIsMember(tree, vChain, pindex);
      At(tree[pindex].nHeight) == pindex
    }

    function Height(): int
      reads this
    {
      |vChain| - 1
    }

    /** Stops as soon as it meets the old chain; that is enough, because the old vector was a path too. */
    method SetTip(pindex0: Ptr) returns (fork: Ptr)
      requires Valid() && (pindex0 == NULL || pindex0 in tree)
      modifies this`vChain
      ensures Valid() && vChain == Path(tree, pindex0)
      ensures IsForkPoint(vChain, old(vChain), fork)
    {
      hide WellFormed, Path, IsPath, ForksAt;
      var pindex := pindex0;
      if pindex == NULL {
        PathIsPath(tree, NULL);
        vChain := [];
        return NULL;
      }
      ghost var was, path := vChain, Path(tree, pindex);
      vChain := Resize(vChain, tree[pindex].nHeight + 1);
      ghost var h := tree[pindex].nHeight + 1;
      while pindex != NULL && vChain[tree[pindex].nHeight] != pindex
        invariant |vChain| == |path| && h <= |path|
        invariant pindex != NULL ==> pindex in tree && h == tree[pindex].nHeight + 1 && path[h - 1] == pindex
        invariant pindex == NULL ==> h == 0
        invariant forall k :: h <= k < |path| ==> vChain[k] == path[k] && (k < |was| ==> was[k] != path[k])
        invariant forall k :: 0 <= k < h ==> vChain[k] == if k < |was| then was[k] else NULL
        decreases h
      {
        Parent(tree, pindex);
        if h >= 2 { ParentBelow(tree, pindex0, h - 1); }
        vChain := vChain[tree[pindex].nHeight := pindex];
        pindex := tree[pindex].pprev;
        h := h - 1;
      }
      if pindex != NULL {
        PathIsPath(tree, pindex0);
        MeetsAt(tree, path, was, h - 1);
      }
      PathIsPath(tree, pindex0);
      assert vChain == path;
      return pindex;
    }

    /** From the tip or, when one is given, from any block of the tree, in this chain or not. */
    method GetLocator(pindex0: Ptr) returns (vHave: seq<Ptr>)
      requires Valid() && (pindex0 == NULL || pindex0 in tree)
      ensures var start := if pindex0 == NULL then Tip() else pindex0;
        if start == NULL then vHave == [] else start in tree && IsLocator(Path(tree, start), vHave)
    {
      hide WellFormed, Path, IsPath, Depth, StepAfter;
      var nStep: nat := 1;
      vHave := [];
      var pindex := if pindex0 == NULL then Tip() else pindex0;
      ghost var start := pindex;
      TipIsBlock();
      if pindex == NULL { return; }
      ghost var v := Path(tree, start);
      DepthZero();
      while true
        invariant pindex in tree && nStep == StepAfter(|vHave|)
        invariant pindex == v[HeightAfter(|v| - 1, |vHave|)]
        invariant tree[pindex].nHeight == HeightAfter(|v| - 1, |vHave|)
        invariant forall k :: 0 <= k < |vHave| ==> vHave[k] == v[HeightAfter(|v| - 1, k)] && Depth(k) < |v| - 1
        decreases tree[pindex].nHeight
      {
        vHave := vHave + [pindex];
        if tree[pindex].nHeight == 0 { break; }
        DepthStep(|vHave| - 1);
        StepPositive(|vHave| - 1);
        var nHeight := if tree[pindex].nHeight - nStep > 0 then tree[pindex].nHeight - nStep else 0;
        pindex := GoDown(pindex, nHeight, start);
        if |vHave| > 10 { nStep := nStep * 2; }
      }
    }

    /** Down to a height: by links until the block is in this chain, then at once. */
    method GoDown(pindex0: Ptr, nHeight: nat, ghost start: Ptr) returns (pindex: Ptr)
      requires Valid() && pindex0 in tree && start in tree && nHeight <= tree[pindex0].nHeight <= tree[start].nHeight
      requires Path(tree, start)[tree[pindex0].nHeight] == pindex0
      ensures pindex in tree && tree[pindex].nHeight == nHeight && pindex == Path(tree, start)[nHeight]
    {
      hide WellFormed, Path, IsPath;
      pindex := pindex0;
      TipIsBlock();
      PathIsPath(tree, start);
      ghost var v := Path(tree, start);
      while tree[pindex].nHeight > nHeight && !Contains(pindex)
        invariant pindex in tree && nHeight <= tree[pindex].nHeight <= tree[start].nHeight
        invariant v[tree[pindex].nHeight] == pindex
        decreases tree[pindex].nHeight
      {
        ParentBelow(tree, start, tree[pindex].nHeight);
        pindex := tree[pindex].pprev;
      }
      PathAt(tree, start, nHeight);
      if tree[pindex].nHeight > nHeight {
        AgreeBelow(tree, v, vChain, tree[pindex].nHeight, nHeight);
        pindex := At(nHeight);
      }
    }

    method FindFork(locator: seq<Ptr>) returns (r: Ptr)
      requires Valid()
      ensures r == FirstShared(vChain, locator)
    {
      var i := 0;
      assert locator[0..] == locator;
      while i < |locator|
        invariant 0 <= i <= |locator| && FirstShared(vChain, locator) == FirstShared(vChain, locator[i..])
      {
        if locator[i] in tree {
          if Contains(locator[i]) { return locator[i]; }
        } else {
          OnlyTree(locator[i]);
        }
        assert locator[i..][1..] == locator[i + 1..];
        i := i + 1;
      }
      return Genesis();
    }

    lemma TipIsBlock()
      requires Valid()
      ensures NULL !in tree && (Tip() == NULL || Tip() in tree) && (Tip() == NULL ==> vChain == [])
      ensures vChain == Path(tree, Tip())
    {
    }

    lemma OnlyTree(p: Ptr)
      requires Valid() && p !in tree
      ensures p !in vChain
    {
      forall k | 0 <= k < |vChain| ensures vChain[k] != p { InPath(tree, vChain, k); }
    }
  }

  lemma Parent(t: Tree, p: Ptr)
    requires WellFormed(t) && p in t
    ensures t[p].pprev == NULL ==> t[p].nHeight == 0
    ensures t[p].pprev != NULL ==> t[p].pprev in t && t[p].nHeight == t[t[p].pprev].nHeight + 1
  {
    assert Linked(t, p);
  }

  lemma MeetsAt(t: Tree, v: seq<Ptr>, w: seq<Ptr>, f: nat)
    requires WellFormed(t) && IsPath(t, v) && IsPath(t, w) && f < |v| && f < |w| && v[f] == w[f]
    requires forall k :: f < k < |v| && k < |w| ==> w[k] != v[k]
    ensures ForksAt(v, w, f)
  {
    PathsAgree(t, v, w, f);
  }

  lemma ParentBelow(t: Tree, p: Ptr, k: nat)
    requires WellFormed(t) && p in t && 0 < k <= t[p].nHeight
    ensures Path(t, p)[k] in t && t[Path(t, p)[k]].pprev == Path(t, p)[k - 1] && t[Path(t, p)[k]].nHeight == k
    ensures Path(t, p)[k - 1] in t && t[Path(t, p)[k - 1]].nHeight == k - 1
  {
    PathAt(t, p, k);
    PathAt(t, p, k - 1);
    var a := Path(t, p)[k];
    assert Linked(t, a);
    assert Path(t, a)[k - 1] == Path(t, t[a].pprev)[k - 1];
  }
}
