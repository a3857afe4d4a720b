/**
 The tree of block index entries: CBlockIndex in src/main.h and the order of candidates in
 src/main.cpp.

 A pointer to an entry is a number, which the order of candidates uses as its last tie
 breaker; `NULL` is none.  A block's hash and the pointer to its entry name the same
 thing here.
 */
module BlockTree {

  type Ptr = nat

  const NULL: Ptr := 0

  datatype CBlockIndex = CBlockIndex(pprev: Ptr, nHeight: nat, nChainWork: nat, nSequenceId: nat)

  type Tree = map<Ptr, CBlockIndex>

  predicate Linked(t: Tree, p: Ptr)
    requires p in t
  {
    if t[p].pprev == NULL then t[p].nHeight == 0
    else t[p].pprev in t && t[p].nHeight == t[t[p].pprev].nHeight + 1
  }

  ghost predicate WellFormed(t: Tree) {
    NULL !in t && forall p :: p in t ==> Linked(t, p)
  }

  ghost predicate SingleRoot(t: Tree) {
    forall p, q :: p in t && q in t && t[p].nHeight == 0 && t[q].nHeight == 0 ==> p == q
  }

  // ---- Paths from the root ----

  ghost function Path(t: Tree, p: Ptr): (r: seq<Ptr>)
    requires WellFormed(t) && (p == NULL || p in t)
    ensures p == NULL ==> r == []
    ensures p != NULL ==> |r| == t[p].nHeight + 1 && r[t[p].nHeight] == p
    decreases if p == NULL then 0 else t[p].nHeight + 1
  {
    if p == NULL then [] else assert Linked(t, p); Path(t, t[p].pprev) + [p]
  }

  /** What a path holds at some height is a block of that height, and the path up to there is its own. */
  lemma {:induction false} PathAt(t: Tree, p: Ptr, k: nat)
    requires WellFormed(t) && p in t && k <= t[p].nHeight
    ensures var a := Path(t, p)[k];
      a in t && t[a].nHeight == k && Path(t, a) == Path(t, p)[..k + 1]
    decreases t[p].nHeight
  {
    assert Linked(t, p);
    if k < t[p].nHeight {
      PathAt(t, t[p].pprev, k);
      assert Path(t, t[p].pprev)[..k + 1] == Path(t, p)[..k + 1];
    } else {
      assert Path(t, p)[..k + 1] == Path(t, p);
    }
  }

  /** A chain is a path; this is all its vector ever is. */
  ghost predicate IsPath(t: Tree, v: seq<Ptr>)
    requires WellFormed(t)
  {
    v != [] ==> v[|v| - 1] in t && v == Path(t, v[|v| - 1])
  }

  lemma PathIsPath(t: Tree, p: Ptr)
    requires WellFormed(t) && (p == NULL || p in t)
    ensures IsPath(t, Path(t, p))
  {
  }

  lemma InPath(t: Tree, v: seq<Ptr>, k: nat)
    requires WellFormed(t) && IsPath(t, v) && k < |v|
    ensures v[k] in t && t[v[k]].nHeight == k && Path(t, v[k]) == v[..k + 1]
  {
    PathAt(t, v[|v| - 1], k);
  }

  /** Looking at one height tells whether a chain contains a block. */
  lemma ContainsIsMember(t: Tree, v: seq<Ptr>, p: Ptr)
    requires WellFormed(t) && IsPath(t, v) && p in t
    ensures p in v <==> t[p].nHeight < |v| && v[t[p].nHeight] == p
  {
    if p in v {
      var k :| 0 <= k < |v| && v[k] == p;
      InPath(t, v, k);
    }
  }

  /** Two paths that hold the same block at one height agree below it. */
  lemma PathsAgree(t: Tree, v: seq<Ptr>, w: seq<Ptr>, k: nat)
    requires WellFormed(t) && IsPath(t, v) && IsPath(t, w) && k < |v| && k < |w| && v[k] == w[k]
    ensures v[..k + 1] == w[..k + 1]
  {
    InPath(t, v, k);
    InPath(t, w, k);
  }

  lemma AgreeBelow(t: Tree, v: seq<Ptr>, w: seq<Ptr>, k: nat, j: nat)
    requires WellFormed(t) && IsPath(t, v) && IsPath(t, w) && j <= k < |v| && k < |w|
    ensures v[k] == w[k] ==> v[j] == w[j]
  {
    if v[k] == w[k] {
      PathsAgree(t, v, w, k);
      assert v[..k + 1][j] == w[..k + 1][j];
    }
  }

  lemma RootsAgree(t: Tree, v: seq<Ptr>, w: seq<Ptr>)
    requires WellFormed(t) && SingleRoot(t) && IsPath(t, v) && IsPath(t, w) && v != [] && w != []
    ensures v[0] == w[0]
  {
    InPath(t, v, 0);
    InPath(t, w, 0);
  }

  /** `f` is the height of the last block that two chains have in common. */
  ghost predicate ForksAt(v: seq<Ptr>, w: seq<Ptr>, f: nat) {
    && f < |v| && f < |w|
    && v[..f + 1] == w[..f + 1]
    && (f + 1 < |v| && f + 1 < |w| ==> v[f + 1] != w[f + 1])
  }

  lemma CommonUpToFork(t: Tree, v: seq<Ptr>, w: seq<Ptr>, f: nat, k: nat)
    requires WellFormed(t) && IsPath(t, v) && IsPath(t, w) && ForksAt(v, w, f) && k < |v|
    ensures v[k] in w <==> k <= f
  {
    InPath(t, v, k);
    ContainsIsMember(t, w, v[k]);
    if k <= f {
      assert v[..f + 1][k] == w[..f + 1][k];
    } else if k < |w| {
      AgreeBelow(t, v, w, k, f + 1);
    }
  }

  // ---- The order of candidates ----

  /** More work, then earlier arrival, then the pointer. */
  predicate Less(t: Tree, pa: Ptr, pb: Ptr)
    requires pa in t && pb in t
  {
    if t[pa].nChainWork > t[pb].nChainWork then false
    else if t[pa].nChainWork < t[pb].nChainWork then true
    else if t[pa].nSequenceId < t[pb].nSequenceId then false
    else if t[pa].nSequenceId > t[pb].nSequenceId then true
    else if pa < pb then false
    else if pa > pb then true
    else false
  }

  /** A strict total order: what std::set needs, and what makes its last element the greatest. */
  lemma LessIsTotal(t: Tree, a: Ptr, b: Ptr, c: Ptr)
    requires a in t && b in t && c in t
    ensures !Less(t, a, a)
    ensures Less(t, a, b) ==> !Less(t, b, a)
    ensures a != b ==> Less(t, a, b) || Less(t, b, a)
    ensures Less(t, a, b) && Less(t, b, c) ==> Less(t, a, c)
  {
  }

  predicate IsGreatest(t: Tree, s: set<Ptr>, p: Ptr)
    requires forall q :: q in s ==> q in t
  {
    p in s && forall q :: q in s && q != p ==> Less(t, q, p)
  }

  /** The best of some blocks: none has more work; of those with as much, none came earlier; and of those that came at
      the same time it is the last. */
  ghost predicate IsBest(t: Tree, s: set<Ptr>, p: Ptr)
    requires InTree(t, s)
  {
    && p in s
    && (forall q :: q in s ==> t[q].nChainWork <= t[p].nChainWork)
    && (forall q :: q in s && t[q].nChainWork == t[p].nChainWork ==> t[p].nSequenceId <= t[q].nSequenceId)
    && (forall q :: q in s && t[q].nChainWork == t[p].nChainWork && t[q].nSequenceId == t[p].nSequenceId ==> p <= q)
  }

  /** The last element in the order of the set is the best block in it. */
  lemma GreatestIsBest(t: Tree, s: set<Ptr>, p: Ptr)
    requires InTree(t, s)
    ensures IsGreatest(t, s, p) <==> IsBest(t, s, p)
  {
    if IsBest(t, s, p) {
      forall q | q in s && q != p ensures Less(t, q, p) {
        assert t[q].nChainWork <= t[p].nChainWork;
      }
    }
  }

  lemma {:induction false} GreatestExists(t: Tree, s: set<Ptr>) returns (p: Ptr)
    requires s != {} && forall q :: q in s ==> q in t
    ensures IsGreatest(t, s, p)
    decreases |s|
  {
    p :| p in s;
    if s - {p} != {} {
      var g := GreatestExists(t, s - {p});
      if Less(t, p, g) {
        p := g;
      } else {
        forall q | q in s && q != p ensures Less(t, q, p) {
          LessIsTotal(t, q, g, p);
          LessIsTotal(t, g, p, p);
        }
      }
    } else {
      assert s == {p};
    }
  }

  // ---- Eligible candidates ----

  /** No failed block between a candidate and the active chain. */
  ghost predicate Eligible(t: Tree, failed: set<Ptr>, active: seq<Ptr>, p: Ptr)
    requires WellFormed(t) && (p == NULL || p in t)
    decreases if p == NULL then 0 else t[p].nHeight + 1
  {
    p == NULL || p in active || (p !in failed && (assert Linked(t, p); Eligible(t, failed, active, t[p].pprev)))
  }

  /** The blocks from `p` down to, and without, its ancestor `a`. */
  ghost function Between(t: Tree, p: Ptr, a: Ptr): set<Ptr>
    requires WellFormed(t) && (p == NULL || p in t)
    decreases if p == NULL then 0 else t[p].nHeight + 1
  {
    if p == NULL || p == a then {} else assert Linked(t, p); {p} + Between(t, t[p].pprev, a)
  }

  /** `a` is reached from `p` without meeting the active chain or a failed block on the way. */
  ghost predicate Reaches(t: Tree, failed: set<Ptr>, active: seq<Ptr>, p: Ptr, a: Ptr)
    requires WellFormed(t) && (p == NULL || p in t)
    decreases if p == NULL then 0 else t[p].nHeight + 1
  {
    p == a || (p != NULL && p !in active && p !in failed
               && (assert Linked(t, p); Reaches(t, failed, active, t[p].pprev, a)))
  }

  lemma {:induction false} ReachesEligible(t: Tree, failed: set<Ptr>, active: seq<Ptr>, p: Ptr, a: Ptr)
    requires WellFormed(t) && (p == NULL || p in t) && (a == NULL || a in t) && Reaches(t, failed, active, p, a)
    ensures Eligible(t, failed, active, p) <==> Eligible(t, failed, active, a)
    decreases if p == NULL then 0 else t[p].nHeight + 1
  {
    if p != a {
      assert Linked(t, p);
      ReachesEligible(t, failed, active, t[p].pprev, a);
    }
  }

  lemma {:induction false} ReachesFurther(t: Tree, failed: set<Ptr>, active: seq<Ptr>, p: Ptr, a: Ptr)
    requires WellFormed(t) && (p == NULL || p in t) && a in t && Reaches(t, failed, active, p, a)
    requires a !in active && a !in failed
    ensures Linked(t, a) && Reaches(t, failed, active, p, t[a].pprev)
    decreases if p == NULL then 0 else t[p].nHeight + 1
  {
    assert Linked(t, a);
    if p != a {
      assert Linked(t, p);
      ReachesFurther(t, failed, active, t[p].pprev, a);
    }
  }

  /** Everything between a candidate and a failed ancestor off the active chain is ineligible. */
  lemma {:induction false} BetweenIneligible(t: Tree, failed: set<Ptr>, active: seq<Ptr>, p: Ptr, a: Ptr)
    requires WellFormed(t) && (p == NULL || p in t) && a in t && Reaches(t, failed, active, p, a)
    requires a !in active && a in failed
    ensures forall q :: q in Between(t, p, a) ==> q in t && !Eligible(t, failed, active, q) && q !in active && q !in failed
    decreases if p == NULL then 0 else t[p].nHeight + 1
  {
    if p != a {
      assert Linked(t, p);
      BetweenIneligible(t, failed, active, t[p].pprev, a);
      ReachesEligible(t, failed, active, p, a);
    }
  }

  /** A retry takes something out of the set exactly when the candidate does not carry a failure bit itself. */
  lemma RetryShrinks(t: Tree, failed: set<Ptr>, active: seq<Ptr>, p: Ptr, a: Ptr)
    requires WellFormed(t) && p in t && a in t && Reaches(t, failed, active, p, a) && a in failed
    ensures Between(t, p, a) != {} <==> p !in failed
    ensures p !in failed ==> p in Between(t, p, a)
  {
  }

  /** Marking ineligible blocks as failed makes no difference to what is eligible. */
  lemma {:induction false} MarkingKeepsEligible(t: Tree, failed: set<Ptr>, more: set<Ptr>, active: seq<Ptr>, p: Ptr)
    requires WellFormed(t) && (p == NULL || p in t)
    requires forall q :: q in more ==> q in t && !Eligible(t, failed, active, q)
    ensures Eligible(t, failed + more, active, p) <==> Eligible(t, failed, active, p)
    decreases if p == NULL then 0 else t[p].nHeight + 1
  {
    if p != NULL && p !in active && p !in failed + more {
      assert Linked(t, p);
      MarkingKeepsEligible(t, failed, more, active, t[p].pprev);
    }
  }

  // ---- Retries ----

  /** The first failed block on the way from `p` down to the active chain; NULL when there is none. */
  ghost function FirstFailed(t: Tree, failed: set<Ptr>, active: seq<Ptr>, p: Ptr): Ptr
    requires WellFormed(t) && (p == NULL || p in t)
    decreases if p == NULL then 0 else t[p].nHeight + 1
  {
    if p == NULL || p in active then NULL
    else if p in failed then p
    else assert Linked(t, p); FirstFailed(t, failed, active, t[p].pprev)
  }

  lemma {:induction false} FirstFailedIs(t: Tree, failed: set<Ptr>, active: seq<Ptr>, p: Ptr)
    requires WellFormed(t) && (p == NULL || p in t)
    ensures var a := FirstFailed(t, failed, active, p);
      if Eligible(t, failed, active, p) then a == NULL
      else a in t && a in failed && a !in active && Reaches(t, failed, active, p, a)
    decreases if p == NULL then 0 else t[p].nHeight + 1
  {
    if p != NULL && p !in active && p !in failed {
      assert Linked(t, p);
      FirstFailedIs(t, failed, active, t[p].pprev);
    }
  }

  lemma {:induction false} FirstReached(t: Tree, failed: set<Ptr>, active: seq<Ptr>, p: Ptr, a: Ptr)
    requires WellFormed(t) && (p == NULL || p in t) && a in t && Reaches(t, failed, active, p, a)
    requires a in failed && a !in active
    ensures FirstFailed(t, failed, active, p) == a
    decreases if p == NULL then 0 else t[p].nHeight + 1
  {
    if p != a {
      assert Linked(t, p);
      FirstReached(t, failed, active, t[p].pprev, a);
    }
  }

  /** What rejecting a candidate marks and takes out: everything above the first failed block below it. */
  ghost function Rejected(t: Tree, failed: set<Ptr>, active: seq<Ptr>, p: Ptr): set<Ptr>
    requires WellFormed(t) && p in t
  {
    if Eligible(t, failed, active, p) then {} else Between(t, p, FirstFailed(t, failed, active, p))
  }

  /** Only ineligible blocks without a failure bit; the candidate itself unless it carries one. */
  lemma RejectedParts(t: Tree, failed: set<Ptr>, active: seq<Ptr>, p: Ptr)
    requires WellFormed(t) && p in t
    ensures forall q :: q in Rejected(t, failed, active, p) ==> q in t && !Eligible(t, failed, active, q) && q !in failed
    ensures !Eligible(t, failed, active, p) ==> (p in Rejected(t, failed, active, p) <==> p !in failed)
  {
    FirstFailedIs(t, failed, active, p);
    if !Eligible(t, failed, active, p) {
      BetweenIneligible(t, failed, active, p, FirstFailed(t, failed, active, p));
    }
  }

  ghost predicate InTree(t: Tree, s: set<Ptr>) {
    forall p :: p in s ==> p in t
  }

  /** The retries come to an end, after at most `k` of them: the set is empty or its greatest member is eligible. */
  ghost predicate SettlesIn(t: Tree, failed: set<Ptr>, active: seq<Ptr>, s: set<Ptr>, k: nat)
    requires WellFormed(t) && InTree(t, s)
    decreases k, 1
  {
    s == {} || exists g :: SettlesFrom(t, failed, active, s, k, g)
  }

  ghost predicate SettlesFrom(t: Tree, failed: set<Ptr>, active: seq<Ptr>, s: set<Ptr>, k: nat, g: Ptr)
    requires WellFormed(t) && InTree(t, s)
    decreases k, 0
  {
    && IsGreatest(t, s, g)
    && (Eligible(t, failed, active, g) || (k > 0 && Retried(t, failed, active, s, k - 1, g)))
  }

  ghost predicate Retried(t: Tree, failed: set<Ptr>, active: seq<Ptr>, s: set<Ptr>, k: nat, g: Ptr)
    requires WellFormed(t) && InTree(t, s) && g in t
    decreases k, 2
  {
    var above := Rejected(t, failed, active, g);
    SettlesIn(t, failed + above, active, s - above, k)
  }

  /** Every member off the active chain that carries a failure bit itself is outranked by an eligible one. */
  ghost predicate Outranked(t: Tree, failed: set<Ptr>, active: seq<Ptr>, s: set<Ptr>)
    requires WellFormed(t) && InTree(t, s)
  {
    forall p :: p in s && p in failed && p !in active ==> HasBetter(t, failed, active, s, p)
  }

  ghost predicate HasBetter(t: Tree, failed: set<Ptr>, active: seq<Ptr>, s: set<Ptr>, p: Ptr)
    requires WellFormed(t) && InTree(t, s) && p in t
  {
    exists e :: e in s && Eligible(t, failed, active, e) && Less(t, p, e)
  }

  /** A retry does not change who is outranked. */
  lemma RetryOutranked(t: Tree, failed: set<Ptr>, active: seq<Ptr>, s: set<Ptr>, g: Ptr)
    requires WellFormed(t) && InTree(t, s) && g in s
    ensures var above := Rejected(t, failed, active, g);
      Outranked(t, failed + above, active, s - above) <==> Outranked(t, failed, active, s)
  {
    hide WellFormed, Less, Eligible, Rejected;
    var above := Rejected(t, failed, active, g);
    RejectedParts(t, failed, active, g);
    forall q | q in t ensures Eligible(t, failed + above, active, q) <==> Eligible(t, failed, active, q) {
      MarkingKeepsEligible(t, failed, above, active, q);
    }
    forall p | p in t ensures HasBetter(t, failed + above, active, s - above, p) <==> HasBetter(t, failed, active, s, p) {
      if HasBetter(t, failed, active, s, p) {
        var e :| e in s && Eligible(t, failed, active, e) && Less(t, p, e);
        assert e in s - above;
      }
      if HasBetter(t, failed + above, active, s - above, p) {
        var e :| e in s - above && Eligible(t, failed + above, active, e) && Less(t, p, e);
        assert e in s;
      }
    }
  }

  /** The greatest member of an outranked set is eligible or leaves the set. */
  lemma GreatestMoves(t: Tree, failed: set<Ptr>, active: seq<Ptr>, s: set<Ptr>, g: Ptr)
    requires WellFormed(t) && InTree(t, s) && IsGreatest(t, s, g) && Outranked(t, failed, active, s)
    ensures Eligible(t, failed, active, g) || g in Rejected(t, failed, active, g)
  {
    hide WellFormed, Less, Rejected;
    RejectedParts(t, failed, active, g);
    if g in failed && g !in active {
      var e :| e in s && Eligible(t, failed, active, e) && Less(t, g, e);
      LessIsTotal(t, g, e, g);
      assert false;
    }
  }

  lemma FewerLeft(s: set<Ptr>, above: set<Ptr>, g: Ptr)
    requires g in s && g in above
    ensures |s - above| < |s|
  {
    assert s == (s - above) + (s * above);
    assert g in s * above;
  }

  lemma FailedIneligible(t: Tree, failed: set<Ptr>, active: seq<Ptr>, p: Ptr)
    requires WellFormed(t) && p in t && p in failed && p !in active
    ensures !Eligible(t, failed, active, p)
  {
  }

  lemma {:induction false} OutrankedSettles(t: Tree, failed: set<Ptr>, active: seq<Ptr>, s: set<Ptr>)
    requires WellFormed(t) && InTree(t, s) && Outranked(t, failed, active, s)
    ensures SettlesIn(t, failed, active, s, |s|)
    decreases |s|
  {
    hide WellFormed, Less, Rejected, Eligible, Outranked;
    if s != {} {
      var g := GreatestExists(t, s);
      if !Eligible(t, failed, active, g) {
        GreatestMoves(t, failed, active, s, g);
        RetryOutranked(t, failed, active, s, g);
        var above := Rejected(t, failed, active, g);
        FewerLeft(s, above, g);
        OutrankedSettles(t, failed + above, active, s - above);
        SettlesLater(t, failed + above, active, s - above, |s - above|, |s| - 1);
      }
      assert SettlesFrom(t, failed, active, s, |s|, g);
    }
  }

  lemma {:induction false} SettlesLater(t: Tree, failed: set<Ptr>, active: seq<Ptr>, s: set<Ptr>, k: nat, m: nat)
    requires WellFormed(t) && InTree(t, s) && SettlesIn(t, failed, active, s, k) && k <= m
    ensures SettlesIn(t, failed, active, s, m)
    decreases k
  {
    hide WellFormed, Less, Rejected, Eligible;
    if s != {} {
      var g :| SettlesFrom(t, failed, active, s, k, g);
      if !Eligible(t, failed, active, g) {
        var above := Rejected(t, failed, active, g);
        assert Retried(t, failed, active, s, k - 1, g);
        SettlesLater(t, failed + above, active, s - above, k - 1, m - 1);
        assert Retried(t, failed, active, s, m - 1, g);
      }
      assert SettlesFrom(t, failed, active, s, m, g);
    }
  }

  lemma {:induction false} SettledOutranked(t: Tree, failed: set<Ptr>, active: seq<Ptr>, s: set<Ptr>, k: nat)
    requires WellFormed(t) && InTree(t, s) && SettlesIn(t, failed, active, s, k)
    ensures Outranked(t, failed, active, s)
    decreases k
  {
    hide WellFormed, Less, Rejected;
    if s != {} {
      var g :| SettlesFrom(t, failed, active, s, k, g);
      if Eligible(t, failed, active, g) {
        forall p | p in s && p in failed && p !in active ensures HasBetter(t, failed, active, s, p) {
          FailedIneligible(t, failed, active, p);
        }
      } else {
        var above := Rejected(t, failed, active, g);
        assert Retried(t, failed, active, s, k - 1, g);
        SettledOutranked(t, failed + above, active, s - above, k - 1);
        RetryOutranked(t, failed, active, s, g);
      }
    }
  }

  /** The retries end if and only if every failed member off the active chain is outranked by an eligible one. */
  lemma SettlesExactly(t: Tree, failed: set<Ptr>, active: seq<Ptr>, s: set<Ptr>)
    requires WellFormed(t) && InTree(t, s)
    ensures (exists k :: SettlesIn(t, failed, active, s, k)) <==> Outranked(t, failed, active, s)
  {
    hide WellFormed, SettlesIn, Outranked;
    if Outranked(t, failed, active, s) { OutrankedSettles(t, failed, active, s); }
    if exists k :: SettlesIn(t, failed, active, s, k) {
      var k :| SettlesIn(t, failed, active, s, k);
      SettledOutranked(t, failed, active, s, k);
    }
  }
}
