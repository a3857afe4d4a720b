/**
 The stochastic address manager: src/addrman.cpp.

 Every method works in place on the five indexes, as the program does, and keeps
 `Valid()`.  What it changes is stated on `View()`, the map from addresses to what is
 known about them.  Random numbers are arbitrary; the clock is a parameter.
 */
module AddrMan {
  import opened AddrManState
  import opened Shifts
  import opened AddrManTried

  const TRIED_ENTRIES_INSPECT_ON_EVICT: nat := 4
  const HORIZON_DAYS: int := 30
  const RETRIES: int := 3
  const MAX_FAILURES: int := 10
  const MIN_FAIL_DAYS: int := 7
  const GETADDR_MAX_PCT: nat := 23
  const GETADDR_MAX: nat := 2500

  predicate IsTerrible(info: AddrInfo, nNow: int) {
    if info.addr.nLastTry != 0 && info.addr.nLastTry >= nNow - 60 then false
    else
      || info.addr.nTime > nNow + 10 * 60
      || info.addr.nTime == 0 || nNow - info.addr.nTime > HORIZON_DAYS * 86400
      || (info.nLastSuccess == 0 && info.nAttempts >= RETRIES)
      || (nNow - info.nLastSuccess > MIN_FAIL_DAYS * 86400 && info.nAttempts >= MAX_FAILURES)
  }

  /** An entry is terrible unless it was tried within the last minute: when it comes from more than ten minutes ahead,
      was never seen or not for thirty days, has failed three times and never succeeded, or has failed ten times and
      not succeeded for seven days. */
  lemma TerribleEntries(info: AddrInfo, nNow: int)
    ensures info.addr.nLastTry != 0 && nNow - info.addr.nLastTry <= 60 ==> !IsTerrible(info, nNow)
    ensures (info.addr.nLastTry == 0 || nNow - info.addr.nLastTry > 60 ==>
      (!IsTerrible(info, nNow)
       <==> && info.addr.nTime != 0 && -600 <= nNow - info.addr.nTime <= 2_592_000
            && (info.nAttempts < 3 || info.nLastSuccess != 0)
            && (info.nAttempts < 10 || nNow - info.nLastSuccess <= 604_800)))
  {
  }

  function Max(a: int, b: int): int { if a < b then b else a }

  /** A 64-bit time stored in the 32-bit unsigned field of an address. */
  function ToUint32(t: int): (r: int)
    ensures 0 <= r <= 0xffff_ffff && (0 <= t <= 0xffff_ffff ==> r == t)
    ensures r == t - t / 0x1_0000_0000 * 0x1_0000_0000
  {
    t % 0x1_0000_0000
  }

  /** What Add makes of an address that is already known. */
  function Refreshed(known: Address, addr: Address, nTimePenalty: int, nNow: int): Address {
    var interval := if nNow - addr.nTime < 24 * 60 * 60 then 60 * 60 else 24 * 60 * 60;
    var newer := addr.nTime != 0 && (known.nTime == 0 || known.nTime < addr.nTime - interval - nTimePenalty);
    known.(nTime := if newer then ToUint32(Max(0, addr.nTime - nTimePenalty)) else known.nTime,
           nServices := known.nServices | addr.nServices)
  }

  /** A time held in 32 bits. */
  predicate IsTime(t: int) { 0 <= t < 0x1_0000_0000 }

  /** Hearing of a known address never takes its time back, and only brings it forward when the news, less the penalty,
      is by more than an hour newer than what is known, or by more than a day when it is itself a day old.  Services
      add up; nothing else changes. */
  lemma RefreshedTime(known: Address, addr: Address, nTimePenalty: int, nNow: int)
    requires IsTime(known.nTime) && IsTime(addr.nTime) && nTimePenalty >= 0
    ensures var r := Refreshed(known, addr, nTimePenalty, nNow);
      var late := addr.nTime - nTimePenalty;
      && r.service == known.service && r.nLastTry == known.nLastTry
      && r.nServices == known.nServices | addr.nServices
      && IsTime(r.nTime) && known.nTime <= r.nTime
      && (known.nTime == 0 ==> r.nTime == if late > 0 then late else 0)
      && (addr.nTime == 0 ==> r.nTime == known.nTime)
      && (known.nTime > 0 && addr.nTime > 0 ==>
            r.nTime == if late - known.nTime > (if nNow - addr.nTime < 86_400 then 3_600 else 86_400) then late else known.nTime)
  {
  }

  /** There is a time, and it is later than what is known. */
  predicate IsNews(addr: Address, known: Address) {
    addr.nTime != 0 && (known.nTime == 0 || known.nTime < addr.nTime)
  }

  /** What Add stores for an address that is not known. */
  function Fresh(addr: Address, nTimePenalty: int): Address {
    addr.(nTime := ToUint32(Max(0, addr.nTime - nTimePenalty)), nLastTry := 0)
  }

  /** The time it was seen, less the penalty, and no attempt yet. */
  lemma FreshTime(addr: Address, nTimePenalty: int)
    requires IsTime(addr.nTime) && nTimePenalty >= 0
    ensures var r := Fresh(addr, nTimePenalty);
      && r.service == addr.service && r.nServices == addr.nServices && r.nLastTry == 0
      && r.nTime == if addr.nTime > nTimePenalty then addr.nTime - nTimePenalty else 0
  {
  }

  method GetRandInt(nMax: int) returns (r: int)
    requires nMax >= 0
    ensures 0 <= r && (r < nMax || r == nMax == 0)
  {
    if nMax == 0 { return 0; }
    r :| 0 <= r < nMax;
  }

  lemma SomeMember(s: set<int>)
    ensures s == {} || exists x :: x in s
  {
    if !exists x :: x in s { assert s == {}; }
  }

  lemma {:induction false} MinExists(s: set<int>)
    requires s != {}
    ensures exists x :: x in s && forall y :: y in s ==> x <= y
    decreases |s|
  {
    SomeMember(s);
    var x :| x in s;
    var rest := s - {x};
    assert s == rest + {x};
    if rest != {} {
      MinExists(rest);
      var m :| m in rest && forall y :: y in rest ==> m <= y;
      var least := if x < m then x else m;
      assert least in s && forall y :: y in s ==> least <= y;
    } else {
      assert x in s && forall y :: y in s ==> x <= y;
    }
  }

  /** The next element of an ordered set. */
  method Least(s: set<int>) returns (x: int)
    requires s != {}
    ensures x in s && forall y :: y in s ==> x <= y
  {
    MinExists(s);
    x :| x in s && forall y :: y in s ==> x <= y;
  }

  lemma BucketIds(hs: Hashes, m: map<int, AddrInfo>, tried: seq<seq<int>>, k: nat)
    requires TriedTable(hs, m, tried) && k < TRIED_BUCKET_COUNT
    ensures |tried| == TRIED_BUCKET_COUNT && NoDuplicates(tried[k]) && forall id :: id in tried[k] ==> id in m
  {
  }

  lemma SwapReorders(s: seq<int>, i: nat, j: nat, before: seq<int>)
    requires i < |s| && j < |s| && Reordered(s, before)
    ensures Reordered(s[j := s[i]][i := s[j]], before)
  {
  }

  /** The first `k` elements of a bucket, each exchanged with one at a place picked from there on. */
  function AfterPicks(v: seq<int>, picks: seq<int>, k: nat): (r: seq<int>)
    requires k <= |picks| && k <= |v| && forall i :: 0 <= i < k ==> i <= picks[i] < |v|
    ensures |r| == |v|
  {
    if k == 0 then v else var u := AfterPicks(v, picks, k - 1); SwappedIn(u, k - 1, picks[k - 1])
  }

  function SwappedIn(v: seq<int>, i: nat, j: nat): (r: seq<int>)
    requires i < |v| && j < |v|
    ensures |r| == |v|
  {
    v[j := v[i]][i := v[j]]
  }

  /** Of the first `k` elements the one at `w` had its last success longest ago; the first of several. */
  predicate OldestInspected(m: map<int, AddrInfo>, v: seq<int>, k: nat, w: nat) {
    && w < k <= |v| && (forall j :: 0 <= j < k ==> v[j] in m)
    && forall j :: 0 <= j < k && j != w ==>
      m[v[w]].nLastSuccess < m[v[j]].nLastSuccess || (m[v[w]].nLastSuccess == m[v[j]].nLastSuccess && w < j)
  }

  /** The result of SelectTried is the place picked for that element, where the element that made way for it has gone.
      So it is the place of the oldest one inspected if and only if that was picked where it stood. */
  lemma SelectedIsOldest(m: map<int, AddrInfo>, v: seq<int>, k: nat, w: nat, pos: nat)
    requires NoDuplicates(v) && OldestInspected(m, v, k, w) && w <= pos < |v|
    ensures v[pos] == v[w] <==> pos == w
  {
  }

  /** A bucket of two in which the newer entry is selected, the oldest one having been picked from behind. */
  lemma SelectsNewer(m: map<int, AddrInfo>)
    requires 1 in m && 2 in m && m[2].nLastSuccess < m[1].nLastSuccess
    ensures var v := AfterPicks([1, 2], [1, 1], 2); OldestInspected(m, v, 2, 0) && v[[1, 1][0]] == 1 && v[0] == 2
  {
    var picks := [1, 1];
    assert AfterPicks([1, 2], picks, 0) == [1, 2];
    assert AfterPicks([1, 2], picks, 1) == [2, 1];
    assert AfterPicks([1, 2], picks, 2) == [2, 1];
  }

  /** The loop of SelectTried over the first few elements of a bucket. */
  method InspectTried(m: map<int, AddrInfo>, before: seq<int>) returns (vTried: seq<int>, nOldestPos: int, ghost picks: seq<int>, ghost w: nat)
    requires before != [] && NoDuplicates(before) && forall id :: id in before ==> id in m && id >= 0
    ensures |picks| == if |before| < TRIED_ENTRIES_INSPECT_ON_EVICT then |before| else TRIED_ENTRIES_INSPECT_ON_EVICT
    ensures forall i :: 0 <= i < |picks| ==> i <= picks[i] < |before|
    ensures vTried == AfterPicks(before, picks, |picks|) && Reordered(vTried, before)
    ensures OldestInspected(m, vTried, |picks|, w) && nOldestPos == picks[w]
  {
    hide AfterPicks, SwappedIn, OldestInspected, Reordered;
    vTried := before;
    var nOldest := -1;
    nOldestPos := -1;
    picks, w := [], 0;
    var i := 0;
    NoPicks(before);
    while i < TRIED_ENTRIES_INSPECT_ON_EVICT && i < |vTried|
      invariant Reordered(vTried, before) && |vTried| == |before|
      invariant 0 <= i <= |before| && i <= TRIED_ENTRIES_INSPECT_ON_EVICT
      invariant |picks| == i && forall j :: 0 <= j < i ==> j <= picks[j] < |before|
      invariant vTried == AfterPicks(before, picks, i)
      invariant i > 0 ==> OldestInspected(m, vTried, i, w) && w < i && nOldest == vTried[w] && nOldest in m && nOldest >= 0
      invariant i > 0 ==> nOldestPos == picks[w]
      invariant i == 0 ==> nOldest == -1
      decreases TRIED_ENTRIES_INSPECT_ON_EVICT - i
    {
      ReorderedMembers(vTried, before);
      var r := GetRandInt(|vTried| - i);
      var nPos := r + i;
      var nTemp := vTried[nPos];
      assert nTemp in vTried;
      InspectOne(m, vTried, i, nPos, w);
      MorePicks(before, picks, i, nPos);
      SwapReorders(vTried, i, nPos, before);
      vTried := vTried[nPos := vTried[i]];
      vTried := vTried[i := nTemp];
      picks := picks + [nPos];
      if nOldest == -1 || m[nTemp].nLastSuccess < m[nOldest].nLastSuccess {
        nOldest := nTemp;
        nOldestPos := nPos;
        w := i;
      }
      i := i + 1;
    }
  }

  lemma NoPicks(v: seq<int>)
    ensures AfterPicks(v, [], 0) == v && Reordered(v, v)
  {
  }

  lemma {:induction false} SamePicks(v: seq<int>, picks: seq<int>, k: nat, pos: int)
    requires k <= |picks| && k <= |v| && forall i :: 0 <= i < k ==> i <= picks[i] < |v|
    ensures AfterPicks(v, picks + [pos], k) == AfterPicks(v, picks, k)
  {
    if k > 0 { SamePicks(v, picks, k - 1, pos); }
  }

  lemma MorePicks(v: seq<int>, picks: seq<int>, k: nat, pos: nat)
    requires |picks| == k < |v| && k <= pos < |v| && forall i :: 0 <= i < k ==> i <= picks[i] < |v|
    ensures var u := AfterPicks(v, picks, k);
      AfterPicks(v, picks + [pos], k + 1) == SwappedIn(u, k, pos) == u[pos := u[k]][k := u[pos]]
  {
    SamePicks(v, picks, k, pos);
  }

  lemma InspectOne(m: map<int, AddrInfo>, v: seq<int>, i: nat, j: nat, w: nat)
    requires i <= j < |v| && v[j] in m && (i > 0 ==> OldestInspected(m, v, i, w))
    ensures var u := SwappedIn(v, i, j);
      var next := if i == 0 || m[v[j]].nLastSuccess < m[v[w]].nLastSuccess then i else w;
      && u[i] == v[j] && u == v[j := v[i]][i := v[j]] && OldestInspected(m, u, i + 1, next)
      && forall x :: 0 <= x < i ==> u[x] == v[x]
  {
  }

  /** How many entries of a bucket come before this one. */
  function Rank(bucket: set<int>, id: int): nat {
    |set j | j in bucket && j < id|
  }

  /** Seen less recently, or as long ago and created before. */
  predicate Older(m: map<int, AddrInfo>, id: int, j: int)
    requires id in m && j in m
  {
    m[id].addr.nTime < m[j].addr.nTime || (m[id].addr.nTime == m[j].addr.nTime && id < j)
  }

  /** The oldest of the entries `seen` that stand at one of the given places of the bucket. */
  ghost predicate IsOldest(m: map<int, AddrInfo>, bucket: set<int>, seen: set<int>, places: seq<int>, id: int) {
    && id in seen && id in m && Rank(bucket, id) in places
    && forall j :: j in seen && j in m && Rank(bucket, j) in places && j != id ==> Older(m, id, j)
  }

  /** The entry that a full bucket gives up: the first terrible one, or else the oldest at the places picked. */
  ghost predicate GivesUp(m: map<int, AddrInfo>, bucket: set<int>, nNow: int, r: int, places: seq<int>, id: int) {
    && id in bucket && id in m
    && if r == 0 then IsTerrible(m[id], nNow) && forall j :: j in bucket && j in m && j < id ==> !IsTerrible(m[j], nNow)
       else
         && r == 1 && IsOldest(m, bucket, bucket, places, id)
         && forall j :: j in bucket && j in m ==> !IsTerrible(m[j], nNow)
  }

  /** `s` is `t` after the bucket has given up one entry. */
  ghost predicate Shrunk(t: Tables, s: Tables, b: nat, nNow: int, r: int, places: seq<int>)
    requires b < |t.vvNew|
  {
    exists id :: GivesUp(t.mapInfo, t.vvNew[b], nNow, r, places, id) && Evictable(t, b, id) && s == Evicted(t, b, id)
  }

  /** What is forgotten does not depend on the entry that is set. */
  lemma ForgetsBeside(known: map<NetAddr, Entry>, entered: map<NetAddr, Entry>, later: map<NetAddr, Entry>, net: NetAddr)
    requires net in entered && net in later && entered == known[net := entered[net]] && ForgetsAtMostOne(entered, later, net)
    ensures ForgetsAtMostOne(known, later, net)
  {
  }

  lemma RankNext(bucket: set<int>, rest: set<int>, id: int)
    requires rest <= bucket && id in rest && forall j :: j in rest ==> id <= j
    requires forall j, k :: j in bucket && j !in rest && k in rest ==> j < k
    ensures Rank(bucket, id) == |bucket| - |rest|
  {
    assert (set j | j in bucket && j < id) == bucket - rest;
    assert bucket == (bucket - rest) + rest;
  }

  /** How far the search for the oldest has got: none of the entries seen stands at a place picked, or `id` is the
      oldest of those that do. */
  ghost predicate OldestSoFar(m: map<int, AddrInfo>, bucket: set<int>, seen: set<int>, places: seq<int>, none: bool, id: int) {
    if none then forall j :: j in seen ==> Rank(bucket, j) !in places else IsOldest(m, bucket, seen, places, id)
  }

  lemma OldestSkip(m: map<int, AddrInfo>, bucket: set<int>, seen: set<int>, places: seq<int>, none: bool, id: int, it: int)
    requires OldestSoFar(m, bucket, seen, places, none, id)
    requires Rank(bucket, it) in places ==> !none && it in m && Older(m, id, it)
    ensures OldestSoFar(m, bucket, seen + {it}, places, none, id)
  {
    hide Rank, Older;
  }

  lemma OldestTake(m: map<int, AddrInfo>, bucket: set<int>, seen: set<int>, places: seq<int>, none: bool, id: int, it: int)
    requires OldestSoFar(m, bucket, seen, places, none, id) && seen <= m.Keys
    requires it in m && Rank(bucket, it) in places && (none || m[it].addr.nTime < m[id].addr.nTime)
    ensures OldestSoFar(m, bucket, seen + {it}, places, false, it)
  {
    hide Rank;
    forall j | j in seen && Rank(bucket, j) in places && j != it ensures Older(m, it, j) {
      assert j == id || Older(m, id, j);
    }
  }

  lemma Picked(n: seq<int>, k: int)
    requires |n| == 4
    ensures k in n <==> k == n[0] || k == n[1] || k == n[2] || k == n[3]
  {
  }

  /** Going through the bucket in order finds the oldest of the entries at four places. */
  method OldestOf(m: map<int, AddrInfo>, vNew: set<int>, n: seq<int>) returns (nOldest: int)
    requires vNew <= m.Keys && |n| == 4 && forall k :: 0 <= k < |n| ==> 0 <= n[k] < |vNew|
    ensures IsOldest(m, vNew, vNew, n, nOldest)
  {
    hide Rank, IsOldest, OldestSoFar;
    var nI, none := 0, true;
    nOldest := -1;
    var rest := vNew;
    OldestStart(m, vNew, n, nOldest);
    while rest != {}
      invariant rest <= vNew && nI == |vNew| - |rest|
      invariant forall j, k :: j in vNew && j !in rest && k in rest ==> j < k
      invariant none ==> n[0] >= nI
      invariant !none ==> nOldest in vNew - rest
      invariant OldestSoFar(m, vNew, vNew - rest, n, none, nOldest)
      decreases rest
    {
      var it := Least(rest);
      RankNext(vNew, rest, it);
      Picked(n, nI);
      ghost var seen := vNew - rest;
      if (nI == n[0] || nI == n[1] || nI == n[2] || nI == n[3]) && (none || m[it].addr.nTime < m[nOldest].addr.nTime) {
        OldestTake(m, vNew, seen, n, none, nOldest, it);
        nOldest, none := it, false;
      } else {
        OldestSkip(m, vNew, seen, n, none, nOldest, it);
      }
      nI := nI + 1;
      rest := rest - {it};
      assert vNew - rest == seen + {it};
    }
    assert vNew - rest == vNew;
    OldestFound(m, vNew, n, nOldest);
  }

  lemma OldestStart(m: map<int, AddrInfo>, bucket: set<int>, places: seq<int>, id: int)
    ensures OldestSoFar(m, bucket, bucket - bucket, places, true, id)
  {
  }

  lemma OldestFound(m: map<int, AddrInfo>, bucket: set<int>, places: seq<int>, id: int)
    requires OldestSoFar(m, bucket, bucket, places, false, id)
    ensures IsOldest(m, bucket, bucket, places, id)
  {
  }

  lemma PendingId(hs: Hashes, t: Tables, b: nat, id: int, pending: set<int>)
    requires Pending(hs, t, pending) && b < |t.vvNew| && id in t.vvNew[b]
    ensures |t.vvNew| == NEW_BUCKET_COUNT && id in t.mapInfo && Shuffled(t.mapInfo, t.vRandom)
  {
    hide TriedTable, TriedIds, NewIds, BucketCount, Indexed, Counted, StatsOk, Shuffled;
  }

  lemma BucketInMap(hs: Hashes, t: Tables, b: nat, pending: set<int>)
    requires Pending(hs, t, pending) && b < |t.vvNew|
    ensures t.vvNew[b] <= t.mapInfo.Keys
  {
    hide Pending;
    forall id | id in t.vvNew[b] ensures id in t.mapInfo { PendingId(hs, t, b, id, pending); }
  }

  lemma OldestMember(m: map<int, AddrInfo>, bucket: set<int>, places: seq<int>, id: int)
    requires IsOldest(m, bucket, bucket, places, id)
    ensures id in bucket && id in m
  {
  }

  /** Lowering the count of an entry before it is removed makes no difference. */
  lemma CountOfForgotten(t: Tables, b: nat, id: int)
    requires Shuffled(t.mapInfo, t.vRandom) && id in t.mapInfo && b < |t.vvNew|
    ensures var low := t.(mapInfo := t.mapInfo[id := t.mapInfo[id].(nRefCount := t.mapInfo[id].nRefCount - 1)]);
      && Shuffled(low.mapInfo, low.vRandom) && 0 <= t.mapInfo[id].nRandomPos < |t.vRandom|
      && id in Swapped(low, t.mapInfo[id].nRandomPos, |t.vRandom| - 1).mapInfo
      && |Swapped(low, t.mapInfo[id].nRandomPos, |t.vRandom| - 1).vRandom| == |t.vRandom|
      && |Swapped(low, t.mapInfo[id].nRandomPos, |t.vRandom| - 1).vvNew| == |t.vvNew|
      && Forgotten(Swapped(low, t.mapInfo[id].nRandomPos, |t.vRandom| - 1), b, id) ==
         Forgotten(Swapped(t, t.mapInfo[id].nRandomPos, |t.vRandom| - 1), b, id)
  {
    var low := t.(mapInfo := t.mapInfo[id := t.mapInfo[id].(nRefCount := t.mapInfo[id].nRefCount - 1)]);
    var pos, last := t.mapInfo[id].nRandomPos, |t.vRandom| - 1;
    assert Swapped(low, pos, last).mapInfo - {id} == Swapped(t, pos, last).mapInfo - {id};
  }

  lemma ParametersOk(hs: Hashes, t: Tables, id: int, b: nat)
    requires Consistent(hs, t) && b < NEW_BUCKET_COUNT && id in t.vvNew[b]
    ensures NewTable(t.mapInfo, t.vvNew, {}) && TriedTable(hs, t.mapInfo, t.vvTried)
    ensures id in t.mapInfo && !t.mapInfo[id].fInTried && |t.vvTried| == TRIED_BUCKET_COUNT && |t.vvNew| == NEW_BUCKET_COUNT
    ensures forall i :: i in t.mapInfo ==> i >= 0
    ensures t.mapInfo[id].addr.service.net in t.mapAddr && t.mapAddr[t.mapInfo[id].addr.service.net] == id
    ensures Known(t, id)
  {
    hide BucketCount, TriedIds, NewIds, Shuffled;
  }

  /** An id and its address name the same entry. */
  ghost predicate Known(t: Tables, id: int) {
    id in t.mapInfo && var net := t.mapInfo[id].addr.service.net; net in View(t) && View(t)[net] == EntryOf(t.mapInfo[id])
  }

  lemma StillTried(hs: Hashes, m: map<int, AddrInfo>, m': map<int, AddrInfo>, tried: seq<seq<int>>, id: int)
    requires TriedTable(hs, m, tried) && id in m && m' == m[id := m[id].(nRefCount := 0)]
    ensures TriedTable(hs, m', tried)
  {
  }

  lemma ReorderedState(hs: Hashes, t: Tables, k: nat, p: seq<int>)
    requires Consistent(hs, t) && k < TRIED_BUCKET_COUNT && Reordered(p, t.vvTried[k])
    ensures Consistent(hs, t.(vvTried := t.vvTried[k := p])) && View(t.(vvTried := t.vvTried[k := p])) == View(t)
  {
    ReorderKeeps(hs, t.mapInfo, t.vvTried, k, p);
    hide TriedTable, NewTable, TriedIds, NewIds, Shuffled, Indexed;
  }

  lemma DisplacedOk(hs: Hashes, t: Tables, id: int, pos: nat)
    requires Consistent(hs, t) && id in t.mapInfo && !t.mapInfo[id].fInTried
    requires pos < |t.vvTried[hs.TriedBucket(t.mapInfo[id].addr.service)]|
    ensures var out := t.vvTried[hs.TriedBucket(t.mapInfo[id].addr.service)][pos];
      && |t.vvTried| == TRIED_BUCKET_COUNT && |t.vvNew| == NEW_BUCKET_COUNT
      && out in t.mapInfo && out != id && t.mapInfo[out].fInTried && Known(t, out) && Known(t, id)
      && t.mapInfo[out].addr.service.net != t.mapInfo[id].addr.service.net
  {
    hide BucketCount, TriedIds, NewIds, Shuffled;
    var out := t.vvTried[hs.TriedBucket(t.mapInfo[id].addr.service)][pos];
    assert out in t.vvTried[hs.TriedBucket(t.mapInfo[id].addr.service)];
  }

  /** The three updates of an exchange, in the order the program makes them. */
  lemma ExchangedInfo(m: map<int, AddrInfo>, id: int, out: int)
    requires id in m && out in m && id != out
    ensures var m1 := m[id := m[id].(nRefCount := 0)];
      var m2 := m1[out := m1[out].(fInTried := false, nRefCount := 1)];
      m2[id := m2[id].(fInTried := true)] == m[id := PromotedInfo(m[id])][out := DemotedInfo(m[out])]
  {
  }

  /** There is certainly place in the bucket an entry just left. */
  lemma RoomAtOrigin(m: map<int, AddrInfo>, buckets: seq<set<int>>, id: int, origin: nat)
    requires NewTable(m, buckets, {}) && origin < |buckets| && id in buckets[origin]
    ensures |Stripped(buckets, id)[origin]| < NEW_BUCKET_SIZE
  {
    hide BucketCount;
  }

  lemma TouchConsistent(hs: Hashes, t: Tables, id: int, info: AddrInfo)
    requires Consistent(hs, t) && id in t.mapInfo && SamePlace(t.mapInfo[id], info)
    requires info.nRandomPos == t.mapInfo[id].nRandomPos
    requires info.addr.nLastTry == t.mapInfo[id].addr.nLastTry || info.addr.nLastTry >= 0
    requires info.nLastSuccess == t.mapInfo[id].nLastSuccess || info.nLastSuccess > 0
    ensures Consistent(hs, Touch(t, id, info))
    ensures View(Touch(t, id, info)) == View(t)[info.addr.service.net := EntryOf(info)]
  {
    hide TriedTable, NewTable, TriedIds, NewIds, Indexed, Shuffled;
    assert StatsOkOf(t.mapInfo[id]);
    TouchKeeps(hs, t, id, info, {});
  }

  /** The m-th bucket of a loop that starts anywhere and goes round. */
  function Rotated(m: int, start: int, n: int): int
    requires n > 0
  {
    (m + start) % n
  }

  /** A loop over all buckets from any starting point reaches every bucket. */
  lemma RotationCovers(buckets: seq<set<int>>, start: nat, id: int)
    requires forall m :: 0 <= m < |buckets| ==> id !in buckets[Rotated(m, start, |buckets|)]
    ensures forall b :: 0 <= b < |buckets| ==> id !in buckets[b]
  {
    forall b | 0 <= b < |buckets| ensures id !in buckets[b] {
      RotateBack(b, start, |buckets|);
      assert Rotated((b - start) % |buckets|, start, |buckets|) == b;
    }
  }

  lemma RotateBack(b: int, start: int, n: int)
    requires 0 <= b < n
    ensures ((b - start) % n + start) % n == b
  {
    var q := (b - start) / n;
    assert (b - start) % n + start == b - q * n;
    assert b - q * n == b + (-q) * n;
    ModOfMultiple(b, -q, n);
  }

  lemma ModOfMultiple(b: int, k: int, n: int)
    requires 0 <= b < n
    ensures (b + k * n) % n == b
  {
    var x := b + k * n;
    assert x == (x / n) * n + x % n;
    var d := x / n - k;
    assert d * n == b - x % n;
    assert d >= 1 ==> d * n >= n;
    assert d <= -1 ==> d * n <= -n;
  }

  lemma NewIsInABucket(hs: Hashes, t: Tables, id: int)
    requires Consistent(hs, t) && id in t.mapInfo && !t.mapInfo[id].fInTried
    ensures exists b :: 0 <= b < |t.vvNew| && id in t.vvNew[b]
  {
    hide TriedTable, TriedIds, NewIds, Indexed, Shuffled, BucketCount, Counted;
    assert RefCountOk(t.mapInfo[id], BucketCount(t.vvNew, id) + if id in {} then 1 else 0);
    CountZero(t.vvNew, id);
  }

  lemma HasBuckets(hs: Hashes, t: Tables)
    requires Consistent(hs, t)
    ensures |t.vvNew| == NEW_BUCKET_COUNT
  {
    hide TriedTable, TriedIds, NewIds, Indexed, Shuffled, BucketCount, Counted;
  }

  lemma KnownId(hs: Hashes, t: Tables, id: int)
    requires Consistent(hs, t) && id in t.mapInfo
    ensures Known(t, id)
  {
    hide TriedTable, NewTable, TriedIds, NewIds, Shuffled, Counted;
    IndexedKnown(hs, t, id);
  }

  lemma RaiseFromBucket(hs: Hashes, t: Tables, id: int)
    requires Consistent(hs, t) && id in t.mapInfo && !t.mapInfo[id].fInTried && t.mapInfo[id].nRefCount != NEW_BUCKETS_PER_ADDRESS
    ensures Pending(hs, Raised(t, id), {id}) && View(Raised(t, id)) == View(t) && t.nIdCount >= 0
  {
    hide TriedTable, TriedIds, NewIds, Indexed, Shuffled, BucketCount, Counted;
    assert RefCountOk(t.mapInfo[id], BucketCount(t.vvNew, id) + if id in {} then 1 else 0);
    RaiseKeeps(hs, t, id);
  }

  lemma CreateOutside(hs: Hashes, t: Tables, addr: Address, source: NetAddr, b: nat)
    requires Consistent(hs, t) && addr.service.net !in t.mapAddr && addr.nLastTry >= 0 && b < NEW_BUCKET_COUNT
    ensures Pending(hs, Created(t, addr, source), {t.nIdCount}) && t.nIdCount >= 0
    ensures View(Created(t, addr, source)) == View(t)[addr.service.net := EntryOf(CreatedInfo(t, addr, source))]
    ensures |t.vvNew| == NEW_BUCKET_COUNT && t.nIdCount !in t.vvNew[b] && t.nIdCount !in t.mapInfo
  {
    hide TriedTable, NewTable, Indexed, TriedIds, NewIds, Shuffled, BucketCount, Counted, StatsOk, View, Created, Pending;
    ConsistentIsPending(hs, t);
    CreateKeeps(hs, t, addr, source);
    FreshOutside(hs, t, b);
  }

  lemma ConsistentIsPending(hs: Hashes, t: Tables)
    requires Consistent(hs, t)
    ensures Pending(hs, t, {}) && t.nIdCount >= 0
  {
    hide Pending;
  }

  /** The next id is in no bucket. */
  lemma FreshOutside(hs: Hashes, t: Tables, b: nat)
    requires Pending(hs, t, {}) && b < NEW_BUCKET_COUNT
    ensures |t.vvNew| == NEW_BUCKET_COUNT && t.nIdCount !in t.vvNew[b] && t.nIdCount !in t.mapInfo
  {
    hide TriedTable, TriedIds, NewIds, Shuffled, BucketCount, Counted, StatsOk;
    BucketInMap(hs, t, b, {});
  }

  lemma IndexedKnown(hs: Hashes, t: Tables, id: int)
    requires Indexed(t.mapInfo, t.mapAddr, t.nIdCount) && id in t.mapInfo
    ensures Known(t, id)
  {
  }

  lemma EvictedOthers(t: Tables, b: nat, out: int, id: int)
    requires Shuffled(t.mapInfo, t.vRandom) && b < |t.vvNew| && out in t.mapInfo && id in t.mapInfo && id != out
    ensures var s := Evicted(t, b, out);
      && s.nIdCount == t.nIdCount && id in s.mapInfo
      && s.mapInfo[id] == t.mapInfo[id].(nRandomPos := s.mapInfo[id].nRandomPos)
  {
  }

  lemma BucketFacts(hs: Hashes, t: Tables, b: nat, pending: set<int>)
    requires Pending(hs, t, pending) && b < NEW_BUCKET_COUNT
    ensures |t.vvNew| == NEW_BUCKET_COUNT && |t.vvNew[b]| <= NEW_BUCKET_SIZE
    ensures forall id :: id in t.vvNew[b] ==> id in t.mapInfo
  {
    hide TriedTable, TriedIds, NewIds, Shuffled, BucketCount, Counted, Indexed;
  }

  /** Making room in a bucket leaves a pending entry known, and loses at most one other. */
  lemma RoomMade(hs: Hashes, t: Tables, s: Tables, b: nat, id: int)
    requires Pending(hs, t, {id}) && id in t.mapInfo && !t.mapInfo[id].fInTried && b < NEW_BUCKET_COUNT && id !in t.vvNew[b]
    requires exists out :: out in t.vvNew[b] && Evictable(t, b, out) && s == Evicted(t, b, out)
    ensures Pending(hs, s, {id}) && s.nIdCount == t.nIdCount
    ensures id in s.mapInfo && s.mapInfo[id].addr == t.mapInfo[id].addr && !s.mapInfo[id].fInTried
    ensures id !in s.vvNew[b] && |s.vvNew[b]| < NEW_BUCKET_SIZE
    ensures ForgetsAtMostOne(View(t), View(s), t.mapInfo[id].addr.service.net)
    ensures Known(s, id) && View(s)[t.mapInfo[id].addr.service.net] == EntryOf(t.mapInfo[id])
  {
    hide TriedTable, NewTable, TriedIds, NewIds, BucketCount, Counted, View, Evicted;
    BucketFacts(hs, t, b, {id});
    var out :| out in t.vvNew[b] && Evictable(t, b, out) && s == Evicted(t, b, out);
    EvictKeeps(hs, t, b, out, {id});
    EvictedOthers(t, b, out, id);
    IndexedKnown(hs, t, out);
    IndexedKnown(hs, s, id);
  }

  // ---- For GetAddr_ ----

  ghost predicate SampledSoFar(t: Tables, sample: seq<Address>, n: nat) {
    && |sample| == n <= |t.vRandom|
    && forall i :: 0 <= i < n ==> t.vRandom[i] in t.mapInfo && sample[i] == t.mapInfo[t.vRandom[i]].addr
  }

  lemma SampleStart(t: Tables)
    ensures SampledSoFar(t, [], 0)
  {
  }

  lemma SwapConsistent(hs: Hashes, t: Tables, i: int, j: int, sample: seq<Address>)
    requires Consistent(hs, t) && 0 <= i <= j < |t.vRandom| && SampledSoFar(t, sample, i)
    ensures Shuffled(t.mapInfo, t.vRandom) && Consistent(hs, Swapped(t, i, j)) && View(Swapped(t, i, j)) == View(t)
    ensures |Swapped(t, i, j).vRandom| == |t.vRandom| && Swapped(t, i, j).vRandom[i] in Swapped(t, i, j).mapInfo
    ensures var s := Swapped(t, i, j); SampledSoFar(s, sample + [s.mapInfo[s.vRandom[i]].addr], i + 1)
  {
    hide TriedTable, NewTable, Indexed, TriedIds, NewIds, View, Counted, StatsOk, SampledSoFar, Swapped;
    SwapKeeps(hs, t, i, j, {});
    SwapInside(t, i, j);
    SampleSwapped(t, i, j, sample);
    SampleGrows(Swapped(t, i, j), sample, i);
  }

  lemma SwapInside(t: Tables, i: int, j: int)
    requires Shuffled(t.mapInfo, t.vRandom) && 0 <= i <= j < |t.vRandom|
    ensures |Swapped(t, i, j).vRandom| == |t.vRandom| && Swapped(t, i, j).vRandom[i] in Swapped(t, i, j).mapInfo
    ensures Swapped(t, i, j).nIdCount == t.nIdCount
  {
  }

  lemma SampleSwapped(t: Tables, i: int, j: int, sample: seq<Address>)
    requires Shuffled(t.mapInfo, t.vRandom) && 0 <= i <= j < |t.vRandom| && SampledSoFar(t, sample, i)
    ensures SampledSoFar(Swapped(t, i, j), sample, i)
  {
  }

  lemma SampleGrows(t: Tables, sample: seq<Address>, n: nat)
    requires SampledSoFar(t, sample, n) && n < |t.vRandom| && t.vRandom[n] in t.mapInfo
    ensures SampledSoFar(t, sample + [t.mapInfo[t.vRandom[n]].addr], n + 1)
  {
  }

  lemma SampleSize(t: Tables, sample: seq<Address>, n: nat)
    requires SampledSoFar(t, sample, n)
    ensures |sample| == n
  {
  }

  lemma SampleIsDistinct(hs: Hashes, t: Tables, sample: seq<Address>)
    requires Consistent(hs, t) && SampledSoFar(t, sample, |sample|)
    ensures forall i :: 0 <= i < |sample| ==> sample[i].service.net in View(t) && View(t)[sample[i].service.net].addr == sample[i]
    ensures forall i, j :: 0 <= i < j < |sample| ==> sample[i].service.net != sample[j].service.net
  {
    hide TriedTable, NewTable, TriedIds, NewIds, Counted;
    forall i, j | 0 <= i < j < |sample| ensures sample[i].service.net != sample[j].service.net {
      assert t.vRandom[i] != t.vRandom[j];
    }
    forall i | 0 <= i < |sample|
      ensures sample[i].service.net in View(t) && View(t)[sample[i].service.net].addr == sample[i]
    {
      IndexedKnown(hs, t, t.vRandom[i]);
    }
  }

  // ---- For Check_ ----

  ghost predicate EntryChecks(t: Tables, id: int) {
    && id in t.mapInfo
    && var info := t.mapInfo[id];
    && info.addr.service.net in t.mapAddr && t.mapAddr[info.addr.service.net] == id
    && 0 <= info.nRandomPos < |t.vRandom| && t.vRandom[info.nRandomPos] == id
    && StatsOkOf(info)
    && (if info.fInTried then info.nRefCount == 0 else 1 <= info.nRefCount <= NEW_BUCKETS_PER_ADDRESS)
  }

  lemma CheckFacts(hs: Hashes, t: Tables)
    requires Consistent(hs, t)
    ensures Counted(t) && forall id :: id in t.mapInfo ==> EntryChecks(t, id)
  {
    hide TriedTable, TriedIds, NewIds, BucketCount, Counted;
    forall id | id in t.mapInfo ensures EntryChecks(t, id) {
      assert RefCountOk(t.mapInfo[id], BucketCount(t.vvNew, id) + if id in {} then 1 else 0);
      assert StatsOkOf(t.mapInfo[id]);
    }
  }

  /** What stands in a tried bucket is tried, belongs there, and stands there once. */
  lemma TriedAt(hs: Hashes, t: Tables, n: nat, i: nat)
    requires Consistent(hs, t) && n < |t.vvTried| && i < |t.vvTried[n]|
    ensures var id := t.vvTried[n][i];
      id in TriedIds(t.mapInfo) && hs.TriedBucket(t.mapInfo[id].addr.service) == n && id !in t.vvTried[n][..i]
  {
    hide NewTable, BucketCount, Counted, Indexed, Shuffled;
    var id := t.vvTried[n][i];
    assert id in t.vvTried[n];
    assert forall j :: 0 <= j < i ==> t.vvTried[n][j] != id;
  }

  lemma TriedFacts(hs: Hashes, t: Tables)
    requires Consistent(hs, t)
    ensures |t.vvTried| == TRIED_BUCKET_COUNT
    ensures forall b :: 0 <= b < |t.vvTried| ==> NoDuplicates(t.vvTried[b])
    ensures forall b, id :: 0 <= b < |t.vvTried| && id in t.vvTried[b] ==>
      id in TriedIds(t.mapInfo) && hs.TriedBucket(t.mapInfo[id].addr.service) == b
    ensures forall id :: id in TriedIds(t.mapInfo) ==> id in t.vvTried[hs.TriedBucket(t.mapInfo[id].addr.service)]
  {
    hide NewTable, NewIds, BucketCount, Counted, Indexed, Shuffled;
  }

  /** `counts` has exactly the ids with references left, and how many. */
  ghost predicate Remaining(counts: map<int, int>, buckets: seq<set<int>>, rest: set<int>) {
    forall id :: (id in counts <==> BucketCount(buckets, id) + (if id in rest then 1 else 0) > 0)
      && (id in counts ==> counts[id] == BucketCount(buckets, id) + (if id in rest then 1 else 0))
  }

  lemma CountsStart(hs: Hashes, t: Tables, counts: map<int, int>)
    requires Consistent(hs, t) && counts.Keys == NewIds(t.mapInfo)
    requires forall id :: id in counts ==> counts[id] == t.mapInfo[id].nRefCount
    ensures Remaining(counts, t.vvNew, {})
  {
    hide TriedTable, TriedIds, BucketCount, Counted, Indexed, Shuffled;
    forall id
      ensures id in counts <==> BucketCount(t.vvNew, id) > 0
      ensures id in counts ==> counts[id] == BucketCount(t.vvNew, id)
    {
      CountZero(t.vvNew, id);
      assert id in t.mapInfo ==> RefCountOk(t.mapInfo[id], BucketCount(t.vvNew, id) + if id in {} then 1 else 0);
    }
  }

  lemma FirstBucket(counts: map<int, int>, buckets: seq<set<int>>, n: nat)
    requires n < |buckets| && Remaining(counts, buckets[n..], {})
    ensures Remaining(counts, buckets[n + 1..], buckets[n])
  {
    assert buckets[n..][0] == buckets[n] && buckets[n..][1..] == buckets[n + 1..];
  }

  lemma StrikeOff(counts: map<int, int>, buckets: seq<set<int>>, rest: set<int>, it: int)
    requires Remaining(counts, buckets, rest) && it in rest
    ensures it in counts && counts[it] >= 1
    ensures counts[it] > 1 ==> Remaining(counts[it := counts[it] - 1], buckets, rest - {it})
    ensures counts[it] == 1 ==> Remaining(counts[it := 0] - {it}, buckets, rest - {it})
  {
    hide BucketCount;
  }

  lemma NoneRemain(counts: map<int, int>, buckets: seq<set<int>>)
    requires buckets == [] && Remaining(counts, buckets, {})
    ensures counts == map[]
  {
    forall id ensures id !in counts { assert BucketCount(buckets, id) == 0; }
  }

  lemma ExchangeMoves(hs: Hashes, t: Tables, u: Tables, id: int, pos: nat, b: nat)
    requires Consistent(hs, u) && id in u.mapInfo && !u.mapInfo[id].fInTried && u.mapInfo[id].nLastSuccess > 0
    requires pos < |u.vvTried[hs.TriedBucket(u.mapInfo[id].addr.service)]|
    requires b < NEW_BUCKET_COUNT && |Stripped(u.vvNew, id)[b]| < NEW_BUCKET_SIZE
    requires View(u) == View(t)
    ensures u.vvTried[hs.TriedBucket(u.mapInfo[id].addr.service)][pos] in u.mapInfo
    ensures MovedToTried(View(t), View(Exchanged(hs, u, id, pos, b)), u.mapInfo[id].addr.service.net)
    ensures !OnlyChanges(View(t), View(Exchanged(hs, u, id, pos, b)), u.mapInfo[id].addr.service.net)
  {
    hide Pending, View, Stripped, Exchanged;
    DisplacedOk(hs, u, id, pos);
    ExchangeKeeps(hs, u, id, pos, b);
    var out := u.vvTried[hs.TriedBucket(u.mapInfo[id].addr.service)][pos];
    var net, other := u.mapInfo[id].addr.service.net, u.mapInfo[out].addr.service.net;
    var after := View(Exchanged(hs, u, id, pos, b));
    assert after[other] != View(t)[other];
  }

  class CAddrMan {
    const hs: Hashes
    const routable: NetAddr -> bool
    var nIdCount: int
    var mapInfo: map<int, AddrInfo>
    var mapAddr: map<NetAddr, int>
    var vRandom: seq<int>
    var nTried: int
    var vvTried: seq<seq<int>>
    var nNew: int
    var vvNew: seq<set<int>>

    ghost function State(): Tables
      reads this
    {
      Tables(nIdCount, mapInfo, mapAddr, vRandom, nTried, vvTried, nNew, vvNew)
    }

    ghost predicate Valid()
      reads this
    {
      Consistent(hs, State())
    }

    /** What an observer knows. */
    ghost function Known(): map<NetAddr, Entry>
      reads this
    {
      View(State())
    }

    constructor (hs: Hashes, routable: NetAddr -> bool)
      ensures this.hs == hs && this.routable == routable
      ensures Valid() && Known() == map[]
    {
      this.hs, this.routable := hs, routable;
      nIdCount, mapInfo, mapAddr, vRandom, nTried, nNew := 0, map[], map[], [], 0, 0;
      vvTried := seq(TRIED_BUCKET_COUNT, _ => []);
      vvNew := seq(NEW_BUCKET_COUNT, _ => {});
      new;
      assert TriedIds(mapInfo) == {} && NewIds(mapInfo) == {};
    }

    method Find(addr: NetAddr) returns (found: bool, nId: int)
      requires Valid()
      ensures found <==> addr in Known()
      ensures found ==> addr in mapAddr && nId == mapAddr[addr] && nId in mapInfo
                        && mapInfo[nId].addr.service.net == addr && Known()[addr] == EntryOf(mapInfo[nId])
      ensures !found ==> addr !in mapAddr
    {
      if addr !in mapAddr { return false, 0; }
      return true, mapAddr[addr];
    }

    method Create(addr: Address, source: NetAddr) returns (nId: int)
      requires Valid() && addr.service.net !in mapAddr
      modifies this`nIdCount, this`mapInfo, this`mapAddr, this`vRandom
      ensures nId == old(nIdCount)
      ensures mapInfo == old(mapInfo)[nId := AddrInfo(addr.(nLastTry := 0), source, 0, 0, 0, false, |old(vRandom)|)]
      ensures mapAddr == old(mapAddr)[addr.service.net := nId]
      ensures vRandom == old(vRandom) + [nId] && nIdCount == old(nIdCount) + 1
    {
      nId := nIdCount;
      nIdCount := nIdCount + 1;
      mapInfo := mapInfo[nId := AddrInfo(addr.(nLastTry := 0), source, 0, 0, 0, false, -1)];
      mapAddr := mapAddr[addr.service.net := nId];
      mapInfo := mapInfo[nId := mapInfo[nId].(nRandomPos := |vRandom|)];
      vRandom := vRandom + [nId];
    }

    method SwapRandom(nRndPos1: int, nRndPos2: int)
      requires Shuffled(mapInfo, vRandom) && 0 <= nRndPos1 < |vRandom| && 0 <= nRndPos2 < |vRandom|
      modifies this`mapInfo, this`vRandom
      ensures State() == Swapped(old(State()), nRndPos1, nRndPos2)
    {
      if nRndPos1 == nRndPos2 { return; }
      var nId1, nId2 := vRandom[nRndPos1], vRandom[nRndPos2];
      assert nId1 in mapInfo && nId2 in mapInfo;
      mapInfo := mapInfo[nId1 := mapInfo[nId1].(nRandomPos := nRndPos2)];
      mapInfo := mapInfo[nId2 := mapInfo[nId2].(nRandomPos := nRndPos1)];
      assert mapInfo == SwapPositions(old(mapInfo), nId1, nId2, nRndPos1, nRndPos2);
      vRandom := vRandom[nRndPos1 := nId2];
      vRandom := vRandom[nRndPos2 := nId1];
    }

    /** Shuffles the first few elements of a bucket and returns the position it chose to give up. */
    method SelectTried(nKBucket: nat) returns (nOldestPos: int, ghost picks: seq<int>, ghost w: nat)
      requires TriedTable(hs, mapInfo, vvTried) && nKBucket < TRIED_BUCKET_COUNT && vvTried[nKBucket] != []
      requires forall id :: id in mapInfo ==> id >= 0
      modifies this`vvTried
      ensures |vvTried| == |old(vvTried)| && Reordered(vvTried[nKBucket], old(vvTried[nKBucket]))
      ensures vvTried == old(vvTried)[nKBucket := vvTried[nKBucket]]
      ensures |picks| == if |old(vvTried[nKBucket])| < TRIED_ENTRIES_INSPECT_ON_EVICT then |old(vvTried[nKBucket])| else TRIED_ENTRIES_INSPECT_ON_EVICT
      ensures forall i :: 0 <= i < |picks| ==> i <= picks[i] < |old(vvTried[nKBucket])|
      ensures vvTried[nKBucket] == AfterPicks(old(vvTried[nKBucket]), picks, |picks|)
      ensures OldestInspected(mapInfo, vvTried[nKBucket], |picks|, w) && nOldestPos == picks[w]
    {
      hide TriedTable, AfterPicks, SwappedIn, OldestInspected;
      BucketIds(hs, mapInfo, vvTried, nKBucket);
      var vTried;
      vTried, nOldestPos, picks, w := InspectTried(mapInfo, vvTried[nKBucket]);
      vvTried := vvTried[nKBucket := vTried];
    }

    /** Drops one reference: the entry leaves the bucket, and leaves the manager with its last reference. */
    method Unreference(nUBucket: nat, id: int, ghost pending: set<int>)
      requires nUBucket < |vvNew| && id in vvNew[nUBucket] && id !in pending && Pending(hs, State(), pending)
      modifies this`mapInfo, this`mapAddr, this`vRandom, this`nNew, this`vvNew
      ensures Evictable(old(State()), nUBucket, id) && State() == Evicted(old(State()), nUBucket, id)
    {
      hide Pending, Shuffled, Swapped, Forgotten;
      PendingId(hs, State(), nUBucket, id, pending);
      CountOfForgotten(State(), nUBucket, id);
      var info := mapInfo[id];
      mapInfo := mapInfo[id := info.(nRefCount := info.nRefCount - 1)];
      if info.nRefCount - 1 == 0 {
        SwapRandom(info.nRandomPos, |vRandom| - 1);
        Dequeue(nUBucket, id);
      } else {
        vvNew := vvNew[nUBucket := vvNew[nUBucket] - {id}];
      }
    }

    /** Removes every trace of the entry that stands last in `vRandom`. */
    method Dequeue(nUBucket: nat, id: int)
      requires nUBucket < |vvNew| && id in mapInfo && |vRandom| > 0
      modifies this`mapInfo, this`mapAddr, this`vRandom, this`nNew, this`vvNew
      ensures State() == Forgotten(old(State()), nUBucket, id)
    {
      vRandom := vRandom[..|vRandom| - 1];
      mapAddr := mapAddr - {mapInfo[id].addr.service.net};
      mapInfo := mapInfo - {id};
      nNew := nNew - 1;
      vvNew := vvNew[nUBucket := vvNew[nUBucket] - {id}];
    }

    /** Makes room in a full bucket.  It gives up the first terrible entry, or else the least recently seen of four
        entries picked at random. */
    method ShrinkNew(nUBucket: nat, nNow: int, ghost pending: set<int>) returns (r: int, ghost places: seq<int>)
      requires nUBucket < |vvNew| && vvNew[nUBucket] != {} && vvNew[nUBucket] !! pending
      requires Pending(hs, State(), pending)
      modifies this`mapInfo, this`mapAddr, this`vRandom, this`nNew, this`vvNew
      ensures |places| == 4 && Shrunk(old(State()), State(), nUBucket, nNow, r, places)
    {
      hide Pending, Evicted, IsOldest, Indexed, Shuffled, Evictable;
      places := [0, 0, 0, 0];
      BucketInMap(hs, State(), nUBucket, pending);
      var vNew := vvNew[nUBucket];
      var rest := vNew;
      while rest != {}
        invariant rest <= vNew && State() == old(State())
        invariant forall j :: j in vNew && j !in rest ==> !IsTerrible(mapInfo[j], nNow)
        invariant forall j, k :: j in vNew && j !in rest && k in rest ==> j < k
        decreases rest
      {
        var it := Least(rest);
        assert it in mapInfo;
        if IsTerrible(mapInfo[it], nNow) {
          assert GivesUp(mapInfo, vNew, nNow, 0, places, it);
          Unreference(nUBucket, it, pending);
          return 0, places;
        }
        rest := rest - {it};
      }
      var n0 := GetRandInt(|vNew|);
      var n1 := GetRandInt(|vNew|);
      var n2 := GetRandInt(|vNew|);
      var n3 := GetRandInt(|vNew|);
      places := [n0, n1, n2, n3];
      var nOldest := OldestOf(mapInfo, vNew, [n0, n1, n2, n3]);
      OldestMember(mapInfo, vNew, places, nOldest);
      assert GivesUp(mapInfo, vNew, nNow, 1, places, nOldest);
      Unreference(nUBucket, nOldest, pending);
      return 1, places;
    }

    /** The loop that takes an entry out of every new bucket, counting its references down to zero. */
    method LeaveNewBuckets(nId: int)
      requires NewTable(mapInfo, vvNew, {}) && nId in mapInfo
      modifies this`mapInfo, this`vvNew
      ensures vvNew == Stripped(old(vvNew), nId)
      ensures mapInfo == old(mapInfo)[nId := old(mapInfo)[nId].(nRefCount := 0)]
    {
      hide BucketCount, Stripped;
      ghost var m, buckets := mapInfo, vvNew;
      assert RefCountOk(m[nId], BucketCount(buckets, nId) + if nId in {} then 1 else 0);
      var n := 0;
      while n < |vvNew|
        invariant 0 <= n <= |vvNew| == |buckets|
        invariant forall b :: 0 <= b < |vvNew| ==> vvNew[b] == if b < n then buckets[b] - {nId} else buckets[b]
        invariant nId in mapInfo && mapInfo[nId].nRefCount == BucketCount(vvNew, nId)
        invariant mapInfo == m[nId := m[nId].(nRefCount := mapInfo[nId].nRefCount)]
      {
        if nId in vvNew[n] {
          CountUpdate(vvNew, n, vvNew[n] - {nId}, nId);
          vvNew := vvNew[n := vvNew[n] - {nId}];
          mapInfo := mapInfo[nId := mapInfo[nId].(nRefCount := mapInfo[nId].nRefCount - 1)];
        }
        n := n + 1;
      }
      CountZero(vvNew, nId);
      assert vvNew == Stripped(buckets, nId);
    }

    /** Moves an entry from the new buckets to its tried bucket; when that is full, an entry it displaces goes
        back to a new bucket. */
    method MakeTried(nId: int, nOrigin: nat)
      requires Valid() && nOrigin < NEW_BUCKET_COUNT && nId in vvNew[nOrigin]
      requires nId in mapInfo && mapInfo[nId].nLastSuccess > 0
      modifies this
      ensures Valid()
      ensures MovedToTried(old(Known()), Known(), old(mapInfo[nId].addr.service.net))
      ensures nTried == old(nTried) + 1 <==> OnlyChanges(old(Known()), Known(), old(mapInfo[nId].addr.service.net))
      ensures nTried + nNew == old(nTried + nNew)
    {
      hide Pending, TriedTable, NewTable, TriedIds, NewIds, View, BucketCount, Stripped, Counted, Shuffled, Indexed, StatsOk;
      ghost var t := State();
      ParametersOk(hs, t, nId, nOrigin);
      LeaveNewBuckets(nId);
      nNew := nNew - 1;
      var nKBucket := hs.TriedBucket(mapInfo[nId].addr.service);
      if |vvTried[nKBucket]| < TRIED_BUCKET_SIZE {
        vvTried := vvTried[nKBucket := vvTried[nKBucket] + [nId]];
        nTried := nTried + 1;
        mapInfo := mapInfo[nId := mapInfo[nId].(fInTried := true)];
        assert State() == Promoted(hs, t, nId);
        PromoteKeeps(hs, t, nId);
        return;
      }
      StillTried(hs, t.mapInfo, mapInfo, vvTried, nId);
      var nPos, picks, w := SelectTried(nKBucket);
      ghost var u := t.(vvTried := vvTried);
      ReorderedState(hs, t, nKBucket, vvTried[nKBucket]);
      var b := Displace(nId, nKBucket, nPos, nOrigin, u);
      ExchangeKeeps(hs, u, nId, nPos, b);
      ExchangeMoves(hs, t, u, nId, nPos, b);
    }

    /** Puts the entry in the place of another, which goes to its own new bucket or, when that is full, to the one
        the entry came from. */
    method Displace(nId: int, nKBucket: nat, nPos: nat, nOrigin: nat, ghost u: Tables) returns (b: nat)
      requires Consistent(hs, u) && nId in u.mapInfo && State() == Departed(u, nId)
      requires !u.mapInfo[nId].fInTried && nKBucket == hs.TriedBucket(u.mapInfo[nId].addr.service)
      requires nPos < |u.vvTried[nKBucket]| && nOrigin < NEW_BUCKET_COUNT && nId in u.vvNew[nOrigin]
      modifies this`mapInfo, this`nNew, this`vvNew, this`vvTried
      ensures b < NEW_BUCKET_COUNT && |Stripped(u.vvNew, nId)[b]| < NEW_BUCKET_SIZE
      ensures u.vvTried[nKBucket][nPos] in u.mapInfo && State() == Exchanged(hs, u, nId, nPos, b)
      ensures (var out := u.mapInfo[u.vvTried[nKBucket][nPos]];
        var own := hs.NewBucket(out.addr.service, out.source);
        b == if |Stripped(u.vvNew, nId)[own]| < NEW_BUCKET_SIZE then own else nOrigin)
    {
      hide Consistent, Stripped, Known, View, NewTable, TriedTable;
      DisplacedOk(hs, u, nId, nPos);
      ParametersOk(hs, u, nId, nOrigin);
      RoomAtOrigin(u.mapInfo, u.vvNew, nId, nOrigin);
      var nOut := vvTried[nKBucket][nPos];
      var nUBucket := hs.NewBucket(mapInfo[nOut].addr.service, mapInfo[nOut].source);
      mapInfo := mapInfo[nOut := mapInfo[nOut].(fInTried := false, nRefCount := 1)];
      b := if |vvNew[nUBucket]| < NEW_BUCKET_SIZE then nUBucket else nOrigin;
      vvNew := vvNew[b := vvNew[b] + {nOut}];
      nNew := nNew + 1;
      vvTried := vvTried[nKBucket := vvTried[nKBucket][nPos := nId]];
      mapInfo := mapInfo[nId := mapInfo[nId].(fInTried := true)];
      ExchangedInfo(u.mapInfo, nId, nOut);
    }

    /** Marks an address as good.  An address that is not known under exactly this service is left alone. */
    method Good_(addr: Service, nTime: int)
      requires Valid() && nTime > 0
      modifies this
      ensures Valid()
      ensures addr.net !in old(Known()) || old(Known())[addr.net].addr.service != addr ==> State() == old(State())
      ensures (addr.net in old(Known()) && old(Known())[addr.net].addr.service == addr ==>
        && MovedToTried(old(Known())[addr.net := Succeeded(old(Known())[addr.net], nTime)], Known(), addr.net)
        && (old(Known())[addr.net].tried ==> OnlyChanges(old(Known()), Known(), addr.net)))
      ensures nTried + nNew == old(nTried + nNew)
    {
      hide Consistent, View;
      ghost var t := State();
      var found, nId := Find(addr.net);
      if !found { return; }
      var info := mapInfo[nId];
      if info.addr.service != addr { return; }
      var stats := info.(nLastSuccess := nTime, nAttempts := 0,
                         addr := info.addr.(nLastTry := nTime, nTime := ToUint32(nTime)));
      TouchConsistent(hs, t, nId, stats);
      mapInfo := mapInfo[nId := stats];
      ghost var touched := Known();
      assert touched == old(Known())[addr.net := EntryOf(stats)];
      if info.fInTried { return; }
      var nUBucket := FindNewBucket(nId);
      if nUBucket == -1 {
        NewIsInABucket(hs, State(), nId);
        assert false;
      }
      MakeTried(nId, nUBucket);
    }

    /** Some new bucket that holds an id, starting the search at a random one; -1 when there is none. */
    method FindNewBucket(nId: int) returns (nUBucket: int)
      requires Valid()
      ensures |vvNew| == NEW_BUCKET_COUNT
      ensures nUBucket == -1 ==> forall b :: 0 <= b < |vvNew| ==> nId !in vvNew[b]
      ensures nUBucket != -1 ==> 0 <= nUBucket < NEW_BUCKET_COUNT && nId in vvNew[nUBucket]
    {
      hide Consistent;
      HasBuckets(hs, State());
      var nRnd := GetRandInt(|vvNew|);
      var n := 0;
      while n < |vvNew|
        invariant 0 <= n <= |vvNew|
        invariant forall m :: 0 <= m < n ==> nId !in vvNew[Rotated(m, nRnd, |vvNew|)]
      {
        var nB := (n + nRnd) % |vvNew|;
        if nId in vvNew[nB] {
          return nB;
        }
        assert nB == Rotated(n, nRnd, |vvNew|);
        n := n + 1;
      }
      RotationCovers(vvNew, nRnd, nId);
      return -1;
    }

    method Attempt_(addr: Service, nTime: int)
      requires Valid() && nTime >= 0
      modifies this`mapInfo
      ensures Valid()
      ensures Known() == if addr.net in old(Known()) && old(Known())[addr.net].addr.service == addr
        then old(Known())[addr.net := Attempted(old(Known())[addr.net], nTime)] else old(Known())
    {
      hide Consistent, View;
      var found, nId := Find(addr.net);
      if !found || mapInfo[nId].addr.service != addr { return; }
      var info := mapInfo[nId];
      var stats := info.(addr := info.addr.(nLastTry := nTime), nAttempts := info.nAttempts + 1);
      TouchConsistent(hs, State(), nId, stats);
      mapInfo := mapInfo[nId := stats];
    }

    method Connected_(addr: Service, nTime: int)
      requires Valid()
      modifies this`mapInfo
      ensures Valid()
      ensures Known() ==
        if addr.net in old(Known()) && old(Known())[addr.net].addr.service == addr
           && nTime - old(Known())[addr.net].addr.nTime > 20 * 60
        then old(Known())[addr.net := SeenAt(old(Known())[addr.net], nTime)] else old(Known())
    {
      hide Consistent, View;
      var found, nId := Find(addr.net);
      if !found || mapInfo[nId].addr.service != addr { return; }
      var info := mapInfo[nId];
      if nTime - info.addr.nTime > 20 * 60 {
        var stats := info.(addr := info.addr.(nTime := ToUint32(nTime)));
        TouchConsistent(hs, State(), nId, stats);
        mapInfo := mapInfo[nId := stats];
      }
    }

    /** An entry of this address stands in a new bucket. */
    ghost predicate StandsIn(net: NetAddr, b: nat)
      reads this
    {
      b < |vvNew| && exists id :: id in vvNew[b] && id in mapInfo && mapInfo[id].addr.service.net == net
    }

    /** Adds an address, or refreshes what is known about it.  At most one other address is forgotten, never a tried
        one.  A new one stands in the bucket that its source gives it.  A known one may come to stand there too, but only
        when it is not tried and the news is newer than what is known then. */
    method Add_(addr: Address, source: NetAddr, nTimePenalty: int, nNow: int) returns (fNew: bool)
      requires Valid()
      modifies this
      ensures Valid()
      ensures fNew <==> routable(addr.service.net) && addr.service.net !in old(Known())
      ensures !routable(addr.service.net) ==> State() == old(State())
      ensures routable(addr.service.net) ==>
        addr.service.net in Known() &&
        Known()[addr.service.net] == AddedEntry(old(Known()), addr, source, nTimePenalty, nNow)
      ensures ForgetsAtMostOne(old(Known()), Known(), addr.service.net)
      ensures fNew ==> StandsIn(addr.service.net, hs.NewBucket(addr.service, source))
      ensures (addr.service.net in old(Known()) ==>
        vvNew == old(vvNew) || StandsIn(addr.service.net, hs.NewBucket(old(Known())[addr.service.net].addr.service, source)))
      ensures (routable(addr.service.net) && addr.service.net in old(Known()) ==>
        var refreshed := AddedEntry(old(Known()), addr, source, nTimePenalty, nNow);
        refreshed.tried || addr.nTime == 0 || (refreshed.addr.nTime != 0 && addr.nTime <= refreshed.addr.nTime) ==>
          Known() == old(Known())[addr.service.net := refreshed] && vvNew == old(vvNew))
    {
      hide Consistent, View;
      if !routable(addr.service.net) { return false; }
      var net := addr.service.net;
      var found, nId := Find(net);
      fNew := !found;
      if found {
        var goOn := Refresh(nId, addr, nTimePenalty, nNow);
        if goOn {
          AddReference(nId, source, nNow);
        }
      } else {
        AddUnknown(addr, source, nTimePenalty, nNow);
      }
    }

    /** Enters a known entry into the bucket that this source gives it, unless it is there already. */
    method AddReference(nId: int, source: NetAddr, nNow: int)
      requires Valid() && nId in mapInfo && !mapInfo[nId].fInTried && mapInfo[nId].nRefCount != NEW_BUCKETS_PER_ADDRESS
      modifies this
      ensures Valid()
      ensures var net := old(mapInfo[nId].addr.service.net);
        ForgetsAtMostOne(old(Known()), Known(), net) && net in old(Known()) && net in Known() && Known()[net] == old(Known())[net]
      ensures StandsIn(old(mapInfo[nId].addr.service.net), hs.NewBucket(old(mapInfo[nId].addr.service), source))
    {
      hide Consistent, Pending, View;
      var nUBucket := hs.NewBucket(mapInfo[nId].addr.service, source);
      HasBuckets(hs, State());
      KnownId(hs, State(), nId);
      if nId !in vvNew[nUBucket] {
        RaiseFromBucket(hs, State(), nId);
        mapInfo := mapInfo[nId := mapInfo[nId].(nRefCount := mapInfo[nId].nRefCount + 1)];
        EnterBucket(nId, nUBucket, nNow);
      }
    }

    /** Creates an entry and enters it into its first bucket. */
    method AddUnknown(addr: Address, source: NetAddr, nTimePenalty: int, nNow: int)
      requires Valid() && addr.service.net !in mapAddr
      modifies this
      ensures Valid()
      ensures addr.service.net in Known()
      ensures Known()[addr.service.net] == Entry(Fresh(addr, nTimePenalty), source, 0, 0, false)
      ensures StandsIn(addr.service.net, hs.NewBucket(addr.service, source))
      ensures ForgetsAtMostOne(old(Known()), Known(), addr.service.net)
    {
      hide Consistent, Pending, View, ForgetsAtMostOne, NewTable, TriedTable, Indexed, Shuffled, Counted;
      ghost var t := State();
      var nId := Create(addr, source);
      mapInfo := mapInfo[nId := mapInfo[nId].(addr := mapInfo[nId].addr.(nTime := ToUint32(Max(0, addr.nTime - nTimePenalty))))];
      nNew := nNew + 1;
      var nUBucket := hs.NewBucket(addr.service, source);
      CreateOutside(hs, t, Fresh(addr, nTimePenalty), source, nUBucket);
      mapInfo := mapInfo[nId := mapInfo[nId].(nRefCount := mapInfo[nId].nRefCount + 1)];
      assert State() == Created(t, Fresh(addr, nTimePenalty), source);
      ghost var known := Known();
      EnterBucket(nId, nUBucket, nNow);
      ForgetsBeside(View(t), known, Known(), addr.service.net);
    }

    /** Refreshes a known entry, and decides whether it should enter one more bucket. */
    method Refresh(nId: int, addr: Address, nTimePenalty: int, nNow: int) returns (goOn: bool)
      requires Valid() && nId in mapInfo && mapInfo[nId].addr.service.net == addr.service.net
      modifies this`mapInfo
      ensures Valid() && nId in mapInfo && mapInfo[nId].addr.service.net == addr.service.net
      ensures addr.service.net in old(Known())
      ensures Known() == old(Known())[addr.service.net := AddedEntry(old(Known()), addr, addr.service.net, nTimePenalty, nNow)]
      ensures goOn ==> !mapInfo[nId].fInTried && mapInfo[nId].nRefCount != NEW_BUCKETS_PER_ADDRESS
      ensures Known()[addr.service.net] == EntryOf(mapInfo[nId]) && mapInfo[nId].addr.service == old(mapInfo[nId].addr.service)
      ensures old(Known())[addr.service.net].addr.service == old(mapInfo[nId].addr.service)
      ensures goOn ==> IsNews(addr, mapInfo[nId].addr)
    {
      hide Consistent, View;
      KnownId(hs, State(), nId);
      var info := mapInfo[nId];
      var refreshed := info.(addr := Refreshed(info.addr, addr, nTimePenalty, nNow));
      TouchConsistent(hs, State(), nId, refreshed);
      mapInfo := mapInfo[nId := refreshed];
      if addr.nTime == 0 || (refreshed.addr.nTime != 0 && addr.nTime <= refreshed.addr.nTime) { return false; }
      if refreshed.fInTried { return false; }
      if refreshed.nRefCount == NEW_BUCKETS_PER_ADDRESS { return false; }
      var nFactor := DoubledFor(refreshed.nRefCount);
      if nFactor > 1 {
        var r := GetRandInt(nFactor);
        if r != 0 { return false; }
      }
      return true;
    }

    /** The loop that computes the odds against another reference. */
    method DoubledFor(nRefCount: int) returns (nFactor: int)
      ensures nFactor == if nRefCount <= 0 then 1 else Shl(1, nRefCount)
    {
      nFactor := 1;
      var n := 0;
      while n < nRefCount
        invariant 0 <= n && (n <= nRefCount || n == 0) && nFactor == Shl(1, n)
      {
        nFactor := nFactor * 2;
        n := n + 1;
      }
    }

    /** Enters an entry, whose count is already raised, into a bucket, making room there if needed. */
    method EnterBucket(nId: int, nUBucket: nat, nNow: int)
      requires Pending(hs, State(), {nId}) && nIdCount >= 0 && nUBucket < NEW_BUCKET_COUNT
      requires nId in mapInfo && !mapInfo[nId].fInTried && nId !in vvNew[nUBucket]
      modifies this`mapInfo, this`mapAddr, this`vRandom, this`nNew, this`vvNew
      ensures Valid()
      ensures nId in mapInfo && ForgetsAtMostOne(old(Known()), Known(), mapInfo[nId].addr.service.net)
      ensures mapInfo[nId].addr.service.net == old(mapInfo[nId].addr.service.net)
      ensures mapInfo[nId].addr.service.net in old(Known()) && mapInfo[nId].addr.service.net in Known()
      ensures Known()[mapInfo[nId].addr.service.net] == old(Known())[mapInfo[nId].addr.service.net]
      ensures |vvNew| == NEW_BUCKET_COUNT && nId in vvNew[nUBucket]
    {
      hide TriedTable, TriedIds, NewIds, BucketCount, Counted, Shuffled, StatsOk, View, Evicted, Indexed;
      ghost var t := State();
      IndexedKnown(hs, t, nId);
      if |vvNew[nUBucket]| == NEW_BUCKET_SIZE {
        var _, places := ShrinkNew(nUBucket, nNow, {nId});
        RoomMade(hs, t, State(), nUBucket, nId);
      }
      PlaceKeeps(hs, State(), nUBucket, nId);
      assert Placed(State(), nUBucket, nId) == State().(vvNew := vvNew[nUBucket := vvNew[nUBucket] + {nId}]);
      vvNew := vvNew[nUBucket := vvNew[nUBucket] + {nId}];
      IndexedKnown(hs, State(), nId);
    }

    /** A random choice of known addresses: 23 percent of them, and never more than 2500. */
    method GetAddr_() returns (vAddr: seq<Address>)
      requires Valid()
      modifies this`mapInfo, this`vRandom
      ensures Valid() && Known() == old(Known())
      ensures var share := 23 * |Known()| / 100; |vAddr| == if share > 2500 then 2500 else share
      ensures forall i :: 0 <= i < |vAddr| ==> vAddr[i].service.net in Known() && Known()[vAddr[i].service.net].addr == vAddr[i]
      ensures forall i, j :: 0 <= i < j < |vAddr| ==> vAddr[i].service.net != vAddr[j].service.net
    {
      hide Consistent, View, SampledSoFar, Swapped, Shuffled;
      SizeBound(hs, State());
      SampleStart(State());
      var nNodes := GETADDR_MAX_PCT * |vRandom| / 100;
      if nNodes > GETADDR_MAX {
        nNodes := GETADDR_MAX;
      }
      vAddr := [];
      var n := 0;
      ghost var size := |vRandom|;
      while n < nNodes
        invariant 0 <= n <= nNodes <= size == |vRandom|
        invariant Valid() && Known() == old(Known())
        invariant SampledSoFar(State(), vAddr, n)
      {
        var r := GetRandInt(|vRandom| - n);
        var nRndPos := r + n;
        SwapConsistent(hs, State(), n, nRndPos, vAddr);
        SwapRandom(n, nRndPos);
        vAddr := vAddr + [mapInfo[vRandom[n]].addr];
        n := n + 1;
      }
      SampleSize(State(), vAddr, n);
      SampleIsDistinct(hs, State(), vAddr);
    }

    /** The consistency check that debug builds run before and after every operation: it never complains. */
    method Check_() returns (err: int)
      requires Valid()
      ensures err == 0
    {
      CheckFacts(hs, State());
      hide Consistent, BucketCount, TriedIds, NewIds, Remaining;
      if |vRandom| != nTried + nNew { return -7; }
      var setTried, mapNew;
      err, setTried, mapNew := CheckEntries();
      if err != 0 { return; }
      if |setTried| != nTried { return -9; }
      assert |mapNew| == |mapNew.Keys|;
      if |mapNew| != nNew { return -10; }
      err := CheckTried(setTried);
      if err != 0 { return; }
      CountsStart(hs, State(), mapNew);
      err := CheckNew(mapNew);
    }

    /** The part of Check_ that goes through the entries and lists the tried ids and the reference counts. */
    method CheckEntries() returns (err: int, setTried: set<int>, mapNew: map<int, int>)
      requires forall id :: id in mapInfo ==> EntryChecks(State(), id)
      ensures err == 0 && setTried == TriedIds(mapInfo)
      ensures mapNew.Keys == NewIds(mapInfo) && forall id :: id in mapNew ==> mapNew[id] == mapInfo[id].nRefCount
    {
      setTried, mapNew := {}, map[];
      var rest := mapInfo.Keys;
      while rest != {}
        invariant rest <= mapInfo.Keys
        invariant setTried == TriedIds(mapInfo) - rest
        invariant mapNew.Keys == NewIds(mapInfo) - rest && forall id :: id in mapNew ==> mapNew[id] == mapInfo[id].nRefCount
        decreases rest
      {
        var n := Least(rest);
        var info := mapInfo[n];
        assert EntryChecks(State(), n);
        if info.fInTried {
          if info.nLastSuccess == 0 { return -1, setTried, mapNew; }
          if info.nRefCount != 0 { return -2, setTried, mapNew; }
          setTried := setTried + {n};
        } else {
          if info.nRefCount < 0 || info.nRefCount > NEW_BUCKETS_PER_ADDRESS { return -3, setTried, mapNew; }
          if info.nRefCount == 0 { return -4, setTried, mapNew; }
          mapNew := mapNew[n := info.nRefCount];
        }
        err := CheckEntry(n, info);
        if err != 0 { return; }
        rest := rest - {n};
      }
      err := 0;
    }

    /** The checks of one entry against the other indexes. */
    method CheckEntry(n: int, info: AddrInfo) returns (err: int)
      requires EntryChecks(State(), n) && info == mapInfo[n]
      ensures err == 0
    {
      var net := info.addr.service.net;
      if (if net in mapAddr then mapAddr[net] else 0) != n { return -5; }
      if info.nRandomPos < 0 || info.nRandomPos >= |vRandom| || vRandom[info.nRandomPos] != n { return -14; }
      if info.addr.nLastTry < 0 { return -6; }
      if info.nLastSuccess < 0 { return -8; }
      return 0;
    }

    /** The part of Check_ that strikes every tried id off a list. */
    method CheckTried(tried: set<int>) returns (err: int)
      requires Valid() && tried == TriedIds(mapInfo)
      ensures err == 0
    {
      TriedFacts(hs, State());
      hide Consistent, TriedTable, TriedIds;
      var setTried := tried;
      var n := 0;
      while n < |vvTried|
        invariant 0 <= n <= |vvTried| && LeftFrom(tried, setTried, n)
      {
        var ok;
        ok, setTried := StrikeBucket(n, tried, setTried);
        if !ok { return -11; }
        n := n + 1;
      }
      forall id ensures id !in setTried {
        assert id in tried ==> hs.TriedBucket(mapInfo[id].addr.service) < TRIED_BUCKET_COUNT;
      }
      if |setTried| != 0 { return -13; }
      return 0;
    }

    /** `left` are the tried ids of bucket `n` and the later ones. */
    ghost predicate LeftFrom(tried: set<int>, left: set<int>, n: nat)
      requires tried == TriedIds(mapInfo)
      reads this
    {
      forall id :: id in left <==> id in tried && hs.TriedBucket(mapInfo[id].addr.service) >= n
    }

    method StrikeBucket(n: nat, ghost tried: set<int>, left: set<int>) returns (ok: bool, rest: set<int>)
      requires Valid() && tried == TriedIds(mapInfo) && n < |vvTried| && LeftFrom(tried, left, n)
      ensures ok && LeftFrom(tried, rest, n + 1)
    {
      TriedFacts(hs, State());
      hide Consistent, TriedTable, TriedIds, NoDuplicates;
      rest := left;
      var vTried := vvTried[n];
      var i := 0;
      while i < |vTried|
        invariant 0 <= i <= |vTried|
        invariant forall id :: id in rest <==> id in left && id !in vTried[..i]
      {
        TriedAt(hs, State(), n, i);
        assert vTried[i] in rest;
        assert vTried[..i + 1] == vTried[..i] + [vTried[i]];
        if vTried[i] !in rest { return false, rest; }
        rest := rest - {vTried[i]};
        i := i + 1;
      }
      assert vTried[..|vTried|] == vTried;
      return true, rest;
    }

    /** The part of Check_ that strikes off one reference for every bucket an id is in. */
    method CheckNew(counts: map<int, int>) returns (err: int)
      requires Remaining(counts, vvNew, {})
      ensures err == 0
    {
      hide BucketCount;
      var mapNew := counts;
      var n := 0;
      while n < |vvNew|
        invariant 0 <= n <= |vvNew| && Remaining(mapNew, vvNew[n..], {})
      {
        var rest := vvNew[n];
        FirstBucket(mapNew, vvNew, n);
        while rest != {}
          invariant Remaining(mapNew, vvNew[n + 1..], rest)
          decreases rest
        {
          var it := Least(rest);
          StrikeOff(mapNew, vvNew[n + 1..], rest, it);
          if it !in mapNew { return -12; }
          mapNew := mapNew[it := mapNew[it] - 1];
          if mapNew[it] == 0 {
            mapNew := mapNew - {it};
          }
          rest := rest - {it};
        }
        n := n + 1;
      }
      NoneRemain(mapNew, vvNew[n..]);
      if |mapNew| != 0 { return -15; }
      return 0;
    }

    /** Runs any sequence of operations.  The invariant and the size bound hold throughout, and the consistency
        check never fails. */
    method Run(ops: seq<Operation>)
      requires Valid() && forall i :: 0 <= i < |ops| ==> ops[i].Timed()
      modifies this
      ensures Valid()
      ensures |Known()| <= TRIED_BUCKET_COUNT * TRIED_BUCKET_SIZE + NEW_BUCKET_COUNT * NEW_BUCKET_SIZE
      ensures forall a :: a in Known() && a !in old(Known()) ==> routable(a)
    {
      hide Consistent, View;
      for i := 0 to |ops|
        invariant Valid()
        invariant forall a :: a in Known() && a !in old(Known()) ==> routable(a)
      {
        var err := Check_();
        assert err == 0;
        match ops[i] {
          case Add(addr, source, nTimePenalty, nNow) => var _ := Add_(addr, source, nTimePenalty, nNow);
          case Good(addr, nTime) => Good_(addr, nTime);
          case Attempt(addr, nTime) => Attempt_(addr, nTime);
          case Connected(addr, nTime) => Connected_(addr, nTime);
          case GetAddr => var _ := GetAddr_();
        }
      }
      SizeBound(hs, State());
    }
  }

  datatype Operation =
    | Add(addr: Address, source: NetAddr, nTimePenalty: int, nNow: int)
    | Good(service: Service, nTime: int)
    | Attempt(service: Service, nTime: int)
    | Connected(service: Service, nTime: int)
    | GetAddr
  {
    /** Times come from the clock, so they are positive. */
    predicate Timed() {
      (Good? ==> nTime > 0) && (Attempt? ==> nTime >= 0)
    }
  }

  /** What a success, an attempt and a connection make of an entry, field by field. */
  lemma EntriesAfter(e: Entry, nTime: int)
    requires IsTime(nTime)
    ensures var s := Succeeded(e, nTime);
      && s.nLastSuccess == nTime && s.nAttempts == 0 && s.addr.nLastTry == nTime && s.addr.nTime == nTime
      && s.addr.service == e.addr.service && s.addr.nServices == e.addr.nServices && s.source == e.source && s.tried == e.tried
    ensures var a := Attempted(e, nTime);
      && a.nAttempts - e.nAttempts == 1 && a.addr.nLastTry == nTime
      && a == e.(addr := e.addr.(nLastTry := a.addr.nLastTry), nAttempts := a.nAttempts)
    ensures SeenAt(e, nTime).addr.nTime == nTime
         && SeenAt(e, nTime) == e.(addr := e.addr.(nTime := SeenAt(e, nTime).addr.nTime))
  {
  }


  function Succeeded(e: Entry, nTime: int): Entry {
    e.(addr := e.addr.(nLastTry := nTime, nTime := ToUint32(nTime)), nLastSuccess := nTime, nAttempts := 0)
  }

  function Attempted(e: Entry, nTime: int): Entry {
    e.(addr := e.addr.(nLastTry := nTime), nAttempts := e.nAttempts + 1)
  }

  function SeenAt(e: Entry, nTime: int): Entry {
    e.(addr := e.addr.(nTime := ToUint32(nTime)))
  }

  function AddedEntry(m: map<NetAddr, Entry>, addr: Address, source: NetAddr, nTimePenalty: int, nNow: int): Entry {
    if addr.service.net in m then
      m[addr.service.net].(addr := Refreshed(m[addr.service.net].addr, addr, nTimePenalty, nNow))
    else Entry(Fresh(addr, nTimePenalty), source, 0, 0, false)
  }

  /** Apart from `net`, entries stay as they are, except that one untried entry may be gone. */
  ghost predicate ForgetsAtMostOne(before: map<NetAddr, Entry>, after: map<NetAddr, Entry>, net: NetAddr) {
    && after.Keys <= before.Keys + {net}
    && (forall a :: a in after && a != net ==> a in before && after[a] == before[a])
    && (forall a :: a in before && a !in after ==> !before[a].tried)
    && (forall a, b :: a in before && b in before && a !in after && b !in after ==> a == b)
  }

  /** The tables while an entry is between the new and the tried table. */
  function Departed(t: Tables, id: int): Tables
    requires id in t.mapInfo
  {
    t.(mapInfo := t.mapInfo[id := t.mapInfo[id].(nRefCount := 0)], vvNew := Stripped(t.vvNew, id), nNew := t.nNew - 1)
  }

  /** `net` became tried, and at most one other address went back from tried to new. */
  ghost predicate MovedToTried(before: map<NetAddr, Entry>, after: map<NetAddr, Entry>, net: NetAddr) {
    && net in before && after.Keys == before.Keys
    && after[net] == before[net].(tried := true)
    && (forall a :: a in before && a != net ==>
          after[a] == before[a] || (before[a].tried && after[a] == before[a].(tried := false)))
    && (forall a, b :: a in before && b in before && a != net && b != net && after[a] != before[a] && after[b] != before[b] ==> a == b)
  }

  ghost predicate OnlyChanges(before: map<NetAddr, Entry>, after: map<NetAddr, Entry>, net: NetAddr) {
    forall a :: a in before && a in after && a != net ==> after[a] == before[a]
  }
}
