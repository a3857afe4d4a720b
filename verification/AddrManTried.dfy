/**
 Moves between the new and the tried tables of the address manager, and the bound on its
 size: src/addrman.cpp, MakeTried and SelectTried.
 */
module AddrManTried {
  import opened AddrManState

  function PromotedInfo(info: AddrInfo): AddrInfo {
    info.(nRefCount := 0, fInTried := true)
  }

  function DemotedInfo(info: AddrInfo): AddrInfo {
    info.(nRefCount := 1, fInTried := false)
  }

  /** The entry leaves all new buckets and is appended to its tried bucket. */
  function Promoted(hs: Hashes, t: Tables, id: int): Tables
    requires id in t.mapInfo && |t.vvTried| == TRIED_BUCKET_COUNT
  {
    var k := hs.TriedBucket(t.mapInfo[id].addr.service);
    t.(mapInfo := t.mapInfo[id := PromotedInfo(t.mapInfo[id])],
       vvNew := Stripped(t.vvNew, id),
       nNew := t.nNew - 1, nTried := t.nTried + 1,
       vvTried := t.vvTried[k := t.vvTried[k] + [id]])
  }

  /** The entry takes the place of `out` in its tried bucket, and `out` goes back to new bucket `b`. */
  function Exchanged(hs: Hashes, t: Tables, id: int, pos: nat, b: nat): Tables
    requires id in t.mapInfo && |t.vvTried| == TRIED_BUCKET_COUNT && b < |t.vvNew|
    requires var k := hs.TriedBucket(t.mapInfo[id].addr.service);
      pos < |t.vvTried[k]| && t.vvTried[k][pos] in t.mapInfo
  {
    var k := hs.TriedBucket(t.mapInfo[id].addr.service);
    var out := t.vvTried[k][pos];
    var stripped := Stripped(t.vvNew, id);
    t.(mapInfo := t.mapInfo[id := PromotedInfo(t.mapInfo[id])][out := DemotedInfo(t.mapInfo[out])],
       vvNew := stripped[b := stripped[b] + {out}],
       vvTried := t.vvTried[k := t.vvTried[k][pos := id]])
  }

  ghost predicate Reordered(p: seq<int>, q: seq<int>) {
    |p| == |q| && multiset(p) == multiset(q)
  }

  lemma ReorderedMembers(p: seq<int>, q: seq<int>)
    requires Reordered(p, q) && NoDuplicates(q)
    ensures NoDuplicates(p) && forall x :: x in p <==> x in q
  {
    forall x ensures x in p <==> x in q { assert x in multiset(p) <==> x in multiset(q); }
    forall i, j | 0 <= i < j < |p| ensures p[i] != p[j] {
      if p[i] == p[j] {
        TwiceIn(p, i, j);
        assert multiset(q)[p[i]] >= 2;
        OnceIn(q, p[i]);
      }
    }
  }

  lemma TwiceIn(p: seq<int>, i: nat, j: nat)
    requires i < j < |p| && p[i] == p[j]
    ensures multiset(p)[p[i]] >= 2
  {
    assert p == p[..j] + [p[j]] + p[j + 1..];
    assert p[i] in p[..j];
    assert multiset(p) == multiset(p[..j]) + multiset([p[j]]) + multiset(p[j + 1..]);
  }

  lemma {:induction false} OnceIn(q: seq<int>, x: int)
    requires NoDuplicates(q)
    ensures multiset(q)[x] <= 1
  {
    if q != [] {
      OnceIn(q[1..], x);
      assert q == [q[0]] + q[1..];
      if q[0] == x { assert x !in q[1..]; }
    }
  }

  /** Reordering a tried bucket keeps the tried table. */
  lemma ReorderKeeps(hs: Hashes, m: map<int, AddrInfo>, tried: seq<seq<int>>, k: nat, p: seq<int>)
    requires TriedTable(hs, m, tried) && k < |tried| && Reordered(p, tried[k])
    ensures TriedTable(hs, m, tried[k := p])
  {
    ReorderedMembers(p, tried[k]);
    assert forall b, id :: 0 <= b < |tried| ==> (id in tried[k := p][b] <==> id in tried[b]);
  }

  lemma PromoteKeeps(hs: Hashes, t: Tables, id: int)
    requires Consistent(hs, t) && id in t.mapInfo && !t.mapInfo[id].fInTried && t.mapInfo[id].nLastSuccess > 0
    requires |t.vvTried[hs.TriedBucket(t.mapInfo[id].addr.service)]| < TRIED_BUCKET_SIZE
    ensures Consistent(hs, Promoted(hs, t, id))
    ensures View(Promoted(hs, t, id)) == View(t)[t.mapInfo[id].addr.service.net := EntryOf(PromotedInfo(t.mapInfo[id]))]
  {
    PromotedNew(t.mapInfo, t.vvNew, id);
    PromotedTried(hs, t.mapInfo, t.vvTried, id);
    PromotedRest(hs, t, id);
    hide TriedTable, NewTable, TriedIds, NewIds, Indexed, Shuffled, View;
    PromotedCounts(t.mapInfo, id);
  }

  lemma PromotedNew(m: map<int, AddrInfo>, buckets: seq<set<int>>, id: int)
    requires NewTable(m, buckets, {}) && id in m && !m[id].fInTried
    ensures NewTable(m[id := PromotedInfo(m[id])], Stripped(buckets, id), {})
  {
    hide BucketCount, Stripped;
    var m', stripped := m[id := PromotedInfo(m[id])], Stripped(buckets, id);
    forall i | i in m'
      ensures RefCountOk(m'[i], BucketCount(stripped, i) + if i in {} then 1 else 0)
    {
      assert RefCountOk(m[i], BucketCount(buckets, i) + if i in {} then 1 else 0);
      CountStripped(buckets, id, i);
    }
    forall b | 0 <= b < |stripped| ensures |stripped[b]| <= NEW_BUCKET_SIZE {
      SmallerSet(stripped[b], buckets[b]);
    }
  }

  lemma SmallerSet(a: set<int>, b: set<int>)
    requires a <= b
    ensures |a| <= |b|
  {
    assert b == a + (b - a);
  }

  lemma PromotedTried(hs: Hashes, m: map<int, AddrInfo>, tried: seq<seq<int>>, id: int)
    requires TriedTable(hs, m, tried) && id in m && !m[id].fInTried
    requires |tried[hs.TriedBucket(m[id].addr.service)]| < TRIED_BUCKET_SIZE
    ensures var k := hs.TriedBucket(m[id].addr.service);
      TriedTable(hs, m[id := PromotedInfo(m[id])], tried[k := tried[k] + [id]])
  {
  }

  lemma PromotedRest(hs: Hashes, t: Tables, id: int)
    requires Indexed(t.mapInfo, t.mapAddr, t.nIdCount) && Shuffled(t.mapInfo, t.vRandom) && StatsOk(t.mapInfo)
    requires id in t.mapInfo && t.mapInfo[id].nLastSuccess > 0 && |t.vvTried| == TRIED_BUCKET_COUNT
    ensures var s := Promoted(hs, t, id);
      && Indexed(s.mapInfo, s.mapAddr, s.nIdCount) && Shuffled(s.mapInfo, s.vRandom) && StatsOk(s.mapInfo)
      && View(s) == View(t)[t.mapInfo[id].addr.service.net := EntryOf(PromotedInfo(t.mapInfo[id]))]
  {
    hide View, Indexed, Shuffled, Stripped;
    var m := Promoted(hs, t, id).mapInfo;
    OnlyTablesChange(t, m);
    ViewUpdate(t, id, PromotedInfo(t.mapInfo[id]));
    ViewOnly(t.(mapInfo := m), Promoted(hs, t, id));
  }

  /** Moving entries between the tables leaves the other indexes alone. */
  lemma OnlyTablesChange(t: Tables, m: map<int, AddrInfo>)
    requires Indexed(t.mapInfo, t.mapAddr, t.nIdCount) && Shuffled(t.mapInfo, t.vRandom)
    requires m.Keys == t.mapInfo.Keys
    requires forall id :: id in m ==>
      m[id] == t.mapInfo[id].(nRefCount := m[id].nRefCount, fInTried := m[id].fInTried)
    ensures Indexed(m, t.mapAddr, t.nIdCount) && Shuffled(m, t.vRandom)
  {
  }

  lemma ViewUpdate(t: Tables, id: int, info: AddrInfo)
    requires Indexed(t.mapInfo, t.mapAddr, t.nIdCount) && id in t.mapInfo && info.addr.service.net == t.mapInfo[id].addr.service.net
    ensures View(t.(mapInfo := t.mapInfo[id := info])) == View(t)[info.addr.service.net := EntryOf(info)]
  {
  }

  lemma PromotedCounts(m: map<int, AddrInfo>, id: int)
    requires id in m && !m[id].fInTried
    ensures var m' := m[id := PromotedInfo(m[id])];
      |TriedIds(m')| == |TriedIds(m)| + 1 && |NewIds(m')| == |NewIds(m)| - 1
  {
    var m' := m[id := PromotedInfo(m[id])];
    assert TriedIds(m') == TriedIds(m) + {id};
    assert NewIds(m') == NewIds(m) - {id};
  }

  lemma ExchangeKeeps(hs: Hashes, t: Tables, id: int, pos: nat, b: nat)
    requires Consistent(hs, t) && id in t.mapInfo && !t.mapInfo[id].fInTried && t.mapInfo[id].nLastSuccess > 0
    requires pos < |t.vvTried[hs.TriedBucket(t.mapInfo[id].addr.service)]|
    requires b < NEW_BUCKET_COUNT && |Stripped(t.vvNew, id)[b]| < NEW_BUCKET_SIZE
    ensures var out := t.vvTried[hs.TriedBucket(t.mapInfo[id].addr.service)][pos];
      && out in t.mapInfo && out != id && t.mapInfo[out].fInTried
      && Consistent(hs, Exchanged(hs, t, id, pos, b))
      && View(Exchanged(hs, t, id, pos, b)) ==
           View(t)[t.mapInfo[id].addr.service.net := EntryOf(PromotedInfo(t.mapInfo[id]))]
                  [t.mapInfo[out].addr.service.net := EntryOf(DemotedInfo(t.mapInfo[out]))]
  {
    hide Stripped, TriedIds, NewIds, Indexed, Shuffled, View, BucketCount, StatsOk;
    var k := hs.TriedBucket(t.mapInfo[id].addr.service);
    var out := t.vvTried[k][pos];
    assert out in t.mapInfo && t.mapInfo[out].fInTried;
    ExchangedNew(t.mapInfo, t.vvNew, id, out, b);
    ExchangedTried(hs, t.mapInfo, t.vvTried, id, pos);
    hide TriedTable, NewTable;
    ExchangedRest(hs, t, id, pos, b);
    ExchangedCounts(t.mapInfo, id, out);
  }

  lemma ExchangedNew(m: map<int, AddrInfo>, buckets: seq<set<int>>, id: int, out: int, b: nat)
    requires NewTable(m, buckets, {}) && id in m && !m[id].fInTried && out in m && m[out].fInTried
    requires b < NEW_BUCKET_COUNT && |Stripped(buckets, id)[b]| < NEW_BUCKET_SIZE
    ensures var stripped := Stripped(buckets, id);
      NewTable(m[id := PromotedInfo(m[id])][out := DemotedInfo(m[out])], stripped[b := stripped[b] + {out}], {})
  {
    hide BucketCount, Stripped;
    var m' := m[id := PromotedInfo(m[id])][out := DemotedInfo(m[out])];
    var stripped := Stripped(buckets, id);
    var buckets' := stripped[b := stripped[b] + {out}];
    PromotedNew(m, buckets, id);
    CountZero(buckets, out);
    forall i | i in m'
      ensures RefCountOk(m'[i], BucketCount(buckets', i) + if i in {} then 1 else 0)
    {
      assert RefCountOk(m[i], BucketCount(buckets, i) + if i in {} then 1 else 0);
      CountStripped(buckets, id, i);
      CountUpdate(stripped, b, stripped[b] + {out}, i);
    }
  }

  lemma ExchangedTried(hs: Hashes, m: map<int, AddrInfo>, tried: seq<seq<int>>, id: int, pos: nat)
    requires TriedTable(hs, m, tried) && id in m && !m[id].fInTried
    requires pos < |tried[hs.TriedBucket(m[id].addr.service)]|
    requires tried[hs.TriedBucket(m[id].addr.service)][pos] in m
    ensures var k := hs.TriedBucket(m[id].addr.service);
      var out := tried[k][pos];
      TriedTable(hs, m[id := PromotedInfo(m[id])][out := DemotedInfo(m[out])], tried[k := tried[k][pos := id]])
  {
    var k := hs.TriedBucket(m[id].addr.service);
    var out := tried[k][pos];
    var m' := m[id := PromotedInfo(m[id])][out := DemotedInfo(m[out])];
    var tried' := tried[k := tried[k][pos := id]];
    assert hs.TriedBucket(m[out].addr.service) == k;
    forall c, i | 0 <= c < |tried'| && i in tried'[c]
      ensures i in m' && m'[i].fInTried && hs.TriedBucket(m'[i].addr.service) == c
    {
      if i != id { assert i in tried[c] && i != out; }
    }
    forall i | i in m' && m'[i].fInTried
      ensures i in tried'[hs.TriedBucket(m'[i].addr.service)]
    {
      if i == id {
        assert tried'[k][pos] == id;
      } else {
        var c := hs.TriedBucket(m[i].addr.service);
        assert i in tried[c];
        if c == k {
          var q :| 0 <= q < |tried[k]| && tried[k][q] == i;
          assert tried'[k][q] == i;
        }
      }
    }
  }

  lemma ExchangedRest(hs: Hashes, t: Tables, id: int, pos: nat, b: nat)
    requires Indexed(t.mapInfo, t.mapAddr, t.nIdCount) && Shuffled(t.mapInfo, t.vRandom) && StatsOk(t.mapInfo)
    requires id in t.mapInfo && t.mapInfo[id].nLastSuccess > 0 && |t.vvTried| == TRIED_BUCKET_COUNT && b < |t.vvNew|
    requires var k := hs.TriedBucket(t.mapInfo[id].addr.service);
      pos < |t.vvTried[k]| && t.vvTried[k][pos] in t.mapInfo && t.vvTried[k][pos] != id
    ensures var s := Exchanged(hs, t, id, pos, b);
      var out := t.vvTried[hs.TriedBucket(t.mapInfo[id].addr.service)][pos];
      && Indexed(s.mapInfo, s.mapAddr, s.nIdCount) && Shuffled(s.mapInfo, s.vRandom) && StatsOk(s.mapInfo)
      && View(s) == View(t)[t.mapInfo[id].addr.service.net := EntryOf(PromotedInfo(t.mapInfo[id]))]
                           [t.mapInfo[out].addr.service.net := EntryOf(DemotedInfo(t.mapInfo[out]))]
  {
    hide View, Indexed, Shuffled, Stripped;
    var out := t.vvTried[hs.TriedBucket(t.mapInfo[id].addr.service)][pos];
    var m1 := t.mapInfo[id := PromotedInfo(t.mapInfo[id])];
    var m2 := m1[out := DemotedInfo(t.mapInfo[out])];
    OnlyTablesChange(t, m1);
    OnlyTablesChange(t.(mapInfo := m1), m2);
    ViewUpdate(t, id, PromotedInfo(t.mapInfo[id]));
    ViewUpdate(t.(mapInfo := m1), out, DemotedInfo(t.mapInfo[out]));
    ViewOnly(t.(mapInfo := m2), Exchanged(hs, t, id, pos, b));
  }

  lemma ExchangedCounts(m: map<int, AddrInfo>, id: int, out: int)
    requires id in m && !m[id].fInTried && out in m && m[out].fInTried
    ensures var m' := m[id := PromotedInfo(m[id])][out := DemotedInfo(m[out])];
      |TriedIds(m')| == |TriedIds(m)| && |NewIds(m')| == |NewIds(m)|
  {
    var m' := m[id := PromotedInfo(m[id])][out := DemotedInfo(m[out])];
    assert TriedIds(m') == TriedIds(m) + {id} - {out};
    assert NewIds(m') == NewIds(m) + {out} - {id};
  }

  // ---- The whole manager is bounded ----

  function Union(buckets: seq<set<int>>): set<int> {
    if buckets == [] then {} else buckets[0] + Union(buckets[1..])
  }

  lemma {:induction false} UnionHas(buckets: seq<set<int>>, id: int)
    ensures id in Union(buckets) <==> BucketCount(buckets, id) > 0
  {
    if buckets != [] { UnionHas(buckets[1..], id); }
  }

  lemma {:induction false} UnionSize(buckets: seq<set<int>>, size: nat)
    requires forall b :: 0 <= b < |buckets| ==> |buckets[b]| <= size
    ensures |Union(buckets)| <= |buckets| * size
  {
    if buckets != [] {
      UnionSize(buckets[1..], size);
      var rest := Union(buckets[1..]);
      assert |buckets[0] + rest| <= |buckets[0]| + |rest| by {
        assert buckets[0] + rest == buckets[0] + (rest - buckets[0]);
        SmallerSet(rest - buckets[0], rest);
      }
      assert |buckets| * size == size + |buckets[1..]| * size by {
        assert |buckets| == 1 + |buckets[1..]|;
      }
    }
  }

  function Members(tried: seq<seq<int>>): seq<set<int>> {
    seq(|tried|, b requires 0 <= b < |tried| => set id | id in tried[b])
  }

  lemma {:induction false} MembersSize(s: seq<int>)
    ensures |set id | id in s| <= |s|
  {
    if s != [] {
      MembersSize(s[1..]);
      assert (set id | id in s) == {s[0]} + set id | id in s[1..];
    }
  }

  /** No run can make the manager hold more than 64*64 tried and 256*64 new addresses. */
  lemma SizeBound(hs: Hashes, t: Tables)
    requires Consistent(hs, t)
    ensures t.nTried <= 64 * 64
    ensures t.nNew <= 256 * 64
    ensures |View(t)| == |t.mapInfo| == |t.vRandom| == t.nTried + t.nNew
  {
    TriedBound(hs, t.mapInfo, t.vvTried);
    NewBound(t.mapInfo, t.vvNew);
    ViewSize(t);
    hide TriedTable, NewTable, View;
    assert TriedIds(t.mapInfo) + NewIds(t.mapInfo) == t.mapInfo.Keys;
  }

  lemma TriedBound(hs: Hashes, m: map<int, AddrInfo>, tried: seq<seq<int>>)
    requires TriedTable(hs, m, tried)
    ensures |TriedIds(m)| <= TRIED_BUCKET_COUNT * TRIED_BUCKET_SIZE
  {
    hide Union;
    var buckets := Members(tried);
    forall b | 0 <= b < |buckets| ensures |buckets[b]| <= TRIED_BUCKET_SIZE { MembersSize(tried[b]); }
    UnionSize(buckets, TRIED_BUCKET_SIZE);
    forall id | id in TriedIds(m) ensures id in Union(buckets) {
      CountZero(buckets, id);
      assert id in buckets[hs.TriedBucket(m[id].addr.service)];
      UnionHas(buckets, id);
    }
    SmallerSet(TriedIds(m), Union(buckets));
  }

  lemma NewBound(m: map<int, AddrInfo>, buckets: seq<set<int>>)
    requires NewTable(m, buckets, {})
    ensures |NewIds(m)| <= NEW_BUCKET_COUNT * NEW_BUCKET_SIZE
  {
    hide Union, BucketCount;
    UnionSize(buckets, NEW_BUCKET_SIZE);
    forall id | id in NewIds(m) ensures id in Union(buckets) {
      assert RefCountOk(m[id], BucketCount(buckets, id) + if id in {} then 1 else 0);
      UnionHas(buckets, id);
    }
    SmallerSet(NewIds(m), Union(buckets));
  }

  lemma ViewSize(t: Tables)
    requires Indexed(t.mapInfo, t.mapAddr, t.nIdCount)
    ensures |View(t)| == |t.mapInfo|
  {
    assert View(t).Keys == t.mapAddr.Keys;
    assert |View(t)| == |t.mapAddr|;
    assert t.mapAddr.Values == t.mapInfo.Keys by {
      forall id | id in t.mapInfo.Keys ensures id in t.mapAddr.Values {
        assert t.mapAddr[t.mapInfo[id].addr.service.net] == id;
      }
    }
    ImageSize(t.mapAddr);
  }

  lemma {:induction false} ImageSize(f: map<NetAddr, int>)
    requires forall a, b :: a in f && b in f && f[a] == f[b] ==> a == b
    ensures |f.Values| == |f|
    decreases |f|
  {
    if f.Keys != {} {
      var a :| a in f.Keys;
      var g := f - {a};
      assert f.Keys == g.Keys + {a};
      ImageSize(g);
      assert f.Values == g.Values + {f[a]} by {
        forall v | v in f.Values ensures v in g.Values + {f[a]} {
          var b :| b in f && f[b] == v;
          assert b != a ==> b in g && g[b] == v;
        }
      }
    } else {
      assert f == map[];
    }
  }
}
