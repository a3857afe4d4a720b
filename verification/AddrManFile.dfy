/**
 Saving and loading the address manager: src/addrman.h, IMPLEMENT_SERIALIZE.

 Only the entries and the contents of the new buckets are written; ids are replaced by
 positions.  Loading rebuilds every index.  The file is modelled as a stream of typed
 fields; its bytes are not part of this model.  The secret key is written too, so both
 managers place addresses with the same `Hashes`.
 */
module AddrManFile {
  import opened AddrManState
  import opened AddrManTried
  import opened AddrMan

  /** The fields of an entry that reach the disk. */
  datatype Stored = Stored(service: Service, nServices: bv64, nTime: int, source: NetAddr, nLastSuccess: int, nAttempts: int)

  datatype Dump = Dump(nNew: int, nTried: int, nUBuckets: int, newInfos: seq<Stored>, triedInfos: seq<Stored>, buckets: seq<seq<int>>)

  function StoredOf(info: AddrInfo): Stored {
    Stored(info.addr.service, info.addr.nServices, info.addr.nTime, info.source, info.nLastSuccess, info.nAttempts)
  }

  /** An entry as it comes from the disk. */
  function InfoOf(s: Stored): AddrInfo {
    AddrInfo(Address(s.service, s.nServices, s.nTime, 0), s.source, s.nLastSuccess, s.nAttempts, 0, false, -1)
  }

  ghost predicate Lists(ids: seq<int>, all: set<int>) {
    NoDuplicates(ids) && forall id :: id in ids <==> id in all
  }

  /** A bucket is written as the positions of its ids. */
  ghost predicate WrittenBucket(positions: seq<int>, ids: seq<int>, bucket: set<int>) {
    && NoDuplicates(positions)
    && (forall p :: p in positions ==> 0 <= p < |ids| && ids[p] in bucket)
    && (forall id :: id in bucket ==> exists p :: p in positions && 0 <= p < |ids| && ids[p] == id)
  }

  /** The dump `d` lists the new ids of `t` as `ns` and the tried ids as `ts`. */
  ghost predicate Describes(t: Tables, ns: seq<int>, ts: seq<int>, d: Dump) {
    && Lists(ns, NewIds(t.mapInfo)) && Lists(ts, TriedIds(t.mapInfo))
    && d.nNew == |ns| == |d.newInfos| && d.nTried == |ts| == |d.triedInfos|
    && (forall i :: 0 <= i < |ns| ==> ns[i] in t.mapInfo && d.newInfos[i] == StoredOf(t.mapInfo[ns[i]]))
    && (forall i :: 0 <= i < |ts| ==> ts[i] in t.mapInfo && d.triedInfos[i] == StoredOf(t.mapInfo[ts[i]]))
    && d.nUBuckets == |d.buckets| == |t.vvNew|
    && forall b :: 0 <= b < |d.buckets| ==> WrittenBucket(d.buckets[b], ns, t.vvNew[b])
  }

  // ---- Writing ----

  lemma {:induction false} ListSize(ids: seq<int>, all: set<int>)
    requires NoDuplicates(ids) && forall id :: id in ids ==> id in all
    ensures |ids| <= |all|
    ensures |ids| == |all| ==> Lists(ids, all)
    decreases |ids|
  {
    if ids == [] {
      assert |all| == 0 ==> all == {};
    } else {
      var first, rest := ids[0], all - {ids[0]};
      assert ids == [first] + ids[1..] && first in ids;
      assert all == rest + {first};
      ListSize(ids[1..], rest);
    }
  }

  lemma ListsAll(ids: seq<int>, all: set<int>)
    requires Lists(ids, all)
    ensures |ids| == |all|
  {
    ListSize(ids, all);
    MembersSize(ids);
    var listed := set id | id in ids;
    forall id ensures id in listed <==> id in all { }
    assert listed == all;
  }

  /** One turn of the loop over the entries: `it` is listed exactly when it is one of those wanted. */
  lemma EntryWritten(m: map<int, AddrInfo>, ids: seq<int>, all: set<int>, tried: bool, rest: set<int>, it: int)
    requires forall id :: id in m ==> (m[id].fInTried <==> m[id].nRefCount == 0)
    requires all == if tried then TriedIds(m) else NewIds(m)
    requires NoDuplicates(ids) && (forall id :: id in ids <==> id in all - rest) && it in rest && it in m
    ensures it !in ids
    ensures (if tried then m[it].fInTried else m[it].nRefCount != 0) ==>
      NoDuplicates(ids + [it]) && |ids| < |all| && forall id :: id in ids + [it] <==> id in all - (rest - {it})
    ensures !(if tried then m[it].fInTried else m[it].nRefCount != 0) ==>
      forall id :: id in ids <==> id in all - (rest - {it})
  {
    assert it in all <==> if tried then m[it].fInTried else m[it].nRefCount != 0;
    if it in all {
      var more := ids + [it];
      forall id ensures id in more <==> id in all - (rest - {it}) {
        assert id in more <==> id in ids || id == it;
      }
      ListSize(more, all);
    }
  }

  /** The two loops over the entries: those with references, or those that are tried.  The first loop also notes
      every id's position. */
  method WriteEntries(t: Tables, tried: bool, limit: int) returns (infos: seq<Stored>, positions: map<int, int>, ghost ids: seq<int>)
    requires forall id :: id in t.mapInfo ==> (t.mapInfo[id].fInTried <==> t.mapInfo[id].nRefCount == 0)
    requires limit == if tried then |TriedIds(t.mapInfo)| else |NewIds(t.mapInfo)|
    ensures Lists(ids, if tried then TriedIds(t.mapInfo) else NewIds(t.mapInfo))
    ensures |infos| == |ids| == limit && forall i :: 0 <= i < |ids| ==> ids[i] in t.mapInfo && infos[i] == StoredOf(t.mapInfo[ids[i]])
    ensures forall i :: 0 <= i < |ids| ==> ids[i] in positions && positions[ids[i]] == i
  {
    ghost var all := if tried then TriedIds(t.mapInfo) else NewIds(t.mapInfo);
    infos, positions, ids := [], map[], [];
    var nIds := 0;
    var rest := t.mapInfo.Keys;
    while rest != {}
      invariant rest <= t.mapInfo.Keys && nIds == |infos| == |ids| <= limit
      invariant NoDuplicates(ids) && forall id :: id in ids <==> id in all - rest
      invariant forall i :: 0 <= i < |ids| ==> ids[i] in t.mapInfo && infos[i] == StoredOf(t.mapInfo[ids[i]])
      invariant forall i :: 0 <= i < |ids| ==> ids[i] in positions && positions[ids[i]] == i
      decreases rest
    {
      if nIds == limit { break; }
      var it := Least(rest);
      EntryWritten(t.mapInfo, ids, all, tried, rest, it);
      positions := positions[it := nIds];
      var info := t.mapInfo[it];
      if (if tried then info.fInTried else info.nRefCount != 0) {
        infos, ids := infos + [StoredOf(info)], ids + [it];
        nIds := nIds + 1;
      }
      rest := rest - {it};
    }
    ListSize(ids, all);
    ListsUntil(ids, all, rest);
  }

  lemma ListsUntil(ids: seq<int>, all: set<int>, rest: set<int>)
    requires NoDuplicates(ids) && (forall id :: id in ids <==> id in all - rest)
    requires |ids| == |all| || rest == {}
    ensures Lists(ids, all) && |ids| == |all|
  {
    ListSize(ids, all);
    ListsAll(ids, all - rest);
    assert rest == {} ==> all - rest == all;
  }

  method WriteBucket(bucket: set<int>, positions: map<int, int>, ghost ids: seq<int>) returns (indexes: seq<int>)
    requires NoDuplicates(ids) && forall id :: id in bucket ==> id in ids
    requires forall i :: 0 <= i < |ids| ==> ids[i] in positions && positions[ids[i]] == i
    ensures WrittenBucket(indexes, ids, bucket)
  {
    indexes := [];
    var rest := bucket;
    while rest != {}
      invariant rest <= bucket && WrittenBucket(indexes, ids, bucket - rest)
      decreases rest
    {
      var it := Least(rest);
      assert it in ids;
      var p := positions[it];
      assert 0 <= p < |ids| && ids[p] == it;
      ghost var before := indexes;
      indexes := indexes + [p];
      forall id | id in bucket - (rest - {it})
        ensures exists q :: q in indexes && 0 <= q < |ids| && ids[q] == id
      {
        if id == it {
          assert p in indexes;
        } else {
          assert id in bucket - rest;
          var q :| q in before && 0 <= q < |ids| && ids[q] == id;
          assert q in indexes;
        }
      }
      rest := rest - {it};
    }
    assert bucket - rest == bucket;
  }

  method Write(am: CAddrMan) returns (d: Dump, ghost ns: seq<int>, ghost ts: seq<int>)
    requires am.Valid()
    ensures Describes(am.State(), ns, ts, d)
  {
    WriteFacts(am.hs, am.State());
    hide Consistent, TriedIds, NewIds, Lists, WrittenBucket, NoDuplicates;
    var t := Tables(am.nIdCount, am.mapInfo, am.mapAddr, am.vRandom, am.nTried, am.vvTried, am.nNew, am.vvNew);
    var newInfos, mapUnkIds, triedInfos, unused;
    newInfos, mapUnkIds, ns := WriteEntries(t, false, am.nNew);
    triedInfos, unused, ts := WriteEntries(t, true, am.nTried);
    NewIdsListed(t, ns);
    var buckets := [];
    var b := 0;
    while b < |am.vvNew|
      invariant 0 <= b == |buckets| <= |am.vvNew|
      invariant forall c :: 0 <= c < b ==> WrittenBucket(buckets[c], ns, t.vvNew[c])
    {
      var indexes := WriteBucket(am.vvNew[b], mapUnkIds, ns);
      buckets := buckets + [indexes];
      b := b + 1;
    }
    d := Dump(am.nNew, am.nTried, NEW_BUCKET_COUNT, newInfos, triedInfos, buckets);
  }

  lemma WriteFacts(hs: Hashes, t: Tables)
    requires Consistent(hs, t)
    ensures |t.vvNew| == NEW_BUCKET_COUNT && |t.vvTried| == TRIED_BUCKET_COUNT && Counted(t)
    ensures forall id :: id in t.mapInfo ==> (t.mapInfo[id].fInTried <==> t.mapInfo[id].nRefCount == 0)
    ensures forall b, id :: 0 <= b < |t.vvNew| && id in t.vvNew[b] ==> id in NewIds(t.mapInfo)
  {
    hide BucketCount, Indexed, Shuffled, Counted;
    forall id | id in t.mapInfo ensures t.mapInfo[id].fInTried <==> t.mapInfo[id].nRefCount == 0 {
      assert RefCountOk(t.mapInfo[id], BucketCount(t.vvNew, id) + if id in {} then 1 else 0);
    }
  }

  lemma NewIdsListed(t: Tables, ns: seq<int>)
    requires Lists(ns, NewIds(t.mapInfo))
    requires forall b, id :: 0 <= b < |t.vvNew| && id in t.vvNew[b] ==> id in NewIds(t.mapInfo)
    ensures NoDuplicates(ns) && forall b, id :: 0 <= b < |t.vvNew| && id in t.vvNew[b] ==> id in ns
  {
  }

  // ---- Loading the entries ----

  /** The entry `info` once it is loaded at position `i`, before its new buckets are. */
  function LoadedInfo(info: AddrInfo, i: int): AddrInfo {
    info.(addr := info.addr.(nLastTry := 0), nRefCount := 0, nRandomPos := i)
  }

  function NetOf(t: Tables, id: int): NetAddr
    requires id in t.mapInfo
  {
    t.mapInfo[id].addr.service.net
  }

  /** `ids` lists all entries of `t`, the first `nn` of them untried. */
  ghost predicate Order(t: Tables, ids: seq<int>, nn: nat) {
    && nn <= |ids| && NoDuplicates(ids)
    && (forall i :: 0 <= i < |ids| ==> ids[i] in t.mapInfo && (t.mapInfo[ids[i]].fInTried <==> i >= nn))
    && (forall id :: id in t.mapInfo ==> id in ids)
  }

  /** The first `n` entries are loaded, and filed under their positions. */
  ghost predicate EntriesLoaded(t: Tables, ids: seq<int>, n: nat, m: map<int, AddrInfo>, addrs: map<NetAddr, int>, random: seq<int>)
    requires n <= |ids| && forall i :: 0 <= i < |ids| ==> ids[i] in t.mapInfo
  {
    && (forall i :: i in m <==> 0 <= i < n)
    && (forall i :: 0 <= i < n ==> m[i] == LoadedInfo(t.mapInfo[ids[i]], i))
    && (forall i :: 0 <= i < n ==> NetOf(t, ids[i]) in addrs && addrs[NetOf(t, ids[i])] == i)
    && (forall a :: a in addrs ==> 0 <= addrs[a] < n && NetOf(t, ids[addrs[a]]) == a)
    && |random| == n && (forall i :: 0 <= i < n ==> random[i] == i)
  }

  /** The tried entries among the first `n` are in their buckets. */
  ghost predicate TriedLoaded(hs: Hashes, t: Tables, ids: seq<int>, nn: nat, n: nat, tried: seq<seq<int>>)
    requires n <= |ids| && forall i :: 0 <= i < |ids| ==> ids[i] in t.mapInfo
  {
    && |tried| == TRIED_BUCKET_COUNT
    && (forall k :: 0 <= k < |tried| ==> NoDuplicates(tried[k]) && |tried[k]| <= TRIED_BUCKET_SIZE)
    && (forall k, x {:trigger x in tried[k]} :: 0 <= k < |tried| && x in tried[k] ==> nn <= x < n && hs.TriedBucket(t.mapInfo[ids[x]].addr.service) == k)
    && (forall x :: nn <= x < n ==> x in tried[hs.TriedBucket(t.mapInfo[ids[x]].addr.service)])
  }

  lemma EntryLoads(t: Tables, ids: seq<int>, nn: nat, n: nat, m: map<int, AddrInfo>, addrs: map<NetAddr, int>, random: seq<int>)
    requires Order(t, ids, nn) && n < |ids| && EntriesLoaded(t, ids, n, m, addrs, random)
    requires Indexed(t.mapInfo, t.mapAddr, t.nIdCount)
    ensures EntriesLoaded(t, ids, n + 1, m[n := LoadedInfo(t.mapInfo[ids[n]], n)], addrs[NetOf(t, ids[n]) := n], random + [n])
  {
    hide Indexed, LoadedInfo;
    forall i | 0 <= i < n ensures NetOf(t, ids[i]) != NetOf(t, ids[n]) { OtherNet(t, ids, nn, i, n); }
  }

  lemma OtherNet(t: Tables, ids: seq<int>, nn: nat, i: nat, n: nat)
    requires Order(t, ids, nn) && i < n < |ids| && Indexed(t.mapInfo, t.mapAddr, t.nIdCount)
    ensures NetOf(t, ids[i]) != NetOf(t, ids[n])
  {
    assert ids[i] != ids[n];
    assert t.mapAddr[NetOf(t, ids[i])] == ids[i];
  }

  /** Positions that name different ids of a set are no more than the set has. */
  lemma {:induction false} ImageFits(ids: seq<int>, positions: set<int>, all: set<int>)
    requires NoDuplicates(ids) && forall p :: p in positions ==> 0 <= p < |ids| && ids[p] in all
    ensures |positions| <= |all|
    decreases |positions|
  {
    if positions != {} {
      SomeMember(positions);
      var p :| p in positions;
      assert positions == (positions - {p}) + {p};
      assert all == (all - {ids[p]}) + {ids[p]};
      forall q | q in positions - {p} ensures ids[q] in all - {ids[p]} { assert ids[q] != ids[p]; }
      ImageFits(ids, positions - {p}, all - {ids[p]});
    }
  }

  /** No tried entry is lost: its bucket was not over-full when it was saved. */
  lemma RoomForTried(hs: Hashes, t: Tables, ids: seq<int>, nn: nat, n: nat, tried: seq<seq<int>>)
    requires Order(t, ids, nn) && nn <= n < |ids| && TriedTable(hs, t.mapInfo, t.vvTried) && TriedLoaded(hs, t, ids, nn, n, tried)
    ensures |tried[hs.TriedBucket(t.mapInfo[ids[n]].addr.service)]| < TRIED_BUCKET_SIZE
  {
    hide TriedTable;
    var k := hs.TriedBucket(t.mapInfo[ids[n]].addr.service);
    OwnBucket(hs, t, ids[n]);
    var positions := set x | x in tried[k];
    var all := set id | id in t.vvTried[k];
    assert all == (all - {ids[n]}) + {ids[n]};
    forall p | p in positions ensures 0 <= p < |ids| && ids[p] in all - {ids[n]} {
      assert p in tried[k];
      OwnBucket(hs, t, ids[p]);
      assert ids[p] != ids[n];
    }
    ImageFits(ids, positions, all - {ids[n]});
    MembersSize(t.vvTried[k]);
    ListsAll(tried[k], positions);
  }

  lemma OwnBucket(hs: Hashes, t: Tables, id: int)
    requires TriedTable(hs, t.mapInfo, t.vvTried) && id in t.mapInfo && t.mapInfo[id].fInTried
    ensures |t.vvTried| == TRIED_BUCKET_COUNT
    ensures var k := hs.TriedBucket(t.mapInfo[id].addr.service); id in t.vvTried[k] && |t.vvTried[k]| <= TRIED_BUCKET_SIZE
  {
  }

  lemma TriedLoads(hs: Hashes, t: Tables, ids: seq<int>, nn: nat, n: nat, tried: seq<seq<int>>)
    requires Order(t, ids, nn) && nn <= n < |ids| && TriedLoaded(hs, t, ids, nn, n, tried)
    requires |tried[hs.TriedBucket(t.mapInfo[ids[n]].addr.service)]| < TRIED_BUCKET_SIZE
    ensures var k := hs.TriedBucket(t.mapInfo[ids[n]].addr.service);
      TriedLoaded(hs, t, ids, nn, n + 1, tried[k := tried[k] + [n]])
  {
    var k := hs.TriedBucket(t.mapInfo[ids[n]].addr.service);
    var tried' := tried[k := tried[k] + [n]];
    assert n !in tried[k];
    assert tried'[k][|tried[k]|] == n;
    forall c, x | 0 <= c < |tried'| && x in tried'[c]
      ensures nn <= x < n + 1 && hs.TriedBucket(t.mapInfo[ids[x]].addr.service) == c
    {
      assert x in tried[c] || (x == n && c == k);
    }
    forall x | nn <= x < n
      ensures x in tried'[hs.TriedBucket(t.mapInfo[ids[x]].addr.service)]
    {
      var c := hs.TriedBucket(t.mapInfo[ids[x]].addr.service);
      assert x in tried[c];
      assert tried[c] <= tried'[c];
    }
  }

  // ---- Loading the new buckets ----

  /** `counted` is `plain` with the reference counts that the buckets give. */
  ghost predicate CountedBy(plain: map<int, AddrInfo>, counted: map<int, AddrInfo>, buckets: seq<set<int>>) {
    && plain.Keys == counted.Keys
    && forall i :: i in plain ==> counted[i] == plain[i].(nRefCount := BucketCount(buckets, i))
  }

  /** Everything in the buckets so far was in the bucket of the same number. */
  ghost predicate Within(buckets: seq<set<int>>, ns: seq<int>, origin: seq<set<int>>) {
    && |buckets| == |origin|
    && forall b, i {:trigger i in buckets[b]} :: 0 <= b < |buckets| && i in buckets[b] ==> 0 <= i < |ns| && ns[i] in origin[b]
  }

  lemma {:induction false} CountWithin(buckets: seq<set<int>>, origin: seq<set<int>>, i: int, id: int)
    requires |buckets| == |origin| && forall b :: 0 <= b < |buckets| && i in buckets[b] ==> id in origin[b]
    ensures BucketCount(buckets, i) <= BucketCount(origin, id)
    ensures (forall b :: 0 <= b < |buckets| && id in origin[b] ==> i in buckets[b]) ==> BucketCount(buckets, i) == BucketCount(origin, id)
  {
    if buckets != [] {
      assert buckets == [buckets[0]] + buckets[1..] && origin == [origin[0]] + origin[1..];
      CountWithin(buckets[1..], origin[1..], i, id);
    }
  }

  /** One more index of a bucket: the entry has room for a reference, and gets it. */
  lemma IndexLoads(plain: map<int, AddrInfo>, m: map<int, AddrInfo>, buckets: seq<set<int>>, ns: seq<int>, t: Tables, b: nat, i: int)
    requires CountedBy(plain, m, buckets) && Within(buckets, ns, t.vvNew) && b < |buckets|
    requires NewTable(t.mapInfo, t.vvNew, {}) && 0 <= i < |ns| && ns[i] in t.vvNew[b] && i !in buckets[b] && i in plain
    ensures m[i].nRefCount < NEW_BUCKETS_PER_ADDRESS
    ensures var buckets' := buckets[b := buckets[b] + {i}];
      CountedBy(plain, m[i := m[i].(nRefCount := m[i].nRefCount + 1)], buckets') && Within(buckets', ns, t.vvNew)
  {
    hide BucketCount;
    var buckets' := buckets[b := buckets[b] + {i}];
    forall j | j in plain
      ensures m[i := m[i].(nRefCount := m[i].nRefCount + 1)][j] == plain[j].(nRefCount := BucketCount(buckets', j))
    {
      CountUpdate(buckets, b, buckets[b] + {i}, j);
    }
    CountUpdate(buckets, b, buckets[b] + {i}, i);
    forall c, j | 0 <= c < |buckets'| && j in buckets'[c] ensures 0 <= j < |ns| && ns[j] in t.vvNew[c] {
      assert j in buckets[c] || (c == b && j == i);
    }
    CountWithin(buckets', t.vvNew, i, ns[i]);
    assert RefCountOk(t.mapInfo[ns[i]], BucketCount(t.vvNew, ns[i]) + if ns[i] in {} then 1 else 0);
  }

  function SetOf(s: seq<int>): set<int> { set i | i in s }

  /** Bucket `b` holds exactly the positions of the ids it held. */
  ghost predicate BucketLoaded(bucket: set<int>, ns: seq<int>, origin: set<int>) {
    && (forall i :: i in bucket ==> 0 <= i < |ns| && ns[i] in origin)
    && (forall i :: 0 <= i < |ns| && ns[i] in origin ==> i in bucket)
  }

  lemma BucketLoads(indexes: seq<int>, bucket: set<int>, ns: seq<int>, origin: set<int>)
    requires WrittenBucket(indexes, ns, origin) && NoDuplicates(ns) && bucket == SetOf(indexes)
    ensures BucketLoaded(bucket, ns, origin)
  {
    forall i | 0 <= i < |ns| && ns[i] in origin ensures i in bucket {
      var p :| p in indexes && 0 <= p < |ns| && ns[p] == ns[i];
      assert p == i;
    }
  }

  // ---- The loaded manager ----

  /** `s` is `t` with its ids renumbered along `ids`. */
  ghost predicate Renumbered(hs: Hashes, t: Tables, ids: seq<int>, nn: nat, s: Tables)
    requires forall i :: 0 <= i < |ids| ==> ids[i] in t.mapInfo
    requires nn <= |ids|
  {
    && s.nIdCount == |ids| && s.nNew == nn && s.nTried == |ids| - nn
    && (exists plain :: EntriesLoaded(t, ids, |ids|, plain, s.mapAddr, s.vRandom) && CountedBy(plain, s.mapInfo, s.vvNew))
    && TriedLoaded(hs, t, ids, nn, |ids|, s.vvTried)
    && |s.vvNew| == |t.vvNew| && forall b :: 0 <= b < |s.vvNew| ==> BucketLoaded(s.vvNew[b], ids[..nn], t.vvNew[b])
  }

  /** What a save and a load lose of an entry: the time of the last attempt. */
  function Reloaded(e: Entry): Entry {
    e.(addr := e.addr.(nLastTry := 0))
  }

  /** The addresses in a new bucket. */
  ghost function NetsIn(t: Tables, b: nat): set<NetAddr>
    requires b < |t.vvNew|
  {
    set id | id in t.vvNew[b] && id in t.mapInfo :: NetOf(t, id)
  }

  function Range(lo: int, hi: int): (r: set<int>)
    requires lo <= hi
    ensures |r| == hi - lo && forall i :: i in r <==> lo <= i < hi
    decreases hi - lo
  {
    if lo == hi then {} else Range(lo, hi - 1) + {hi - 1}
  }

  /** A renumbered manager satisfies the whole invariant again. */
  lemma RenumberedConsistent(hs: Hashes, t: Tables, ids: seq<int>, nn: nat, s: Tables)
    requires Consistent(hs, t) && Order(t, ids, nn) && Renumbered(hs, t, ids, nn, s)
    ensures Consistent(hs, s)
  {
    OrderFacts(hs, t, ids, nn);
    hide Consistent, Order, Pending;
    var plain :| EntriesLoaded(t, ids, |ids|, plain, s.mapAddr, s.vRandom) && CountedBy(plain, s.mapInfo, s.vvNew);
    RenumberedIndexes(t, ids, plain, s);
    RenumberedTried(hs, t, ids, nn, plain, s);
    RenumberedNew(hs, t, ids, nn, plain, s);
    RenumberedCounts(t, ids, nn, plain, s);
    PutTogether(hs, s);
  }

  lemma PutTogether(hs: Hashes, s: Tables)
    requires s.nIdCount >= 0 && Indexed(s.mapInfo, s.mapAddr, s.nIdCount) && Shuffled(s.mapInfo, s.vRandom)
    requires TriedTable(hs, s.mapInfo, s.vvTried) && NewTable(s.mapInfo, s.vvNew, {}) && Counted(s) && StatsOk(s.mapInfo)
    ensures Consistent(hs, s)
  {
  }

  lemma OrderFacts(hs: Hashes, t: Tables, ids: seq<int>, nn: nat)
    requires Consistent(hs, t) && Order(t, ids, nn)
    ensures StatsOk(t.mapInfo) && NewTable(t.mapInfo, t.vvNew, {})
    ensures nn <= |ids| && NoDuplicates(ids) && forall i :: 0 <= i < |ids| ==> ids[i] in t.mapInfo && (t.mapInfo[ids[i]].fInTried <==> i >= nn)
    ensures forall id :: id in t.mapInfo && !t.mapInfo[id].fInTried ==> id in ids[..nn]
  {
    hide Indexed, Shuffled, TriedTable, NewTable, Counted;
    forall id | id in t.mapInfo && !t.mapInfo[id].fInTried ensures id in ids[..nn] {
      var i :| 0 <= i < |ids| && ids[i] == id;
      assert ids[..nn][i] == id;
    }
  }

  lemma RenumberedIndexes(t: Tables, ids: seq<int>, plain: map<int, AddrInfo>, s: Tables)
    requires forall i :: 0 <= i < |ids| ==> ids[i] in t.mapInfo
    requires s.nIdCount == |ids| && StatsOk(t.mapInfo)
    requires EntriesLoaded(t, ids, |ids|, plain, s.mapAddr, s.vRandom) && CountedBy(plain, s.mapInfo, s.vvNew)
    ensures Indexed(s.mapInfo, s.mapAddr, s.nIdCount) && Shuffled(s.mapInfo, s.vRandom) && StatsOk(s.mapInfo)
  {
    hide BucketCount;
    forall i | i in s.mapInfo ensures StatsOkOf(s.mapInfo[i]) { assert StatsOkOf(t.mapInfo[ids[i]]); }
  }

  lemma RenumberedTried(hs: Hashes, t: Tables, ids: seq<int>, nn: nat, plain: map<int, AddrInfo>, s: Tables)
    requires nn <= |ids| && forall i :: 0 <= i < |ids| ==> ids[i] in t.mapInfo && (t.mapInfo[ids[i]].fInTried <==> i >= nn)
    requires EntriesLoaded(t, ids, |ids|, plain, s.mapAddr, s.vRandom) && CountedBy(plain, s.mapInfo, s.vvNew)
    requires TriedLoaded(hs, t, ids, nn, |ids|, s.vvTried)
    ensures TriedTable(hs, s.mapInfo, s.vvTried)
  {
    hide BucketCount;
    forall b, id | 0 <= b < |s.vvTried| && id in s.vvTried[b]
      ensures id in s.mapInfo && s.mapInfo[id].fInTried && hs.TriedBucket(s.mapInfo[id].addr.service) == b
    {
      assert nn <= id < |ids|;
      assert plain[id] == LoadedInfo(t.mapInfo[ids[id]], id);
    }
  }

  lemma RenumberedNew(hs: Hashes, t: Tables, ids: seq<int>, nn: nat, plain: map<int, AddrInfo>, s: Tables)
    requires nn <= |ids| && NoDuplicates(ids)
    requires forall i :: 0 <= i < |ids| ==> ids[i] in t.mapInfo && (t.mapInfo[ids[i]].fInTried <==> i >= nn)
    requires NewTable(t.mapInfo, t.vvNew, {}) && |s.vvNew| == |t.vvNew|
    requires EntriesLoaded(t, ids, |ids|, plain, s.mapAddr, s.vRandom) && CountedBy(plain, s.mapInfo, s.vvNew)
    requires forall b :: 0 <= b < |s.vvNew| ==> BucketLoaded(s.vvNew[b], ids[..nn], t.vvNew[b])
    ensures NewTable(s.mapInfo, s.vvNew, {})
  {
    hide BucketCount;
    var ns := ids[..nn];
    forall b | 0 <= b < |s.vvNew| ensures |s.vvNew[b]| <= NEW_BUCKET_SIZE {
      ImageFits(ns, s.vvNew[b], t.vvNew[b]);
    }
    forall b, id | 0 <= b < |s.vvNew| && id in s.vvNew[b] ensures id in s.mapInfo && !s.mapInfo[id].fInTried {
      assert BucketLoaded(s.vvNew[b], ns, t.vvNew[b]);
      assert plain[id] == LoadedInfo(t.mapInfo[ids[id]], id);
    }
    forall i | i in s.mapInfo
      ensures RefCountOk(s.mapInfo[i], BucketCount(s.vvNew, i) + if i in {} then 1 else 0)
    {
      RenumberedCount(t, ids, nn, plain, s, i);
    }
  }

  lemma RenumberedCount(t: Tables, ids: seq<int>, nn: nat, plain: map<int, AddrInfo>, s: Tables, i: int)
    requires nn <= |ids| && forall i :: 0 <= i < |ids| ==> ids[i] in t.mapInfo && (t.mapInfo[ids[i]].fInTried <==> i >= nn)
    requires NewTable(t.mapInfo, t.vvNew, {}) && |s.vvNew| == |t.vvNew|
    requires EntriesLoaded(t, ids, |ids|, plain, s.mapAddr, s.vRandom) && CountedBy(plain, s.mapInfo, s.vvNew)
    requires forall b :: 0 <= b < |s.vvNew| ==> BucketLoaded(s.vvNew[b], ids[..nn], t.vvNew[b])
    requires i in s.mapInfo
    ensures RefCountOk(s.mapInfo[i], BucketCount(s.vvNew, i))
  {
    hide BucketCount;
    assert plain[i] == LoadedInfo(t.mapInfo[ids[i]], i);
    assert RefCountOk(t.mapInfo[ids[i]], BucketCount(t.vvNew, ids[i]) + if ids[i] in {} then 1 else 0);
    if i < nn {
      forall b | 0 <= b < |s.vvNew|
        ensures i in s.vvNew[b] <==> ids[i] in t.vvNew[b]
      {
        assert BucketLoaded(s.vvNew[b], ids[..nn], t.vvNew[b]);
        assert ids[..nn][i] == ids[i];
      }
      CountWithin(s.vvNew, t.vvNew, i, ids[i]);
    } else {
      forall b | 0 <= b < |s.vvNew| ensures i !in s.vvNew[b] {
        assert BucketLoaded(s.vvNew[b], ids[..nn], t.vvNew[b]);
      }
      CountZero(s.vvNew, i);
    }
  }

  lemma RenumberedCounts(t: Tables, ids: seq<int>, nn: nat, plain: map<int, AddrInfo>, s: Tables)
    requires nn <= |ids| && forall i :: 0 <= i < |ids| ==> ids[i] in t.mapInfo && (t.mapInfo[ids[i]].fInTried <==> i >= nn)
    requires s.nNew == nn && s.nTried == |ids| - nn
    requires EntriesLoaded(t, ids, |ids|, plain, s.mapAddr, s.vRandom) && CountedBy(plain, s.mapInfo, s.vvNew)
    ensures Counted(s)
  {
    hide BucketCount;
    forall i ensures i in s.mapInfo ==> (s.mapInfo[i].fInTried <==> i >= nn) {
      assert i in s.mapInfo ==> plain[i] == LoadedInfo(t.mapInfo[ids[i]], i);
    }
    assert NewIds(s.mapInfo) == Range(0, nn);
    assert TriedIds(s.mapInfo) == Range(nn, |ids|);
  }

  /** An observer sees the same addresses with the same facts, but for the time of the last attempt, and every new
      bucket holds the same addresses as before. */
  lemma RenumberedView(hs: Hashes, t: Tables, ids: seq<int>, nn: nat, s: Tables)
    requires Consistent(hs, t) && Order(t, ids, nn) && Renumbered(hs, t, ids, nn, s)
    ensures View(s).Keys == View(t).Keys
    ensures forall a :: a in View(t) ==> View(s)[a] == Reloaded(View(t)[a])
    ensures forall b :: 0 <= b < |t.vvNew| ==> NetsIn(s, b) == NetsIn(t, b)
  {
    OrderFacts(hs, t, ids, nn);
    var plain :| EntriesLoaded(t, ids, |ids|, plain, s.mapAddr, s.vRandom) && CountedBy(plain, s.mapInfo, s.vvNew);
    hide Consistent, BucketCount, EntriesLoaded, CountedBy, View, Order, TriedLoaded;
    RenumberedEntries(hs, t, ids, nn, plain, s);
    forall b | 0 <= b < |t.vvNew| ensures NetsIn(s, b) == NetsIn(t, b) {
      RenumberedBucket(hs, t, ids, nn, plain, s, b);
    }
  }

  lemma RenumberedEntries(hs: Hashes, t: Tables, ids: seq<int>, nn: nat, plain: map<int, AddrInfo>, s: Tables)
    requires Consistent(hs, t) && Order(t, ids, nn)
    requires EntriesLoaded(t, ids, |ids|, plain, s.mapAddr, s.vRandom) && CountedBy(plain, s.mapInfo, s.vvNew)
    ensures View(s).Keys == View(t).Keys
    ensures forall a :: a in View(t) ==> View(s)[a] == Reloaded(View(t)[a])
  {
    hide TriedTable, NewTable, BucketCount, Counted, Shuffled;
    forall a | a in View(t) ensures a in View(s) && View(s)[a] == Reloaded(View(t)[a]) {
      var id := t.mapAddr[a];
      assert id in ids;
      var i :| 0 <= i < |ids| && ids[i] == id;
      assert s.mapAddr[a] == i && plain[i] == LoadedInfo(t.mapInfo[ids[i]], i);
    }
    forall a | a in View(s) ensures a in View(t) {
      var i := s.mapAddr[a];
      assert ids[i] in t.mapInfo && NetOf(t, ids[i]) == a;
    }
  }

  lemma RenumberedBucket(hs: Hashes, t: Tables, ids: seq<int>, nn: nat, plain: map<int, AddrInfo>, s: Tables, b: nat)
    requires Consistent(hs, t) && Order(t, ids, nn) && b < |t.vvNew| == |s.vvNew|
    requires EntriesLoaded(t, ids, |ids|, plain, s.mapAddr, s.vRandom) && CountedBy(plain, s.mapInfo, s.vvNew)
    requires BucketLoaded(s.vvNew[b], ids[..nn], t.vvNew[b])
    ensures NetsIn(s, b) == NetsIn(t, b)
  {
    OrderFacts(hs, t, ids, nn);
    hide Consistent, Order, BucketCount;
    forall a | a in NetsIn(t, b) ensures a in NetsIn(s, b) {
      var id :| id in t.vvNew[b] && id in t.mapInfo && NetOf(t, id) == a;
      assert id in ids[..nn];
      var i :| 0 <= i < nn && ids[..nn][i] == id;
      assert i in s.vvNew[b] && plain[i] == LoadedInfo(t.mapInfo[ids[i]], i);
      assert NetOf(s, i) == a;
    }
    forall a | a in NetsIn(s, b) ensures a in NetsIn(t, b) {
      var i :| i in s.vvNew[b] && i in s.mapInfo && NetOf(s, i) == a;
      assert 0 <= i < nn && ids[..nn][i] in t.vvNew[b];
      assert plain[i] == LoadedInfo(t.mapInfo[ids[i]], i);
      assert NetOf(t, ids[i]) == a;
    }
  }

  // ---- Reading ----

  /** What a dump of `t` says, in the order in which it is read. */
  lemma DumpFacts(hs: Hashes, t: Tables, ns: seq<int>, ts: seq<int>, d: Dump)
    requires Consistent(hs, t) && Describes(t, ns, ts, d)
    ensures Order(t, ns + ts, |ns|) && Indexed(t.mapInfo, t.mapAddr, t.nIdCount)
    ensures TriedTable(hs, t.mapInfo, t.vvTried) && NewTable(t.mapInfo, t.vvNew, {})
    ensures d.nNew == |ns| == |d.newInfos| && d.nTried == |ts| == |d.triedInfos|
    ensures forall i :: 0 <= i < |ns| ==> ns[i] in t.mapInfo && d.newInfos[i] == StoredOf(t.mapInfo[ns[i]])
    ensures forall i :: 0 <= i < |ts| ==> ts[i] in t.mapInfo && d.triedInfos[i] == StoredOf(t.mapInfo[ts[i]])
    ensures d.nUBuckets == |d.buckets| == |t.vvNew| == NEW_BUCKET_COUNT && NoDuplicates(ns)
    ensures forall b :: 0 <= b < |d.buckets| ==> WrittenBucket(d.buckets[b], ns, t.vvNew[b])
  {
    hide TriedTable, Indexed, Shuffled, BucketCount, Counted, WrittenBucket;
    var ids := ns + ts;
    forall i | 0 <= i < |ids| ensures ids[i] in t.mapInfo && (t.mapInfo[ids[i]].fInTried <==> i >= |ns|) {
      assert ids[i] == if i < |ns| then ns[i] else ts[i - |ns|];
      assert i < |ns| ==> ns[i] in NewIds(t.mapInfo);
      assert i >= |ns| ==> ts[i - |ns|] in TriedIds(t.mapInfo);
    }
    forall id | id in t.mapInfo ensures id in ids {
      assert id in NewIds(t.mapInfo) || id in TriedIds(t.mapInfo);
      assert id in ns || id in ts;
    }
  }

  /** Replaces everything in the manager by what the dump says.  The ghost arguments name the manager that was
      saved, and the order of its entries. */
  method Read(am: CAddrMan, d: Dump, ghost t: Tables, ghost ns: seq<int>, ghost ts: seq<int>)
    requires Consistent(am.hs, t) && Describes(t, ns, ts, d)
    modifies am
    ensures Order(t, ns + ts, |ns|) && Renumbered(am.hs, t, ns + ts, |ns|, am.State())
  {
    hide Consistent, Describes, Order, Indexed, TriedTable, NewTable, WrittenBucket, EntriesLoaded, TriedLoaded, CountedBy, BucketLoaded, StoredOf, Renumbered, NoDuplicates;
    DumpFacts(am.hs, t, ns, ts, d);
    ghost var ids := ns + ts;
    InOrder(t, ns, ts, ids, d);
    ReadEntries(am, d, t, ids);
    ghost var plain := am.mapInfo;
    EmptyCounts(plain, am.vvNew, t, ids, am.mapAddr, am.vRandom);
    ReadBuckets(am, d, t, ns, plain);
    RenumberedFrom(am.hs, t, ids, |ns|, am.State(), plain);
  }

  /** Clears everything, then reads both kinds of entries. */
  method ReadEntries(am: CAddrMan, d: Dump, ghost t: Tables, ghost ids: seq<int>)
    requires d.nNew == |d.newInfos| && d.nTried == |d.triedInfos| && |ids| == d.nNew + d.nTried
    requires Order(t, ids, d.nNew) && Indexed(t.mapInfo, t.mapAddr, t.nIdCount) && TriedTable(am.hs, t.mapInfo, t.vvTried)
    requires forall i :: 0 <= i < |ids| ==> ids[i] in t.mapInfo
    requires forall i :: 0 <= i < d.nNew ==> d.newInfos[i] == StoredOf(t.mapInfo[ids[i]])
    requires forall i :: 0 <= i < d.nTried ==> d.triedInfos[i] == StoredOf(t.mapInfo[ids[d.nNew + i]])
    modifies am
    ensures am.nIdCount == |ids| && am.nNew == d.nNew && am.nTried == d.nTried
    ensures EntriesLoaded(t, ids, |ids|, am.mapInfo, am.mapAddr, am.vRandom)
    ensures TriedLoaded(am.hs, t, ids, d.nNew, |ids|, am.vvTried)
    ensures |am.vvNew| == NEW_BUCKET_COUNT && forall b :: 0 <= b < |am.vvNew| ==> am.vvNew[b] == {}
  {
    hide Order, Indexed, TriedTable, EntriesLoaded, TriedLoaded, StoredOf;
    am.nNew, am.nTried := d.nNew, d.nTried;
    am.nIdCount, am.mapInfo, am.mapAddr, am.vRandom := 0, map[], map[], [];
    am.vvTried := seq(TRIED_BUCKET_COUNT, _ => []);
    am.vvNew := seq(NEW_BUCKET_COUNT, _ => {});
    ReadNew(am, d, t, ids);
    am.nIdCount := am.nNew;
    var nLost := ReadTried(am, d, t, ids, am.nNew);
    am.nTried := am.nTried - nLost;
  }

  lemma RenumberedFrom(hs: Hashes, t: Tables, ids: seq<int>, nn: nat, s: Tables, plain: map<int, AddrInfo>)
    requires (forall i :: 0 <= i < |ids| ==> ids[i] in t.mapInfo) && nn <= |ids|
    requires s.nIdCount == |ids| && s.nNew == nn && s.nTried == |ids| - nn
    requires EntriesLoaded(t, ids, |ids|, plain, s.mapAddr, s.vRandom) && CountedBy(plain, s.mapInfo, s.vvNew)
    requires TriedLoaded(hs, t, ids, nn, |ids|, s.vvTried)
    requires |s.vvNew| == |t.vvNew| && forall b :: 0 <= b < |s.vvNew| ==> BucketLoaded(s.vvNew[b], ids[..nn], t.vvNew[b])
    ensures Renumbered(hs, t, ids, nn, s)
  {
    hide EntriesLoaded, TriedLoaded, CountedBy, BucketLoaded;
  }

  lemma InOrder(t: Tables, ns: seq<int>, ts: seq<int>, ids: seq<int>, d: Dump)
    requires ids == ns + ts && |ns| == |d.newInfos| && |ts| == |d.triedInfos|
    requires forall i :: 0 <= i < |ns| ==> ns[i] in t.mapInfo && d.newInfos[i] == StoredOf(t.mapInfo[ns[i]])
    requires forall i :: 0 <= i < |ts| ==> ts[i] in t.mapInfo && d.triedInfos[i] == StoredOf(t.mapInfo[ts[i]])
    ensures |ids| == |ns| + |ts| && ids[..|ns|] == ns && forall i :: 0 <= i < |ids| ==> ids[i] in t.mapInfo
    ensures forall i :: 0 <= i < |ns| ==> d.newInfos[i] == StoredOf(t.mapInfo[ids[i]])
    ensures forall i :: 0 <= i < |ts| ==> d.triedInfos[i] == StoredOf(t.mapInfo[ids[|ns| + i]])
  {
    hide StoredOf;
  }

  method ReadNew(am: CAddrMan, d: Dump, ghost t: Tables, ghost ids: seq<int>)
    requires am.nNew == |d.newInfos| <= |ids| && Order(t, ids, |d.newInfos|) && Indexed(t.mapInfo, t.mapAddr, t.nIdCount)
    requires forall i :: 0 <= i < |d.newInfos| ==> d.newInfos[i] == StoredOf(t.mapInfo[ids[i]])
    requires am.mapInfo == map[] && am.mapAddr == map[] && am.vRandom == []
    modifies am`mapInfo, am`mapAddr, am`vRandom
    ensures EntriesLoaded(t, ids, am.nNew, am.mapInfo, am.mapAddr, am.vRandom)
  {
    hide Indexed, NoDuplicates;
    var n := 0;
    while n < am.nNew
      invariant 0 <= n <= am.nNew
      invariant EntriesLoaded(t, ids, n, am.mapInfo, am.mapAddr, am.vRandom)
    {
      EntryLoads(t, ids, |d.newInfos|, n, am.mapInfo, am.mapAddr, am.vRandom);
      var info := InfoOf(d.newInfos[n]);
      info := info.(nRandomPos := |am.vRandom|);
      assert info == LoadedInfo(t.mapInfo[ids[n]], n);
      am.mapInfo := am.mapInfo[n := info];
      am.mapAddr := am.mapAddr[info.addr.service.net := n];
      am.vRandom := am.vRandom + [n];
      n := n + 1;
    }
  }

  method ReadTried(am: CAddrMan, d: Dump, ghost t: Tables, ghost ids: seq<int>, ghost nn: nat) returns (nLost: int)
    requires Order(t, ids, nn) && Indexed(t.mapInfo, t.mapAddr, t.nIdCount) && TriedTable(am.hs, t.mapInfo, t.vvTried)
    requires forall i :: 0 <= i < |ids| ==> ids[i] in t.mapInfo
    requires am.nIdCount == nn && am.nTried == |d.triedInfos| && |ids| == nn + |d.triedInfos|
    requires forall i :: 0 <= i < |d.triedInfos| ==> d.triedInfos[i] == StoredOf(t.mapInfo[ids[nn + i]])
    requires EntriesLoaded(t, ids, nn, am.mapInfo, am.mapAddr, am.vRandom)
    requires |am.vvTried| == TRIED_BUCKET_COUNT && forall k :: 0 <= k < |am.vvTried| ==> am.vvTried[k] == []
    modifies am`mapInfo, am`mapAddr, am`vRandom, am`vvTried, am`nIdCount
    ensures nLost == 0 && am.nIdCount == |ids|
    ensures EntriesLoaded(t, ids, |ids|, am.mapInfo, am.mapAddr, am.vRandom)
    ensures TriedLoaded(am.hs, t, ids, nn, |ids|, am.vvTried)
  {
    hide Indexed, NoDuplicates, TriedTable, EntriesLoaded, Order, TriedLoaded;
    NoneTried(am.hs, t, ids, nn, am.vvTried);
    nLost := 0;
    var n := 0;
    while n < am.nTried
      invariant 0 <= n <= am.nTried && nLost == 0 && am.nIdCount == nn + n
      invariant EntriesLoaded(t, ids, nn + n, am.mapInfo, am.mapAddr, am.vRandom)
      invariant TriedLoaded(am.hs, t, ids, nn, nn + n, am.vvTried)
    {
      var lost := LoadTried(am, InfoOf(d.triedInfos[n]), t, ids, nn, nn + n);
      if lost {
        nLost := nLost + 1;
      }
      n := n + 1;
    }
  }

  /** No tried entry that was saved is dropped. */
  method LoadTried(am: CAddrMan, info: AddrInfo, ghost t: Tables, ghost ids: seq<int>, ghost nn: nat, ghost n: nat)
    returns (lost: bool)
    requires Order(t, ids, nn) && Indexed(t.mapInfo, t.mapAddr, t.nIdCount) && TriedTable(am.hs, t.mapInfo, t.vvTried)
    requires forall i :: 0 <= i < |ids| ==> ids[i] in t.mapInfo
    requires nn <= n < |ids| && am.nIdCount == n && info == InfoOf(StoredOf(t.mapInfo[ids[n]]))
    requires EntriesLoaded(t, ids, n, am.mapInfo, am.mapAddr, am.vRandom)
    requires TriedLoaded(am.hs, t, ids, nn, n, am.vvTried)
    modifies am`mapInfo, am`mapAddr, am`vRandom, am`vvTried, am`nIdCount
    ensures !lost && am.nIdCount == n + 1
    ensures EntriesLoaded(t, ids, n + 1, am.mapInfo, am.mapAddr, am.vRandom)
    ensures TriedLoaded(am.hs, t, ids, nn, n + 1, am.vvTried)
  {
    hide Indexed, NoDuplicates, TriedTable, EntriesLoaded, Order, TriedLoaded;
    TriedStep(am.hs, t, ids, nn, n, am.mapInfo, am.mapAddr, am.vRandom, am.vvTried);
    lost := StoreTried(am, info);
  }

  /** Files a tried entry under the next id, or drops it when its bucket is full. */
  method StoreTried(am: CAddrMan, info: AddrInfo) returns (lost: bool)
    requires |am.vvTried| == TRIED_BUCKET_COUNT
    modifies am`mapInfo, am`mapAddr, am`vRandom, am`vvTried, am`nIdCount
    ensures var k := am.hs.TriedBucket(info.addr.service);
      && lost == (|old(am.vvTried)[k]| >= TRIED_BUCKET_SIZE)
      && (lost ==> am.State() == old(am.State()))
      && (!lost ==>
            && am.nIdCount == old(am.nIdCount) + 1
            && am.mapInfo == old(am.mapInfo)[old(am.nIdCount) := info.(nRandomPos := |old(am.vRandom)|, fInTried := true)]
            && am.mapAddr == old(am.mapAddr)[info.addr.service.net := old(am.nIdCount)]
            && am.vRandom == old(am.vRandom) + [old(am.nIdCount)]
            && am.vvTried == old(am.vvTried)[k := old(am.vvTried)[k] + [old(am.nIdCount)]])
  {
    var k := am.hs.TriedBucket(info.addr.service);
    if |am.vvTried[k]| < TRIED_BUCKET_SIZE {
      am.vRandom := am.vRandom + [am.nIdCount];
      am.mapInfo := am.mapInfo[am.nIdCount := info.(nRandomPos := |am.vRandom| - 1, fInTried := true)];
      am.mapAddr := am.mapAddr[info.addr.service.net := am.nIdCount];
      am.vvTried := am.vvTried[k := am.vvTried[k] + [am.nIdCount]];
      am.nIdCount := am.nIdCount + 1;
      return false;
    }
    return true;
  }

  lemma NoneTried(hs: Hashes, t: Tables, ids: seq<int>, nn: nat, tried: seq<seq<int>>)
    requires nn <= |ids| && forall i :: 0 <= i < |ids| ==> ids[i] in t.mapInfo
    requires |tried| == TRIED_BUCKET_COUNT && forall k :: 0 <= k < |tried| ==> tried[k] == []
    ensures TriedLoaded(hs, t, ids, nn, nn, tried)
  {
  }

  /** The next tried entry has room in its bucket, and takes its place there and in the indexes. */
  lemma TriedStep(hs: Hashes, t: Tables, ids: seq<int>, nn: nat, n: nat,
                  m: map<int, AddrInfo>, addrs: map<NetAddr, int>, random: seq<int>, tried: seq<seq<int>>)
    requires Order(t, ids, nn) && nn <= n < |ids| && Indexed(t.mapInfo, t.mapAddr, t.nIdCount) && TriedTable(hs, t.mapInfo, t.vvTried)
    requires EntriesLoaded(t, ids, n, m, addrs, random) && TriedLoaded(hs, t, ids, nn, n, tried)
    ensures |random| == n && |tried| == TRIED_BUCKET_COUNT
    ensures var info := InfoOf(StoredOf(t.mapInfo[ids[n]])).(nRandomPos := n, fInTried := true);
      var k := hs.TriedBucket(info.addr.service);
      && |tried[k]| < TRIED_BUCKET_SIZE
      && EntriesLoaded(t, ids, n + 1, m[n := info], addrs[info.addr.service.net := n], random + [n])
      && TriedLoaded(hs, t, ids, nn, n + 1, tried[k := tried[k] + [n]])
  {
    assert t.mapInfo[ids[n]].fInTried && |random| == n && |tried| == TRIED_BUCKET_COUNT;
    hide Indexed, NoDuplicates, TriedTable, EntriesLoaded, TriedLoaded, Order;
    RoomForTried(hs, t, ids, nn, n, tried);
    TriedLoads(hs, t, ids, nn, n, tried);
    EntryLoads(t, ids, nn, n, m, addrs, random);
    assert LoadedInfo(t.mapInfo[ids[n]], n) == InfoOf(StoredOf(t.mapInfo[ids[n]])).(nRandomPos := n, fInTried := true);
  }

  lemma EmptyCounts(plain: map<int, AddrInfo>, buckets: seq<set<int>>, t: Tables, ids: seq<int>, addrs: map<NetAddr, int>, random: seq<int>)
    requires forall i :: 0 <= i < |ids| ==> ids[i] in t.mapInfo
    requires EntriesLoaded(t, ids, |ids|, plain, addrs, random)
    requires forall b :: 0 <= b < |buckets| ==> buckets[b] == {}
    ensures CountedBy(plain, plain, buckets)
    ensures forall i :: i in plain <==> 0 <= i < |ids|
  {
    hide BucketCount;
    forall i | i in plain ensures plain[i] == plain[i].(nRefCount := BucketCount(buckets, i)) {
      CountZero(buckets, i);
      assert plain[i] == LoadedInfo(t.mapInfo[ids[i]], i);
    }
  }

  method ReadBuckets(am: CAddrMan, d: Dump, ghost t: Tables, ghost ns: seq<int>, ghost plain: map<int, AddrInfo>)
    requires NoDuplicates(ns) && NewTable(t.mapInfo, t.vvNew, {}) && d.nUBuckets == |d.buckets| == NEW_BUCKET_COUNT
    requires forall b :: 0 <= b < |d.buckets| ==> WrittenBucket(d.buckets[b], ns, t.vvNew[b])
    requires forall i :: 0 <= i < |ns| ==> i in plain
    requires |am.vvNew| == NEW_BUCKET_COUNT && forall b :: 0 <= b < |am.vvNew| ==> am.vvNew[b] == {}
    requires CountedBy(plain, am.mapInfo, am.vvNew)
    modifies am`mapInfo, am`vvNew
    ensures CountedBy(plain, am.mapInfo, am.vvNew)
    ensures |am.vvNew| == NEW_BUCKET_COUNT && forall b :: 0 <= b < |am.vvNew| ==> BucketLoaded(am.vvNew[b], ns, t.vvNew[b])
  {
    hide NewTable, CountedBy, BucketLoaded, NoDuplicates, WrittenBucket;
    NewTableSize(t);
    var b := 0;
    while b < d.nUBuckets
      invariant 0 <= b <= d.nUBuckets && |am.vvNew| == NEW_BUCKET_COUNT
      invariant CountedBy(plain, am.mapInfo, am.vvNew) && Within(am.vvNew, ns, t.vvNew)
      invariant forall c :: 0 <= c < b ==> BucketLoaded(am.vvNew[c], ns, t.vvNew[c])
      invariant forall c :: b <= c < |am.vvNew| ==> am.vvNew[c] == {}
    {
      ReadBucket(am, d.buckets[b], b, t, ns, plain);
      BucketLoads(d.buckets[b], am.vvNew[b], ns, t.vvNew[b]);
      b := b + 1;
    }
  }

  lemma NewTableSize(t: Tables)
    requires NewTable(t.mapInfo, t.vvNew, {})
    ensures |t.vvNew| == NEW_BUCKET_COUNT
  {
  }

  /** Reads one bucket; no reference is dropped for want of room. */
  method ReadBucket(am: CAddrMan, indexes: seq<int>, b: nat, ghost t: Tables, ghost ns: seq<int>, ghost plain: map<int, AddrInfo>)
    requires NewTable(t.mapInfo, t.vvNew, {}) && b < |am.vvNew| && am.vvNew[b] == {} && Within(am.vvNew, ns, t.vvNew)
    requires WrittenBucket(indexes, ns, t.vvNew[b]) && CountedBy(plain, am.mapInfo, am.vvNew)
    requires forall i :: 0 <= i < |ns| ==> i in plain
    modifies am`mapInfo, am`vvNew
    ensures CountedBy(plain, am.mapInfo, am.vvNew) && Within(am.vvNew, ns, t.vvNew)
    ensures am.vvNew == old(am.vvNew)[b := SetOf(indexes)]
  {
    hide NewTable;
    var n := 0;
    assert SetOf(indexes[..0]) == {};
    while n < |indexes|
      invariant 0 <= n <= |indexes| && |am.vvNew| == |old(am.vvNew)|
      invariant CountedBy(plain, am.mapInfo, am.vvNew) && Within(am.vvNew, ns, t.vvNew)
      invariant am.vvNew == old(am.vvNew)[b := SetOf(indexes[..n])]
    {
      var nIndex := indexes[n];
      assert nIndex in indexes && nIndex !in indexes[..n];
      assert indexes[..n + 1] == indexes[..n] + [nIndex];
      assert SetOf(indexes[..n + 1]) == SetOf(indexes[..n]) + {nIndex};
      IndexLoads(plain, am.mapInfo, am.vvNew, ns, t, b, nIndex);
      var info := am.mapInfo[nIndex];
      if info.nRefCount < NEW_BUCKETS_PER_ADDRESS {
        am.mapInfo := am.mapInfo[nIndex := info.(nRefCount := info.nRefCount + 1)];
        am.vvNew := am.vvNew[b := am.vvNew[b] + {nIndex}];
      }
      n := n + 1;
    }
    assert indexes[..n] == indexes;
  }

  /** Saving a manager and loading the file gives a valid manager that an observer can tell from the saved one only
      by the forgotten attempt times; every new bucket holds the same addresses, and no tried address is lost. */
  method SaveAndLoad(am: CAddrMan, loaded: CAddrMan)
    requires am != loaded && am.Valid() && loaded.hs == am.hs
    modifies loaded
    ensures loaded.Valid()
    ensures loaded.Known().Keys == am.Known().Keys
    ensures forall a :: a in am.Known() ==> loaded.Known()[a] == Reloaded(am.Known()[a])
    ensures forall b :: 0 <= b < NEW_BUCKET_COUNT ==>
      b < |loaded.vvNew| && b < |am.vvNew| && NetsIn(loaded.State(), b) == NetsIn(am.State(), b)
  {
    hide Consistent, View, Renumbered, Describes, Order;
    HasBuckets(am.hs, am.State());
    ghost var t := am.State();
    var d;
    ghost var ns, ts;
    d, ns, ts := Write(am);
    Read(loaded, d, t, ns, ts);
    RenumberedConsistent(am.hs, t, ns + ts, |ns|, loaded.State());
    RenumberedView(am.hs, t, ns + ts, |ns|, loaded.State());
    HasBuckets(am.hs, loaded.State());
  }
}
