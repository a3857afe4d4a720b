/**
 The tables of the address manager and their consistency: src/addrman.h and src/addrman.cpp.

 The manager keeps five redundant indexes.  `Consistent` is the whole invariant that the
 debugging method Check_ tests, and more.  The functions below are the elementary
 changes that the methods make; each comes with the lemma that it keeps the invariant.
 The class itself is in AddrMan.
 */
module AddrManState {

  const TRIED_BUCKET_COUNT: nat := 64
  const TRIED_BUCKET_SIZE: nat := 64
  const NEW_BUCKET_COUNT: nat := 256
  const NEW_BUCKET_SIZE: nat := 64
  const TRIED_BUCKETS_PER_GROUP: nat := 4
  const NEW_BUCKETS_PER_SOURCE_GROUP: nat := 32
  const NEW_BUCKETS_PER_ADDRESS: nat := 4

  datatype NetAddr = NetAddr(ip: nat)
  datatype Service = Service(net: NetAddr, port: nat)
  datatype Address = Address(service: Service, nServices: bv64, nTime: int, nLastTry: int)
  datatype AddrInfo = AddrInfo(addr: Address, source: NetAddr, nLastSuccess: int, nAttempts: int,
                               nRefCount: int, fInTried: bool, nRandomPos: int)

  /** The keyed hashes that place an address in buckets, and the grouping of addresses. */
  datatype Hashes = Hashes(group: NetAddr -> nat, service: Service -> nat, triedSlot: (nat, nat) -> nat,
                           groups: (nat, nat) -> nat, newSlot: (nat, nat) -> nat)
  {
    function TriedBucket(s: Service): (b: nat)
      ensures b < TRIED_BUCKET_COUNT
    {
      triedSlot(group(s.net), service(s) % TRIED_BUCKETS_PER_GROUP) % TRIED_BUCKET_COUNT
    }

    function NewBucket(s: Service, source: NetAddr): (b: nat)
      ensures b < NEW_BUCKET_COUNT
    {
      newSlot(group(source), groups(group(s.net), group(source)) % NEW_BUCKETS_PER_SOURCE_GROUP) % NEW_BUCKET_COUNT
    }
  }

  predicate ReachesTried(hs: Hashes, group: nat, b: nat, s: Service) {
    hs.group(s.net) == group && hs.TriedBucket(s) == b
  }

  predicate ReachesNew(hs: Hashes, group: nat, b: nat, s: Service, source: NetAddr) {
    hs.group(source) == group && hs.NewBucket(s, source) == b
  }

  ghost predicate IsTriedOf(hs: Hashes, group: nat, b: nat) { exists s :: ReachesTried(hs, group, b, s) }

  ghost predicate IsNewOf(hs: Hashes, group: nat, b: nat) { exists s, source :: ReachesNew(hs, group, b, s, source) }

  /** The tried buckets of all services of one group. */
  ghost function TriedBucketsOf(hs: Hashes, group: nat): set<nat> {
    set b: nat | b < TRIED_BUCKET_COUNT && IsTriedOf(hs, group, b)
  }

  /** The new buckets of everything that sources of one group tell about. */
  ghost function NewBucketsOf(hs: Hashes, sourceGroup: nat): set<nat> {
    set b: nat | b < NEW_BUCKET_COUNT && IsNewOf(hs, sourceGroup, b)
  }

  function TriedSlots(hs: Hashes, group: nat, n: nat): (r: set<nat>)
    ensures |r| <= n && forall k: nat :: k < n ==> hs.triedSlot(group, k) % TRIED_BUCKET_COUNT in r
  {
    if n == 0 then {} else TriedSlots(hs, group, n - 1) + {hs.triedSlot(group, n - 1) % TRIED_BUCKET_COUNT}
  }

  function NewSlots(hs: Hashes, group: nat, n: nat): (r: set<nat>)
    ensures |r| <= n && forall k: nat :: k < n ==> hs.newSlot(group, k) % NEW_BUCKET_COUNT in r
  {
    if n == 0 then {} else NewSlots(hs, group, n - 1) + {hs.newSlot(group, n - 1) % NEW_BUCKET_COUNT}
  }

  lemma FewMembers(s: set<nat>, values: set<nat>, n: nat)
    requires s <= values && |values| <= n
    ensures |s| <= n
  {
    assert values == s + (values - s);
  }

  /** The addresses of one group reach at most four tried buckets, and one source group reaches at most 32 new ones. */
  lemma BucketSpread(hs: Hashes, group: nat)
    ensures |TriedBucketsOf(hs, group)| <= 4
    ensures |NewBucketsOf(hs, group)| <= 32
  {
    hide TriedSlots, NewSlots;
    var tried, newer := TriedSlots(hs, group, TRIED_BUCKETS_PER_GROUP), NewSlots(hs, group, NEW_BUCKETS_PER_SOURCE_GROUP);
    forall b | b in TriedBucketsOf(hs, group) ensures b in tried {
      var s :| ReachesTried(hs, group, b, s);
      var slot: nat := hs.service(s) % TRIED_BUCKETS_PER_GROUP;
      assert hs.triedSlot(group, slot) % TRIED_BUCKET_COUNT in tried;
    }
    forall b | b in NewBucketsOf(hs, group) ensures b in newer {
      var s, source :| ReachesNew(hs, group, b, s, source);
      var slot: nat := hs.groups(hs.group(s.net), group) % NEW_BUCKETS_PER_SOURCE_GROUP;
      assert hs.newSlot(group, slot) % NEW_BUCKET_COUNT in newer;
    }
    FewMembers(TriedBucketsOf(hs, group), tried, TRIED_BUCKETS_PER_GROUP);
    FewMembers(NewBucketsOf(hs, group), newer, NEW_BUCKETS_PER_SOURCE_GROUP);
  }

  datatype Tables = Tables(nIdCount: int, mapInfo: map<int, AddrInfo>, mapAddr: map<NetAddr, int>, vRandom: seq<int>,
                           nTried: int, vvTried: seq<seq<int>>, nNew: int, vvNew: seq<set<int>>)

  /** `mapAddr` and `mapInfo` are mutually inverse. */
  ghost predicate Indexed(m: map<int, AddrInfo>, addrs: map<NetAddr, int>, idCount: int) {
    && (forall id :: id in m ==> 0 <= id < idCount)
    && (forall id :: id in m ==> m[id].addr.service.net in addrs && addrs[m[id].addr.service.net] == id)
    && (forall a :: a in addrs ==> addrs[a] in m && m[addrs[a]].addr.service.net == a)
  }

  /** `vRandom` and `nRandomPos` are mutually inverse. */
  ghost predicate Shuffled(m: map<int, AddrInfo>, random: seq<int>) {
    && (forall id :: id in m ==> 0 <= m[id].nRandomPos < |random| && random[m[id].nRandomPos] == id)
    && (forall i :: 0 <= i < |random| ==> random[i] in m && m[random[i]].nRandomPos == i)
  }

  ghost predicate NoDuplicates(s: seq<int>) {
    forall i, j :: 0 <= i < j < |s| ==> s[i] != s[j]
  }

  /** Every tried id sits exactly once, in the bucket its own hash names, and nothing else sits there. */
  ghost predicate TriedTable(hs: Hashes, m: map<int, AddrInfo>, tried: seq<seq<int>>) {
    && |tried| == TRIED_BUCKET_COUNT
    && (forall b :: 0 <= b < |tried| ==> |tried[b]| <= TRIED_BUCKET_SIZE && NoDuplicates(tried[b]))
    && (forall b, id :: 0 <= b < |tried| && id in tried[b] ==>
          id in m && m[id].fInTried && hs.TriedBucket(m[id].addr.service) == b)
    && (forall id :: id in m && m[id].fInTried ==> id in tried[hs.TriedBucket(m[id].addr.service)])
  }

  /** The number of new buckets that hold an id. */
  function BucketCount(buckets: seq<set<int>>, id: int): nat {
    if buckets == [] then 0 else (if id in buckets[0] then 1 else 0) + BucketCount(buckets[1..], id)
  }

  /** New buckets hold only untried ids, and `nRefCount` counts the buckets of an id.  The count of a `pending`
      id is already raised for a bucket it is about to enter. */
  ghost predicate NewTable(m: map<int, AddrInfo>, buckets: seq<set<int>>, pending: set<int>) {
    && |buckets| == NEW_BUCKET_COUNT
    && (forall b :: 0 <= b < |buckets| ==> |buckets[b]| <= NEW_BUCKET_SIZE)
    && (forall b, id :: 0 <= b < |buckets| && id in buckets[b] ==> id in m && !m[id].fInTried)
    && (forall id :: id in m ==> RefCountOk(m[id], BucketCount(buckets, id) + if id in pending then 1 else 0))
  }

  ghost predicate RefCountOk(info: AddrInfo, count: nat) {
    info.nRefCount == count && if info.fInTried then count == 0 else 1 <= count <= NEW_BUCKETS_PER_ADDRESS
  }

  function TriedIds(m: map<int, AddrInfo>): set<int> { set id | id in m && m[id].fInTried }

  function NewIds(m: map<int, AddrInfo>): set<int> { set id | id in m && !m[id].fInTried }

  ghost predicate Counted(t: Tables) {
    && t.nTried == |TriedIds(t.mapInfo)|
    && t.nNew == |NewIds(t.mapInfo)|
    && |t.vRandom| == t.nTried + t.nNew
  }

  ghost predicate StatsOk(m: map<int, AddrInfo>) {
    forall id :: id in m ==> StatsOkOf(m[id])
  }

  predicate StatsOkOf(info: AddrInfo) {
    && info.addr.nLastTry >= 0 && info.nLastSuccess >= 0
    && (info.fInTried ==> info.nLastSuccess > 0)
  }

  ghost predicate Pending(hs: Hashes, t: Tables, pending: set<int>) {
    && Indexed(t.mapInfo, t.mapAddr, t.nIdCount)
    && Shuffled(t.mapInfo, t.vRandom)
    && TriedTable(hs, t.mapInfo, t.vvTried)
    && NewTable(t.mapInfo, t.vvNew, pending)
    && Counted(t)
    && StatsOk(t.mapInfo)
  }

  ghost predicate Consistent(hs: Hashes, t: Tables) {
    t.nIdCount >= 0 && Pending(hs, t, {})
  }

  // ---- What an observer knows about an address ----

  datatype Entry = Entry(addr: Address, source: NetAddr, nLastSuccess: int, nAttempts: int, tried: bool)

  function EntryOf(info: AddrInfo): Entry {
    Entry(info.addr, info.source, info.nLastSuccess, info.nAttempts, info.fInTried)
  }

  /** The manager as a map from addresses to what is known about them. */
  function View(t: Tables): map<NetAddr, Entry> {
    map a | a in t.mapAddr && t.mapAddr[a] in t.mapInfo :: EntryOf(t.mapInfo[t.mapAddr[a]])
  }

  // ---- Changes that move no entry ----

  predicate SamePlace(a: AddrInfo, b: AddrInfo) {
    a.addr.service == b.addr.service && a.nRefCount == b.nRefCount && a.fInTried == b.fInTried
  }

  ghost predicate SamePlaces(m: map<int, AddrInfo>, m': map<int, AddrInfo>) {
    m.Keys == m'.Keys && forall id :: id in m ==> SamePlace(m[id], m'[id])
  }

  lemma SamePlacesTables(hs: Hashes, m: map<int, AddrInfo>, m': map<int, AddrInfo>, tried: seq<seq<int>>, buckets: seq<set<int>>, pending: set<int>)
    requires SamePlaces(m, m') && TriedTable(hs, m, tried) && NewTable(m, buckets, pending)
    ensures TriedTable(hs, m', tried) && NewTable(m', buckets, pending)
  {
    hide BucketCount;
    forall id | id in m'
      ensures RefCountOk(m'[id], BucketCount(buckets, id) + if id in pending then 1 else 0)
    {
      assert RefCountOk(m[id], BucketCount(buckets, id) + if id in pending then 1 else 0);
    }
    forall b, id | 0 <= b < |tried| && id in tried[b]
      ensures id in m' && m'[id].fInTried && hs.TriedBucket(m'[id].addr.service) == b
    {
      assert SamePlace(m[id], m'[id]);
    }
    forall id | id in m' && m'[id].fInTried
      ensures id in tried[hs.TriedBucket(m'[id].addr.service)]
    {
      assert SamePlace(m[id], m'[id]);
    }
  }

  lemma SamePlacesCounts(m: map<int, AddrInfo>, m': map<int, AddrInfo>)
    requires SamePlaces(m, m')
    ensures TriedIds(m) == TriedIds(m') && NewIds(m) == NewIds(m')
  {
    forall id
      ensures id in TriedIds(m) <==> id in TriedIds(m')
      ensures id in NewIds(m) <==> id in NewIds(m')
    {
      assert id in m ==> SamePlace(m[id], m'[id]);
    }
  }

  lemma SamePlacesIndexed(m: map<int, AddrInfo>, m': map<int, AddrInfo>, addrs: map<NetAddr, int>, idCount: int)
    requires SamePlaces(m, m') && Indexed(m, addrs, idCount)
    ensures Indexed(m', addrs, idCount)
  {
  }

  /** Replaces the statistics of one entry. */
  function Touch(t: Tables, id: int, info: AddrInfo): Tables {
    t.(mapInfo := t.mapInfo[id := info])
  }

  lemma TouchKeeps(hs: Hashes, t: Tables, id: int, info: AddrInfo, pending: set<int>)
    requires Pending(hs, t, pending) && id in t.mapInfo && SamePlace(t.mapInfo[id], info) && StatsOkOf(info)
    requires info.nRandomPos == t.mapInfo[id].nRandomPos
    ensures Pending(hs, Touch(t, id, info), pending)
    ensures View(Touch(t, id, info)) == View(t)[info.addr.service.net := EntryOf(info)]
  {
    hide TriedTable, NewTable, TriedIds, NewIds;
    var m := Touch(t, id, info).mapInfo;
    SamePlacesTables(hs, t.mapInfo, m, t.vvTried, t.vvNew, pending);
    SamePlacesCounts(t.mapInfo, m);
    SamePlacesIndexed(t.mapInfo, m, t.mapAddr, t.nIdCount);
    TouchView(t, id, info);
  }

  lemma TouchView(t: Tables, id: int, info: AddrInfo)
    requires Indexed(t.mapInfo, t.mapAddr, t.nIdCount) && id in t.mapInfo && SamePlace(t.mapInfo[id], info)
    ensures View(Touch(t, id, info)) == View(t)[info.addr.service.net := EntryOf(info)]
  {
  }

  /** Exchanges two positions of `vRandom`, as SwapRandom does. */
  function Swapped(t: Tables, i: int, j: int): Tables
    requires 0 <= i < |t.vRandom| && 0 <= j < |t.vRandom|
    requires t.vRandom[i] in t.mapInfo && t.vRandom[j] in t.mapInfo
  {
    var a, b := t.vRandom[i], t.vRandom[j];
    if i == j then t else
    t.(mapInfo := SwapPositions(t.mapInfo, a, b, i, j), vRandom := t.vRandom[i := b][j := a])
  }

  function SwapPositions(m: map<int, AddrInfo>, a: int, b: int, i: int, j: int): map<int, AddrInfo>
    requires a in m && b in m
  {
    map id | id in m :: if id == b then m[id].(nRandomPos := i) else if id == a then m[id].(nRandomPos := j) else m[id]
  }

  /** Swapping two positions keeps everything, and an observer sees no change. */
  lemma SwapKeeps(hs: Hashes, t: Tables, i: int, j: int, pending: set<int>)
    requires Pending(hs, t, pending) && 0 <= i < |t.vRandom| && 0 <= j < |t.vRandom|
    ensures Pending(hs, Swapped(t, i, j), pending)
    ensures View(Swapped(t, i, j)) == View(t)
    ensures SamePlaces(t.mapInfo, Swapped(t, i, j).mapInfo)
    ensures multiset(Swapped(t, i, j).vRandom) == multiset(t.vRandom)
  {
    hide TriedTable, NewTable, TriedIds, NewIds, Indexed, Shuffled;
    ShuffledNow(t.mapInfo, t.vRandom, i, j);
    var s := Swapped(t, i, j);
    SamePlacesTables(hs, t.mapInfo, s.mapInfo, t.vvTried, t.vvNew, pending);
    SamePlacesCounts(t.mapInfo, s.mapInfo);
    SamePlacesIndexed(t.mapInfo, s.mapInfo, t.mapAddr, t.nIdCount);
    SwapView(t, i, j);
  }

  lemma SwapView(t: Tables, i: int, j: int)
    requires Shuffled(t.mapInfo, t.vRandom) && 0 <= i < |t.vRandom| && 0 <= j < |t.vRandom|
    ensures View(Swapped(t, i, j)) == View(t)
  {
    var s := Swapped(t, i, j);
    forall id | id in t.mapInfo
      ensures EntryOf(s.mapInfo[id]) == EntryOf(t.mapInfo[id])
    {
    }
  }

  lemma ShuffledNow(m: map<int, AddrInfo>, random: seq<int>, i: int, j: int)
    requires Shuffled(m, random) && 0 <= i < |random| && 0 <= j < |random|
    ensures random[i] in m && random[j] in m
    ensures i != j ==> Shuffled(SwapPositions(m, random[i], random[j], i, j), random[i := random[j]][j := random[i]])
    ensures SamePlaces(m, SwapPositions(m, random[i], random[j], i, j))
  {
  }

  // ---- Buckets and their counts ----

  lemma {:induction false} CountZero(buckets: seq<set<int>>, id: int)
    ensures BucketCount(buckets, id) == 0 <==> forall b :: 0 <= b < |buckets| ==> id !in buckets[b]
  {
    if buckets != [] {
      CountZero(buckets[1..], id);
      assert buckets == [buckets[0]] + buckets[1..];
    }
  }

  lemma {:induction false} CountUpdate(buckets: seq<set<int>>, b: nat, bucket: set<int>, id: int)
    requires b < |buckets|
    ensures BucketCount(buckets[b := bucket], id) ==
            BucketCount(buckets, id) - (if id in buckets[b] then 1 else 0) + (if id in bucket then 1 else 0)
  {
    if b == 0 {
      assert buckets[0 := bucket][1..] == buckets[1..];
    } else {
      assert buckets[b := bucket][1..] == buckets[1..][b - 1 := bucket];
      CountUpdate(buckets[1..], b - 1, bucket, id);
    }
  }

  /** Every bucket without one id. */
  function Stripped(buckets: seq<set<int>>, id: int): (r: seq<set<int>>)
    ensures |r| == |buckets|
    ensures forall b :: 0 <= b < |buckets| ==> r[b] == buckets[b] - {id}
  {
    if buckets == [] then [] else [buckets[0] - {id}] + Stripped(buckets[1..], id)
  }

  lemma {:induction false} CountStripped(buckets: seq<set<int>>, id: int, other: int)
    ensures BucketCount(Stripped(buckets, id), other) == if other == id then 0 else BucketCount(buckets, other)
  {
    if buckets != [] { CountStripped(buckets[1..], id, other); }
  }

  // ---- Entering the new table ----

  function CreatedInfo(t: Tables, addr: Address, source: NetAddr): AddrInfo {
    AddrInfo(addr, source, 0, 0, 1, false, |t.vRandom|)
  }

  /** A new entry whose reference count is already raised for its first bucket. */
  function Created(t: Tables, addr: Address, source: NetAddr): Tables {
    t.(nIdCount := t.nIdCount + 1,
       mapInfo := t.mapInfo[t.nIdCount := CreatedInfo(t, addr, source)],
       mapAddr := t.mapAddr[addr.service.net := t.nIdCount],
       vRandom := t.vRandom + [t.nIdCount],
       nNew := t.nNew + 1)
  }

  lemma CreateKeeps(hs: Hashes, t: Tables, addr: Address, source: NetAddr)
    requires Consistent(hs, t) && addr.service.net !in t.mapAddr && addr.nLastTry >= 0
    ensures Pending(hs, Created(t, addr, source), {t.nIdCount})
    ensures View(Created(t, addr, source)) == View(t)[addr.service.net := EntryOf(CreatedInfo(t, addr, source))]
  {
    var id, info := t.nIdCount, CreatedInfo(t, addr, source);
    IndexedCreated(t, addr, source);
    {
      hide TriedTable, NewTable, TriedIds, NewIds, Indexed, Shuffled;
      CreatedView(t, addr, source);
      CountCreated(t, info);
      NewTableCreated(t.mapInfo, t.vvNew, id, info);
      TriedTableCreated(hs, t.mapInfo, t.vvTried, id, info);
    }
  }

  lemma IndexedCreated(t: Tables, addr: Address, source: NetAddr)
    requires Indexed(t.mapInfo, t.mapAddr, t.nIdCount) && Shuffled(t.mapInfo, t.vRandom)
    requires addr.service.net !in t.mapAddr && t.nIdCount >= 0
    ensures t.nIdCount !in t.mapInfo
    ensures var s := Created(t, addr, source);
      && Indexed(s.mapInfo, s.mapAddr, s.nIdCount) && Shuffled(s.mapInfo, s.vRandom)
  {
    hide Shuffled;
    ShuffledCreated(t, addr, source);
  }

  lemma ShuffledCreated(t: Tables, addr: Address, source: NetAddr)
    requires t.nIdCount !in t.mapInfo && Shuffled(t.mapInfo, t.vRandom)
    ensures Shuffled(Created(t, addr, source).mapInfo, Created(t, addr, source).vRandom)
  {
  }

  lemma CreatedView(t: Tables, addr: Address, source: NetAddr)
    requires Indexed(t.mapInfo, t.mapAddr, t.nIdCount)
    requires addr.service.net !in t.mapAddr && t.nIdCount >= 0
    ensures View(Created(t, addr, source)) == View(t)[addr.service.net := EntryOf(CreatedInfo(t, addr, source))]
  {
  }

  lemma IdsCreated(m: map<int, AddrInfo>, id: int, info: AddrInfo)
    requires id !in m && !info.fInTried
    ensures TriedIds(m[id := info]) == TriedIds(m) && NewIds(m[id := info]) == NewIds(m) + {id}
  {
  }

  lemma CountCreated(t: Tables, info: AddrInfo)
    requires Counted(t) && t.nIdCount !in t.mapInfo && !info.fInTried
    ensures var m := t.mapInfo[t.nIdCount := info]; |TriedIds(m)| == t.nTried && |NewIds(m)| == t.nNew + 1
  {
    IdsCreated(t.mapInfo, t.nIdCount, info);
  }

  lemma NewTableCreated(m: map<int, AddrInfo>, buckets: seq<set<int>>, id: int, info: AddrInfo)
    requires NewTable(m, buckets, {}) && id !in m && info.nRefCount == 1 && !info.fInTried
    ensures NewTable(m[id := info], buckets, {id})
  {
    hide BucketCount;
    CountZero(buckets, id);
    forall i | i in m[id := info]
      ensures RefCountOk(m[id := info][i], BucketCount(buckets, i) + if i in {id} then 1 else 0)
    {
      assert i in m ==> RefCountOk(m[i], BucketCount(buckets, i) + if i in {} then 1 else 0);
    }
  }

  lemma TriedTableCreated(hs: Hashes, m: map<int, AddrInfo>, tried: seq<seq<int>>, id: int, info: AddrInfo)
    requires TriedTable(hs, m, tried) && id !in m && !info.fInTried
    ensures TriedTable(hs, m[id := info], tried)
  {
  }

  /** Raises the reference count of an entry that is about to enter one more bucket. */
  function Raised(t: Tables, id: int): Tables
    requires id in t.mapInfo
  {
    t.(mapInfo := t.mapInfo[id := t.mapInfo[id].(nRefCount := t.mapInfo[id].nRefCount + 1)])
  }

  lemma RaiseKeeps(hs: Hashes, t: Tables, id: int)
    requires Consistent(hs, t) && id in t.mapInfo
    requires !t.mapInfo[id].fInTried && t.mapInfo[id].nRefCount < NEW_BUCKETS_PER_ADDRESS
    ensures Pending(hs, Raised(t, id), {id})
    ensures View(Raised(t, id)) == View(t)
  {
    var m := Raised(t, id).mapInfo;
    RaisedNewTable(t.mapInfo, t.vvNew, id);
    RaisedRest(hs, t, id);
  }

  lemma RaisedNewTable(m: map<int, AddrInfo>, buckets: seq<set<int>>, id: int)
    requires NewTable(m, buckets, {}) && id in m && !m[id].fInTried && m[id].nRefCount < NEW_BUCKETS_PER_ADDRESS
    ensures NewTable(m[id := m[id].(nRefCount := m[id].nRefCount + 1)], buckets, {id})
  {
    hide BucketCount;
    var m' := m[id := m[id].(nRefCount := m[id].nRefCount + 1)];
    forall i | i in m'
      ensures RefCountOk(m'[i], BucketCount(buckets, i) + if i in {id} then 1 else 0)
    {
      assert RefCountOk(m[i], BucketCount(buckets, i) + if i in {} then 1 else 0);
    }
  }

  /** What does not depend on reference counts. */
  ghost predicate SameButCounts(m: map<int, AddrInfo>, m': map<int, AddrInfo>) {
    m.Keys == m'.Keys && forall id :: id in m ==> m'[id] == m[id].(nRefCount := m'[id].nRefCount)
  }

  lemma CountsIrrelevant(hs: Hashes, t: Tables, m: map<int, AddrInfo>)
    requires Indexed(t.mapInfo, t.mapAddr, t.nIdCount) && Shuffled(t.mapInfo, t.vRandom) && StatsOk(t.mapInfo)
    requires TriedTable(hs, t.mapInfo, t.vvTried) && SameButCounts(t.mapInfo, m)
    ensures Indexed(m, t.mapAddr, t.nIdCount) && Shuffled(m, t.vRandom) && StatsOk(m) && TriedTable(hs, m, t.vvTried)
    ensures TriedIds(m) == TriedIds(t.mapInfo) && NewIds(m) == NewIds(t.mapInfo)
  {
    hide Indexed, Shuffled, StatsOk, TriedTable, SameButCounts;
    IndexedCountless(t.mapInfo, m, t.mapAddr, t.nIdCount);
    ShuffledCountless(t.mapInfo, m, t.vRandom);
    StatsCountless(t.mapInfo, m);
    TriedCountless(hs, t.mapInfo, m, t.vvTried);
    SamePlacesCountless(t.mapInfo, m);
  }

  lemma IndexedCountless(m: map<int, AddrInfo>, m': map<int, AddrInfo>, addrs: map<NetAddr, int>, idCount: int)
    requires SameButCounts(m, m') && Indexed(m, addrs, idCount)
    ensures Indexed(m', addrs, idCount)
  {
  }

  lemma ShuffledCountless(m: map<int, AddrInfo>, m': map<int, AddrInfo>, random: seq<int>)
    requires SameButCounts(m, m') && Shuffled(m, random)
    ensures Shuffled(m', random)
  {
  }

  lemma StatsCountless(m: map<int, AddrInfo>, m': map<int, AddrInfo>)
    requires SameButCounts(m, m') && StatsOk(m)
    ensures StatsOk(m')
  {
  }

  lemma TriedCountless(hs: Hashes, m: map<int, AddrInfo>, m': map<int, AddrInfo>, tried: seq<seq<int>>)
    requires SameButCounts(m, m') && TriedTable(hs, m, tried)
    ensures TriedTable(hs, m', tried)
  {
  }

  lemma SamePlacesCountless(m: map<int, AddrInfo>, m': map<int, AddrInfo>)
    requires SameButCounts(m, m')
    ensures TriedIds(m) == TriedIds(m') && NewIds(m) == NewIds(m')
  {
    forall id
      ensures id in TriedIds(m) <==> id in TriedIds(m')
      ensures id in NewIds(m) <==> id in NewIds(m')
    {
      assert id in m ==> m'[id] == m[id].(nRefCount := m'[id].nRefCount);
    }
  }

  lemma SameButCountsView(t: Tables, m: map<int, AddrInfo>)
    requires SameButCounts(t.mapInfo, m)
    ensures View(t.(mapInfo := m)) == View(t)
  {
    forall id | id in m ensures EntryOf(m[id]) == EntryOf(t.mapInfo[id]) {
      assert m[id] == t.mapInfo[id].(nRefCount := m[id].nRefCount);
    }
  }

  lemma RaisedRest(hs: Hashes, t: Tables, id: int)
    requires Consistent(hs, t) && id in t.mapInfo
    ensures var s := Raised(t, id);
      && Indexed(s.mapInfo, s.mapAddr, s.nIdCount) && Shuffled(s.mapInfo, s.vRandom) && StatsOk(s.mapInfo)
      && TriedTable(hs, s.mapInfo, s.vvTried) && Counted(s) && View(s) == View(t)
  {
    hide TriedTable, NewTable, TriedIds, NewIds, Indexed, Shuffled, View;
    CountsIrrelevant(hs, t, Raised(t, id).mapInfo);
    SameButCountsView(t, Raised(t, id).mapInfo);
  }

  /** Enters a pending entry into a bucket. */
  function Placed(t: Tables, b: nat, id: int): Tables
    requires b < |t.vvNew|
  {
    t.(vvNew := t.vvNew[b := t.vvNew[b] + {id}])
  }

  lemma PlaceKeeps(hs: Hashes, t: Tables, b: nat, id: int)
    requires Pending(hs, t, {id}) && t.nIdCount >= 0 && id in t.mapInfo && !t.mapInfo[id].fInTried
    requires b < NEW_BUCKET_COUNT && id !in t.vvNew[b] && |t.vvNew[b]| < NEW_BUCKET_SIZE
    ensures Consistent(hs, Placed(t, b, id))
    ensures View(Placed(t, b, id)) == View(t)
  {
    hide TriedTable, TriedIds, NewIds, Indexed, Shuffled, BucketCount;
    var s := Placed(t, b, id);
    forall i | i in s.mapInfo
      ensures RefCountOk(s.mapInfo[i], BucketCount(s.vvNew, i) + if i in {} then 1 else 0)
    {
      assert RefCountOk(t.mapInfo[i], BucketCount(t.vvNew, i) + if i in {id} then 1 else 0);
      CountUpdate(t.vvNew, b, t.vvNew[b] + {id}, i);
    }
  }

  // ---- Leaving the new table ----

  /** There is such a bucket, and the entry and the one that stands last can change places. */
  predicate Evictable(t: Tables, b: nat, id: int) {
    && b < |t.vvNew| && id in t.mapInfo && 0 <= t.mapInfo[id].nRandomPos < |t.vRandom|
    && t.vRandom[t.mapInfo[id].nRandomPos] in t.mapInfo && t.vRandom[|t.vRandom| - 1] in t.mapInfo
  }

  /** Takes an entry out of one new bucket; an entry that is in no other bucket is forgotten altogether. */
  function Evicted(t: Tables, b: nat, id: int): Tables
    requires Evictable(t, b, id)
  {
    if t.mapInfo[id].nRefCount == 1 then Forgotten(Swapped(t, t.mapInfo[id].nRandomPos, |t.vRandom| - 1), b, id)
    else Lowered(t, b, id)
  }

  function Lowered(t: Tables, b: nat, id: int): Tables
    requires b < |t.vvNew| && id in t.mapInfo
  {
    t.(mapInfo := t.mapInfo[id := t.mapInfo[id].(nRefCount := t.mapInfo[id].nRefCount - 1)],
       vvNew := t.vvNew[b := t.vvNew[b] - {id}])
  }

  /** Removes an entry that stands last in `vRandom`. */
  function Forgotten(t: Tables, b: nat, id: int): Tables
    requires b < |t.vvNew| && id in t.mapInfo && |t.vRandom| > 0
  {
    t.(mapInfo := t.mapInfo - {id}, mapAddr := t.mapAddr - {t.mapInfo[id].addr.service.net},
       vRandom := t.vRandom[..|t.vRandom| - 1], nNew := t.nNew - 1, vvNew := t.vvNew[b := t.vvNew[b] - {id}])
  }

  lemma LowerKeeps(hs: Hashes, t: Tables, b: nat, id: int, pending: set<int>)
    requires Pending(hs, t, pending) && b < NEW_BUCKET_COUNT && id in t.vvNew[b] && id !in pending
    requires t.mapInfo[id].nRefCount != 1
    ensures Pending(hs, Lowered(t, b, id), pending)
    ensures View(Lowered(t, b, id)) == View(t)
  {
    LoweredNewTable(t.mapInfo, t.vvNew, b, id, pending);
    hide TriedTable, NewTable, TriedIds, NewIds, Indexed, Shuffled, View;
    var s := Lowered(t, b, id);
    CountsIrrelevant(hs, t, s.mapInfo);
    SameButCountsView(t, s.mapInfo);
    ViewOnly(t.(mapInfo := s.mapInfo), s);
  }

  lemma ViewOnly(t: Tables, s: Tables)
    requires t.mapAddr == s.mapAddr && t.mapInfo == s.mapInfo
    ensures View(t) == View(s)
  {
  }

  lemma LoweredNewTable(m: map<int, AddrInfo>, buckets: seq<set<int>>, b: nat, id: int, pending: set<int>)
    requires NewTable(m, buckets, pending) && b < |buckets| && id in buckets[b] && id !in pending && m[id].nRefCount != 1
    ensures NewTable(m[id := m[id].(nRefCount := m[id].nRefCount - 1)], buckets[b := buckets[b] - {id}], pending)
  {
    hide BucketCount;
    var m' := m[id := m[id].(nRefCount := m[id].nRefCount - 1)];
    var buckets' := buckets[b := buckets[b] - {id}];
    forall i | i in m'
      ensures RefCountOk(m'[i], BucketCount(buckets', i) + if i in pending then 1 else 0)
    {
      assert RefCountOk(m[i], BucketCount(buckets, i) + if i in pending then 1 else 0);
      CountUpdate(buckets, b, buckets[b] - {id}, i);
    }
  }

  lemma ForgetKeeps(hs: Hashes, t: Tables, b: nat, id: int, pending: set<int>)
    requires Pending(hs, t, pending) && b < NEW_BUCKET_COUNT && id in t.vvNew[b] && id !in pending
    requires t.mapInfo[id].nRefCount == 1 && t.mapInfo[id].nRandomPos == |t.vRandom| - 1
    ensures Pending(hs, Forgotten(t, b, id), pending)
    ensures View(Forgotten(t, b, id)) == View(t) - {t.mapInfo[id].addr.service.net}
  {
    ForgottenNewTable(t.mapInfo, t.vvNew, b, id, pending);
    ForgottenIndexes(t, b, id);
    ForgottenView(t, b, id);
    hide TriedTable, NewTable, TriedIds, NewIds, Indexed, Shuffled, View;
    ForgottenTried(hs, t.mapInfo, t.vvTried, id);
    ForgottenCounts(t.mapInfo, id);
  }

  lemma ForgottenNewTable(m: map<int, AddrInfo>, buckets: seq<set<int>>, b: nat, id: int, pending: set<int>)
    requires NewTable(m, buckets, pending) && b < |buckets| && id in buckets[b] && id !in pending && m[id].nRefCount == 1
    ensures NewTable(m - {id}, buckets[b := buckets[b] - {id}], pending)
    ensures !m[id].fInTried
  {
    hide BucketCount;
    var buckets' := buckets[b := buckets[b] - {id}];
    assert RefCountOk(m[id], BucketCount(buckets, id) + if id in pending then 1 else 0);
    CountUpdate(buckets, b, buckets[b] - {id}, id);
    CountZero(buckets', id);
    forall i | i in m - {id}
      ensures RefCountOk(m[i], BucketCount(buckets', i) + if i in pending then 1 else 0)
    {
      assert RefCountOk(m[i], BucketCount(buckets, i) + if i in pending then 1 else 0);
      CountUpdate(buckets, b, buckets[b] - {id}, i);
    }
  }

  lemma ForgottenIndexes(t: Tables, b: nat, id: int)
    requires Indexed(t.mapInfo, t.mapAddr, t.nIdCount) && Shuffled(t.mapInfo, t.vRandom) && StatsOk(t.mapInfo)
    requires b < |t.vvNew| && id in t.mapInfo && t.mapInfo[id].nRandomPos == |t.vRandom| - 1
    ensures var s := Forgotten(t, b, id);
      Indexed(s.mapInfo, s.mapAddr, s.nIdCount) && Shuffled(s.mapInfo, s.vRandom) && StatsOk(s.mapInfo)
  {
  }

  lemma ForgottenView(t: Tables, b: nat, id: int)
    requires Indexed(t.mapInfo, t.mapAddr, t.nIdCount) && b < |t.vvNew| && id in t.mapInfo && |t.vRandom| > 0
    ensures View(Forgotten(t, b, id)) == View(t) - {t.mapInfo[id].addr.service.net}
  {
  }

  lemma ForgottenTried(hs: Hashes, m: map<int, AddrInfo>, tried: seq<seq<int>>, id: int)
    requires TriedTable(hs, m, tried) && id in m && !m[id].fInTried
    ensures TriedTable(hs, m - {id}, tried)
  {
  }

  lemma ForgottenCounts(m: map<int, AddrInfo>, id: int)
    requires id in m && !m[id].fInTried
    ensures |TriedIds(m - {id})| == |TriedIds(m)| && |NewIds(m - {id})| == |NewIds(m)| - 1
  {
    assert TriedIds(m - {id}) == TriedIds(m);
    assert NewIds(m - {id}) == NewIds(m) - {id};
  }

  /** Evicting from a bucket keeps the invariant, also while another id is pending for that bucket.  An observer
      sees at most the loss of one untried address. */
  lemma EvictKeeps(hs: Hashes, t: Tables, b: nat, id: int, pending: set<int>)
    requires Pending(hs, t, pending) && b < NEW_BUCKET_COUNT && id in t.vvNew[b] && id !in pending
    ensures Pending(hs, Evicted(t, b, id), pending)
    ensures View(Evicted(t, b, id)) == if t.mapInfo[id].nRefCount == 1 then View(t) - {t.mapInfo[id].addr.service.net} else View(t)
    ensures Evicted(t, b, id).vvNew == t.vvNew[b := t.vvNew[b] - {id}]
    ensures t.mapInfo.Keys - {id} <= Evicted(t, b, id).mapInfo.Keys
    ensures !t.mapInfo[id].fInTried
  {
    hide TriedTable, TriedIds, NewIds, Indexed, View, Counted, StatsOk, BucketCount, Forgotten, Swapped;
    if t.mapInfo[id].nRefCount == 1 {
      ForgetAnywhere(hs, t, b, id, pending);
    } else {
      LowerKeeps(hs, t, b, id, pending);
    }
  }

  lemma ForgetAnywhere(hs: Hashes, t: Tables, b: nat, id: int, pending: set<int>)
    requires Pending(hs, t, pending) && b < NEW_BUCKET_COUNT && id in t.vvNew[b] && id !in pending
    requires t.mapInfo[id].nRefCount == 1
    ensures var s := Swapped(t, t.mapInfo[id].nRandomPos, |t.vRandom| - 1);
      && Pending(hs, Forgotten(s, b, id), pending)
      && View(Forgotten(s, b, id)) == View(t) - {t.mapInfo[id].addr.service.net}
      && Forgotten(s, b, id).vvNew == t.vvNew[b := t.vvNew[b] - {id}]
      && Forgotten(s, b, id).mapInfo.Keys == t.mapInfo.Keys - {id}
  {
    hide TriedTable, TriedIds, NewIds, Indexed, View, Counted, StatsOk, BucketCount;
    var last := |t.vRandom| - 1;
    MovedLast(t, id);
    SwapKeeps(hs, t, t.mapInfo[id].nRandomPos, last, pending);
    hide Pending;
    var s := Swapped(t, t.mapInfo[id].nRandomPos, last);
    assert SamePlace(t.mapInfo[id], s.mapInfo[id]);
    ForgetKeeps(hs, s, b, id, pending);
  }

  lemma MovedLast(t: Tables, id: int)
    requires Shuffled(t.mapInfo, t.vRandom) && id in t.mapInfo
    ensures var s := Swapped(t, t.mapInfo[id].nRandomPos, |t.vRandom| - 1);
      && id in s.mapInfo && s.mapInfo[id].nRandomPos == |s.vRandom| - 1
      && s.vvNew == t.vvNew
  {
  }
}
