/** CTxMemPool: src/txmempool.cpp, and the conflict test of AcceptToMemoryPool in src/main.cpp. */
module Mempool {
  import opened Arithmetic
  import opened MempoolState
  import opened Transactions
  import opened UtxoState

  /** A 32-bit counter after `k` more. */
  function Counted(n: nat, k: int): (r: nat)
    ensures r < TWO32
    ensures k == 0 && n < TWO32 ==> r == n
  {
    (n + k) % TWO32
  }

  lemma CountedTwice(n: nat, j: int, k: int)
    ensures Counted(Counted(n, j), k) == Counted(n, j + k)
  {
    var q := (n + j) / TWO32;
    assert Counted(n, j) == n + j - q * TWO32;
    assert (n + j + k - q * TWO32) % TWO32 == (n + j + k) % TWO32;
  }

  /** The index without the inputs of one transaction. */
  function WithoutInputs(next: NextTx, vin: seq<OutPoint>): (r: NextTx)
    ensures forall o :: o in r <==> o in next && o !in vin
    ensures forall o :: o in r ==> r[o] == next[o]
  {
    if vin == [] then next else WithoutInputs(next, vin[1..]) - {vin[0]}
  }

  lemma PointedAt(m: Pool, next: NextTx, o: OutPoint)
    requires Exact(m, next) && o in next
    ensures Points(m, o, next[o]) && o in m[next[o].ptx].vin
  {
    assert Points(m, o, next[o]);
    assert m[next[o].ptx].vin[next[o].n] == o;
  }

  lemma Indexed(m: Pool, next: NextTx, b: Hash, i: nat)
    requires Exact(m, next) && b in m && i < |m[b].vin|
    ensures m[b].vin[i] in next
  {
  }

  lemma ExactWithout(m: Pool, next: NextTx, h: Hash)
    requires Exact(m, next) && h in m
    ensures Exact(Without(m, {h}), WithoutInputs(next, m[h].vin))
  {
    var w, r := Without(m, {h}), WithoutInputs(next, m[h].vin);
    forall k, i | k in w && 0 <= i < |w[k].vin|
      ensures w[k].vin[i] in r && r[w[k].vin[i]] == CInPoint(k, i)
    {
      var o := m[k].vin[i];
      if o in m[h].vin { NoDoubleSpend(m, next, h, k, o); }
    }
    forall o | o in r ensures Points(w, o, r[o]) {
      PointedAt(m, next, o);
    }
  }

  lemma ExactWith(m: Pool, next: NextTx, tx: Tx, next1: NextTx)
    requires Exact(m, next) && tx.txid !in m && Distinct(tx.vin) && forall i :: 0 <= i < |tx.vin| ==> tx.vin[i] !in next
    requires forall o :: o in next1 <==> o in next || o in tx.vin
    requires forall o :: o in next && o !in tx.vin ==> next1[o] == next[o]
    requires forall i :: 0 <= i < |tx.vin| ==> next1[tx.vin[i]] == CInPoint(tx.txid, i)
    ensures Exact(m[tx.txid := tx], next1)
  {
    var w := m[tx.txid := tx];
    forall k, i | k in w && 0 <= i < |w[k].vin|
      ensures w[k].vin[i] in next1 && next1[w[k].vin[i]] == CInPoint(k, i)
    {
      if k != tx.txid { assert m[k].vin[i] in next; }
    }
    forall o | o in next1 ensures Points(w, o, next1[o]) {
      if o in tx.vin {
        var i :| 0 <= i < |tx.vin| && tx.vin[i] == o;
        assert next1[tx.vin[i]] == CInPoint(tx.txid, i);
      } else {
        assert Points(m, o, next[o]);
      }
    }
  }

  function Without(m: Pool, s: set<Hash>): Pool {
    m - s
  }

  /** What goes with a transaction. */
  ghost function Family(m: Pool, rank: Hash -> nat, tx: Tx, fRecursive: bool): set<Hash>
    requires Ranked(m, rank)
  {
    {tx.txid} + if fRecursive then Descendants(m, rank, tx) else {}
  }

  /** Where the loop over the outputs of `tx` stands: what is gone is closed, is made of descendants only, and has
      every spender of the first `k` outputs. */
  ghost predicate Partway(m: Pool, rank: Hash -> nat, tx: Tx, gone: set<Hash>, k: nat)
    requires Ranked(m, rank)
  {
    && Closed(m, gone) && gone <= Descendants(m, rank, tx)
    && forall b, i :: b in m && 0 <= i < |m[b].vin| && m[b].vin[i].hash == tx.txid && m[b].vin[i].n < k ==> b in gone
  }

  lemma PartwayStart(m: Pool, rank: Hash -> nat, tx: Tx)
    requires Ranked(m, rank)
    ensures Partway(m, rank, tx, {}, 0) && Without(m, {}) == m
  {
  }

  lemma PartwayDone(m: Pool, rank: Hash -> nat, tx: Tx, gone: set<Hash>)
    requires Ranked(m, rank) && KeyedById(m) && Partway(m, rank, tx, gone, |tx.vout|)
    ensures gone == Descendants(m, rank, tx)
  {
    forall c | c in m && Spends(m, c, tx) ensures c in gone {
      var i :| 0 <= i < |m[c].vin| && OutputOf(m[c].vin[i], tx);
    }
    forall b | b in Descendants(m, rank, tx) ensures b in gone {
      DescendantsLeast(m, rank, tx, gone, b);
    }
  }

  /** Nobody left spends output `k`. */
  lemma PartwaySkip(m: Pool, rank: Hash -> nat, tx: Tx, gone: set<Hash>, k: nat, next: NextTx)
    requires Ranked(m, rank) && Partway(m, rank, tx, gone, k) && Exact(Without(m, gone), next) && OutPoint(tx.txid, k) !in next
    ensures Partway(m, rank, tx, gone, k + 1)
  {
    hide Closed, Descends, Exact;
    forall b, i | b in m && 0 <= i < |m[b].vin| && m[b].vin[i].hash == tx.txid && m[b].vin[i].n < k + 1
      ensures b in gone
    {
      if m[b].vin[i].n == k {
        assert m[b].vin[i] == OutPoint(tx.txid, k);
        if b in m - gone { Indexed(m - gone, next, b, i); }
      }
    }
  }

  /** What the index finds spends the output, and is a descendant. */
  lemma SpenderFound(m: Pool, rank: Hash -> nat, tx: Tx, gone: set<Hash>, k: nat, next: NextTx)
    requires Ranked(m, rank) && Exact(Without(m, gone), next) && k < |tx.vout| && OutPoint(tx.txid, k) in next
    ensures var c, w := next[OutPoint(tx.txid, k)].ptx, Without(m, gone);
      && c in w && c in m && w[c] == m[c] && w[c].txid == c && Ranked(w, rank) && rank(c) > rank(tx.txid)
      && c in Descendants(m, rank, tx)
      && forall b, i :: b in w && 0 <= i < |w[b].vin| && w[b].vin[i] == OutPoint(tx.txid, k) ==> b == c
  {
    var o, w := OutPoint(tx.txid, k), Without(m, gone);
    var c := next[o].ptx;
    assert Points(w, o, next[o]);
    RankedSub(m, rank, gone);
    assert OutputOf(m[c].vin[next[o].n], tx);
    assert Spends(m, c, tx);
    forall b, i | b in w && 0 <= i < |w[b].vin| && w[b].vin[i] == o ensures b == c { NoDoubleSpend(w, next, b, c, o); }
  }

  lemma PartwayStep(m: Pool, rank: Hash -> nat, tx: Tx, gone: set<Hash>, k: nat, next: NextTx)
    requires Ranked(m, rank) && KeyedById(m) && Partway(m, rank, tx, gone, k) && k < |tx.vout|
    requires Exact(Without(m, gone), next) && OutPoint(tx.txid, k) in next
    ensures var c, w := next[OutPoint(tx.txid, k)].ptx, Without(m, gone);
      && c in w && w[c].txid == c && Ranked(w, rank) && rank(c) > rank(tx.txid)
      && (var family := Family(w, rank, w[c], true);
          Without(w, family) == Without(m, gone + family) && Partway(m, rank, tx, gone + family, k + 1))
  {
    hide Exact, Ranked, Descends, Closed, KeyedById, Descendants;
    var o, w := OutPoint(tx.txid, k), Without(m, gone);
    var c := next[o].ptx;
    SpenderFound(m, rank, tx, gone, k, next);
    DescendantsWithout(m, rank, gone, m[c]);
    FamilyClosed(m, rank, c);
    FamilyWithin(m, rank, tx, c);
    var family, whole := Family(w, rank, w[c], true), {c} + Descendants(m, rank, m[c]);
    assert gone + family == gone + whole;
    ClosedUnion(m, gone, whole);
    forall b, i | b in m && 0 <= i < |m[b].vin| && m[b].vin[i].hash == tx.txid && m[b].vin[i].n < k + 1
      ensures b in gone + family
    {
      if m[b].vin[i].n == k && b !in gone { assert b in w && w[b].vin[i] == o; }
    }
    WithoutTwice(m, gone, family);
  }

  lemma WithoutTwice(m: Pool, s: set<Hash>, r: set<Hash>)
    ensures Without(Without(m, s), r) == Without(m, s + r)
  {
    assert ((m - s) - r).Keys == (m - (s + r)).Keys;
  }

  class CTxMemPool {
    var mapTx: Pool
    var mapNextTx: NextTx
    var nTransactionsUpdated: nat

    constructor ()
      ensures mapTx == map[] && nTransactionsUpdated == 0 && Valid()
    {
      mapTx, mapNextTx, nTransactionsUpdated := map[], map[], 0;
    }

    ghost predicate Valid()
      reads this
    {
      Exact(mapTx, mapNextTx) && nTransactionsUpdated < TWO32
    }

    method AddUnchecked(hash: Hash, tx: Tx)
      requires Valid() && hash == tx.txid && hash !in mapTx
      requires Distinct(tx.vin) && forall i :: 0 <= i < |tx.vin| ==> tx.vin[i] !in mapNextTx
      modifies this
      ensures Valid()
      ensures mapTx == old(mapTx)[tx.txid := tx]
      ensures nTransactionsUpdated == Counted(old(nTransactionsUpdated), 1)
    {
      ghost var m, next := mapTx, mapNextTx;
      mapTx := mapTx[hash := tx];
      var i := 0;
      while i < |tx.vin|
        invariant 0 <= i <= |tx.vin|
        invariant mapTx == m[hash := tx] && nTransactionsUpdated == old(nTransactionsUpdated)
        invariant forall o :: o in mapNextTx <==> o in next || o in tx.vin[..i]
        invariant forall o :: o in next && o !in tx.vin[..i] ==> mapNextTx[o] == next[o]
        invariant forall k :: 0 <= k < i ==> mapNextTx[tx.vin[k]] == CInPoint(hash, k)
      {
        assert tx.vin[..i + 1] == tx.vin[..i] + [tx.vin[i]];
        mapNextTx := mapNextTx[tx.vin[i] := CInPoint(hash, i)];
        i := i + 1;
      }
      assert tx.vin[..i] == tx.vin;
      ExactWith(m, next, tx, mapNextTx);
      nTransactionsUpdated := Counted(nTransactionsUpdated, 1);
    }

    /** The pool's own part of AcceptToMemoryPool: no second copy, and no second spender of an output.  `others` are
        the tests that do not look at the pool. */
    method AcceptToMemoryPool(tx: Tx, others: bool) returns (ok: bool)
      requires Valid() && (others ==> Distinct(tx.vin))
      modifies this
      ensures Valid()
      ensures ok <==> others && tx.txid !in old(mapTx) && forall h :: h in old(mapTx) ==> SharesNoInput(old(mapTx)[h], tx)
      ensures mapTx == if ok then old(mapTx)[tx.txid := tx] else old(mapTx)
    {
      if !others || tx.txid in mapTx { return false; }
      var i := 0;
      while i < |tx.vin|
        invariant 0 <= i <= |tx.vin| && forall k :: 0 <= k < i ==> tx.vin[k] !in mapNextTx
      {
        if tx.vin[i] in mapNextTx {
          assert Points(mapTx, tx.vin[i], mapNextTx[tx.vin[i]]);
          assert !SharesNoInput(mapTx[mapNextTx[tx.vin[i]].ptx], tx);
          return false;
        }
        i := i + 1;
      }
      AddUnchecked(tx.txid, tx);
      return true;
    }

    /** Takes out a transaction, and with fRecursive first everything that descends from it.  The transaction itself
        need not be in the pool. */
    method Remove(tx: Tx, fRecursive: bool, ghost rank: Hash -> nat)
      requires Valid() && Ranked(mapTx, rank) && (tx.txid in mapTx ==> mapTx[tx.txid] == tx)
      modifies this
      ensures Valid()
      ensures mapTx == Without(old(mapTx), Family(old(mapTx), rank, tx, fRecursive))
      ensures nTransactionsUpdated == Counted(old(nTransactionsUpdated), |old(mapTx)| - |mapTx|)
      decreases set h | h in mapTx && rank(h) > rank(tx.txid), 1
    {
      hide Exact, Ranked, Descends, Closed, KeyedById, Descendants, WithoutInputs, Counted, Without, Family;
      ghost var m := mapTx;
      NotOwnDescendant(m, rank, tx);
      WithoutNone(m);
      if fRecursive { RemoveDescendants(tx, rank); }
      CountedTwice(old(nTransactionsUpdated), |m| - |mapTx|, 1);
      LastOfFamily(m, rank, tx, fRecursive, mapTx);
      if tx.txid in mapTx {
        ExactWithout(mapTx, mapNextTx, tx.txid);
        EraseInputs(tx.vin);
        mapTx := Without(mapTx, {tx.txid});
        nTransactionsUpdated := Counted(nTransactionsUpdated, 1);
      }
    }

    /** The recursive part: whoever spends an output, with everything that descends from it. */
    method RemoveDescendants(tx: Tx, ghost rank: Hash -> nat)
      requires Valid() && Ranked(mapTx, rank)
      modifies this
      ensures Valid()
      ensures mapTx == Without(old(mapTx), Descendants(old(mapTx), rank, tx))
      ensures nTransactionsUpdated == Counted(old(nTransactionsUpdated), |old(mapTx)| - |mapTx|)
      ensures tx.txid in old(mapTx) ==> tx.txid in mapTx && mapTx[tx.txid] == old(mapTx)[tx.txid]
      decreases set h | h in mapTx && rank(h) > rank(tx.txid), 0
    {
      hide Exact, Ranked, Descends, Closed, Partway, KeyedById, Descendants, WithoutInputs, Counted, Without, Family;
      ghost var m, gone := mapTx, {};
      PartwayStart(m, rank, tx);
      Keyed(m, mapNextTx);
      var i := 0;
      while i < |tx.vout|
        invariant 0 <= i <= |tx.vout| && Valid()
        invariant mapTx == Without(m, gone) && Partway(m, rank, tx, gone, i)
        invariant nTransactionsUpdated == Counted(old(nTransactionsUpdated), |m| - |mapTx|)
      {
        if OutPoint(tx.txid, i) in mapNextTx {
          var ptx := mapNextTx[OutPoint(tx.txid, i)].ptx;
          PartwayStep(m, rank, tx, gone, i, mapNextTx);
          Deeper(m, gone, rank, tx.txid, ptx);
          ghost var family := Family(mapTx, rank, mapTx[ptx], true);
          CountedTwice(old(nTransactionsUpdated), |m| - |mapTx|, |mapTx| - |Without(mapTx, family)|);
          Remove(mapTx[ptx], true, rank);
          gone := gone + family;
        } else {
          PartwaySkip(m, rank, tx, gone, i, mapNextTx);
        }
        i := i + 1;
      }
      PartwayDone(m, rank, tx, gone);
      NotOwnDescendant(m, rank, tx);
    }

    /** Takes out everything that conflicts with a transaction, and all that descends from it. */
    method RemoveConflicts(tx: Tx, ghost rank: Hash -> nat)
      requires Valid() && Ranked(mapTx, rank) && (tx.txid in mapTx ==> mapTx[tx.txid] == tx)
      modifies this
      ensures Valid()
      ensures mapTx == Without(old(mapTx), ConflictFamilies(old(mapTx), rank, tx))
      ensures forall h :: h in mapTx && h != tx.txid ==> SharesNoInput(mapTx[h], tx)
    {
      hide Exact, Ranked, Descends, Closed, KeyedById, Descendants, Counted, Without, Family, Clearing, ConflictFamilies, SharesNoInput;
      ghost var m, gone := mapTx, {};
      Keyed(m, mapNextTx);
      ClearingStart(m, rank, tx);
      var i := 0;
      while i < |tx.vin|
        invariant 0 <= i <= |tx.vin| && Valid()
        invariant mapTx == Without(m, gone) && Clearing(m, rank, tx, gone, i)
      {
        ClearingStep(m, rank, tx, gone, i, mapNextTx);
        if tx.vin[i] in mapNextTx {
          var txConflict := mapTx[mapNextTx[tx.vin[i]].ptx];
          if txConflict != tx {
            gone := gone + Family(mapTx, rank, txConflict, true);
            Remove(txConflict, true, rank);
          }
        }
        i := i + 1;
      }
      ClearingDone(m, rank, tx, gone);
    }

    /** Spends every output of `hashTx` that the pool spends. */
    method PruneSpent(hashTx: Hash, coins: Coins) returns (r: Coins)
      ensures r.fCoinBase == coins.fCoinBase
      ensures forall n: nat :: r.IsAvailable(n) <==> coins.IsAvailable(n) && OutPoint(hashTx, n) !in mapNextTx
      ensures forall n: nat :: r.IsAvailable(n) ==> coins.IsAvailable(n) && r.vout[n] == coins.vout[n]
    {
      hide SpendOut;
      r := coins;
      var rest := set o | o in mapNextTx && o.hash == hashTx;
      while rest != {}
        invariant forall o :: o in rest ==> o in mapNextTx && o.hash == hashTx
        invariant r.fCoinBase == coins.fCoinBase
        invariant forall n: nat :: r.IsAvailable(n) <==>
          coins.IsAvailable(n) && (OutPoint(hashTx, n) !in mapNextTx || OutPoint(hashTx, n) in rest)
        invariant forall n: nat :: r.IsAvailable(n) ==> coins.IsAvailable(n) && r.vout[n] == coins.vout[n]
        decreases rest
      {
        var o :| o in rest;
        if r.IsAvailable(o.n) {
          SpendOutValue(r, o.n);
          SpendOutKeeps(r, o.n);
          r := SpendOut(r, o.n);
        }
        rest := rest - {o};
      }
    }

    /** The consistency check: accepts exactly the pools whose index is exact and whose inputs are all known. */
    method Check(pcoins: Unspent) returns (ok: bool)
      requires forall o :: o in mapNextTx ==> mapNextTx[o].ptx in mapTx
      ensures KeyedById(mapTx) ==> (ok <==> Exact(mapTx, mapNextTx) && InputsKnown(mapTx, pcoins))
    {
      hide InputKnown;
      var todo := mapTx.Keys;
      while todo != {}
        invariant forall h :: h in todo ==> h in mapTx
        invariant forall h :: h in mapTx && h !in todo ==> InputsChecked(mapTx, mapNextTx, pcoins, h)
        decreases todo
      {
        var h :| h in todo;
        var inputsOk := CheckInputs(pcoins, h);
        if !inputsOk { return false; }
        todo := todo - {h};
      }
      var points := mapNextTx.Keys;
      while points != {}
        invariant forall o :: o in points ==> o in mapNextTx
        invariant forall o :: o in mapNextTx && o !in points ==> PointChecked(mapTx, o, mapNextTx[o])
        decreases points
      {
        var o :| o in points;
        if !PointChecked(mapTx, o, mapNextTx[o]) { return false; }
        points := points - {o};
      }
      if KeyedById(mapTx) { AllChecked(mapTx, mapNextTx, pcoins); }
      return true;
    }

    method CheckInputs(pcoins: Unspent, h: Hash) returns (ok: bool)
      requires h in mapTx
      ensures ok <==> InputsChecked(mapTx, mapNextTx, pcoins, h)
    {
      hide InputKnown;
      var tx, i := mapTx[h], 0;
      while i < |tx.vin|
        invariant 0 <= i <= |tx.vin|
        invariant forall k :: 0 <= k < i ==> InputChecked(mapTx, mapNextTx, pcoins, tx.vin[k], CInPoint(h, k))
      {
        if !InputChecked(mapTx, mapNextTx, pcoins, tx.vin[i], CInPoint(h, i)) { return false; }
        i := i + 1;
      }
      return true;
    }

    method EraseInputs(vin: seq<OutPoint>)
      modifies this`mapNextTx
      ensures mapNextTx == WithoutInputs(old(mapNextTx), vin)
    {
      var i := 0;
      while i < |vin|
        invariant 0 <= i <= |vin|
        invariant forall o :: o in mapNextTx <==> o in old(mapNextTx) && o !in vin[..i]
        invariant forall o :: o in mapNextTx ==> mapNextTx[o] == old(mapNextTx)[o]
      {
        assert vin[..i + 1] == vin[..i] + [vin[i]];
        mapNextTx := mapNextTx - {vin[i]};
        i := i + 1;
      }
      assert vin[..i] == vin;
    }
  }

  predicate InputChecked(m: Pool, next: NextTx, coins: Unspent, o: OutPoint, p: CInPoint) {
    InputKnown(m, coins, o) && o in next && next[o].ptx == p.ptx && next[o].n == p.n
  }

  predicate InputsChecked(m: Pool, next: NextTx, coins: Unspent, h: Hash)
    requires h in m
  {
    forall i :: 0 <= i < |m[h].vin| ==> InputChecked(m, next, coins, m[h].vin[i], CInPoint(h, i))
  }

  /** The entry found under the id of the transaction is the one pointed to, and it has that input. */
  predicate PointChecked(m: Pool, o: OutPoint, p: CInPoint)
    requires p.ptx in m
  {
    var hash := m[p.ptx].txid;
    hash in m && hash == p.ptx && |m[hash].vin| > p.n && o == m[p.ptx].vin[p.n]
  }

  lemma AllChecked(m: Pool, next: NextTx, coins: Unspent)
    requires KeyedById(m) && forall o :: o in next ==> next[o].ptx in m
    ensures ((forall h :: h in m ==> InputsChecked(m, next, coins, h))
             && (forall o :: o in next ==> PointChecked(m, o, next[o])))
            <==> Exact(m, next) && InputsKnown(m, coins)
  {
    hide InputKnown;
    if forall h :: h in m ==> InputsChecked(m, next, coins, h) {
      forall h, i | h in m && 0 <= i < |m[h].vin|
        ensures InputKnown(m, coins, m[h].vin[i]) && m[h].vin[i] in next && next[m[h].vin[i]] == CInPoint(h, i)
      {
        assert InputsChecked(m, next, coins, h);
        assert InputChecked(m, next, coins, m[h].vin[i], CInPoint(h, i));
      }
    }
    forall o | o in next ensures PointChecked(m, o, next[o]) <==> Points(m, o, next[o]) {}
  }

  lemma SpendOutKeeps(c: Coins, n: nat)
    requires n < |c.vout|
    ensures SpendOut(c, n).fCoinBase == c.fCoinBase
  {
  }

  ghost predicate Conflicts(m: Pool, tx: Tx, c: Hash) {
    c in m && c != tx.txid && !SharesNoInput(m[c], tx)
  }

  /** Everything that conflicts with `tx`, and everything that descends from that. */
  ghost function ConflictFamilies(m: Pool, rank: Hash -> nat, tx: Tx): set<Hash>
    requires Ranked(m, rank)
  {
    set b | b in m && exists c :: Conflicts(m, tx, c) && (b == c || b in Descendants(m, rank, m[c]))
  }

  /** Where the loop over the inputs stands: what is gone is closed, is made of conflicting families only, and has
      every other spender of the first `k` inputs. */
  ghost predicate Clearing(m: Pool, rank: Hash -> nat, tx: Tx, gone: set<Hash>, k: nat)
    requires Ranked(m, rank) && k <= |tx.vin|
  {
    && Closed(m, gone) && gone <= ConflictFamilies(m, rank, tx)
    && forall b, j :: b in m && b != tx.txid && 0 <= j < k && tx.vin[j] in m[b].vin ==> b in gone
  }

  lemma ClearingStart(m: Pool, rank: Hash -> nat, tx: Tx)
    requires Ranked(m, rank)
    ensures Clearing(m, rank, tx, {}, 0) && Without(m, {}) == m
  {
  }

  lemma ClearingDone(m: Pool, rank: Hash -> nat, tx: Tx, gone: set<Hash>)
    requires Ranked(m, rank) && KeyedById(m) && Clearing(m, rank, tx, gone, |tx.vin|)
    ensures gone == ConflictFamilies(m, rank, tx)
    ensures forall h :: h in Without(m, gone) && h != tx.txid ==> SharesNoInput(Without(m, gone)[h], tx)
  {
    hide Ranked, Descendants, KeyedById;
    forall c | c in m && c != tx.txid && !SharesNoInput(m[c], tx) ensures c in gone {
      var i, j :| 0 <= i < |m[c].vin| && 0 <= j < |tx.vin| && m[c].vin[i] == tx.vin[j];
      assert tx.vin[j] in m[c].vin;
    }
    forall b | b in ConflictFamilies(m, rank, tx) ensures b in gone {
      var c :| Conflicts(m, tx, c) && (b == c || b in Descendants(m, rank, m[c]));
      if b != c { LeastFamily(m, rank, gone, c, b); }
    }
  }

  lemma LeastFamily(m: Pool, rank: Hash -> nat, s: set<Hash>, c: Hash, b: Hash)
    requires Ranked(m, rank) && KeyedById(m) && Closed(m, s) && c in m && c in s && b in Descendants(m, rank, m[c])
    ensures b in s
  {
    DescendantsLeast(m, rank, m[c], s, b);
  }

  lemma ClearingStep(m: Pool, rank: Hash -> nat, tx: Tx, gone: set<Hash>, k: nat, next: NextTx)
    requires Ranked(m, rank) && KeyedById(m) && k < |tx.vin| && Clearing(m, rank, tx, gone, k)
    requires Exact(Without(m, gone), next) && (tx.txid in m ==> m[tx.txid] == tx)
    ensures var o, w := tx.vin[k], Without(m, gone);
      && Ranked(w, rank)
      && (o !in next ==> Clearing(m, rank, tx, gone, k + 1))
      && (o in next ==> var c := next[o].ptx;
            && c in w && w[c].txid == c
            && (w[c] == tx ==> Clearing(m, rank, tx, gone, k + 1))
            && (w[c] != tx ==> var family := Family(w, rank, w[c], true);
                  Without(w, family) == Without(m, gone + family) && Clearing(m, rank, tx, gone + family, k + 1)))
  {
    hide Ranked, Descendants, Closed, KeyedById, Exact, SharesNoInput;
    var o, w := tx.vin[k], Without(m, gone);
    RankedSub(m, rank, gone);
    OthersGone(m, gone, next, o);
    if o in next {
      var c := next[o].ptx;
      if w[c] != tx {
        assert c in m && m[c] == w[c];
        DescendantsWithout(m, rank, gone, m[c]);
        FamilyClosed(m, rank, c);
        var family, whole := Family(w, rank, w[c], true), {c} + Descendants(m, rank, m[c]);
        assert gone + family == gone + whole;
        ClosedUnion(m, gone, whole);
        ConflictFound(m, tx, c, o);
        assert Conflicts(m, tx, c);
        FamilyInPool(m, rank, c);
        WithoutTwice(m, gone, family);
      }
    }
  }

  lemma FamilyInPool(m: Pool, rank: Hash -> nat, c: Hash)
    requires Ranked(m, rank) && c in m
    ensures forall b :: b in Descendants(m, rank, m[c]) ==> b in m
  {
  }

  lemma ConflictFound(m: Pool, tx: Tx, c: Hash, o: OutPoint)
    requires c in m && o in m[c].vin && o in tx.vin
    ensures !SharesNoInput(m[c], tx)
  {
  }

  /** Whoever in the pool spends an output is gone, or is the one the index finds. */
  lemma OthersGone(m: Pool, gone: set<Hash>, next: NextTx, o: OutPoint)
    requires Exact(Without(m, gone), next)
    ensures o !in next ==> forall b :: b in m && o in m[b].vin ==> b in gone
    ensures o in next ==> var c := next[o].ptx;
      c in Without(m, gone) && m[c].txid == c && o in m[c].vin && forall b :: b in m && o in m[b].vin && b != c ==> b in gone
  {
    var w := Without(m, gone);
    if o in next { PointedAt(w, next, o); }
    forall b | b in m && o in m[b].vin && b !in gone ensures o in next && b == next[o].ptx {
      assert b in w && w[b] == m[b];
      var i :| 0 <= i < |w[b].vin| && w[b].vin[i] == o;
    }
  }

  predicate SharesNoInput(a: Tx, b: Tx) {
    forall i, j :: 0 <= i < |a.vin| && 0 <= j < |b.vin| ==> a.vin[i] != b.vin[j]
  }

  /** After the descendants, at most the transaction itself is left to go. */
  lemma LastOfFamily(m: Pool, rank: Hash -> nat, tx: Tx, fRecursive: bool, w: Pool)
    requires Ranked(m, rank) && w == if fRecursive then Without(m, Descendants(m, rank, tx)) else m
    ensures tx.txid in w ==>
      Without(w, {tx.txid}) == Without(m, Family(m, rank, tx, fRecursive)) && |Without(w, {tx.txid})| == |w| - 1
    ensures tx.txid !in w ==> w == Without(m, Family(m, rank, tx, fRecursive))
  {
    hide Ranked, Descendants, Without;
    var h, d := tx.txid, if fRecursive then Descendants(m, rank, tx) else {};
    WithoutNone(m);
    WithoutTwice(m, d, {h});
    assert d + {h} == Family(m, rank, tx, fRecursive);
    WithoutOne(w, h);
  }

  lemma WithoutOne(w: Pool, h: Hash)
    ensures if h in w then |Without(w, {h})| == |w| - 1 else Without(w, {h}) == w
  {
    var r := w - {h};
    if h in w {
      assert w.Keys == r.Keys + {h};
      assert |w| == |w.Keys| && |r| == |r.Keys|;
    }
  }

  lemma Keyed(m: Pool, next: NextTx)
    requires Exact(m, next)
    ensures KeyedById(m)
  {
  }

  lemma NotOwnDescendant(m: Pool, rank: Hash -> nat, tx: Tx)
    requires Ranked(m, rank)
    ensures tx.txid !in Descendants(m, rank, tx)
    ensures tx.txid in m <==> tx.txid in Without(m, Descendants(m, rank, tx))
    ensures tx.txid in m ==> Without(m, Descendants(m, rank, tx))[tx.txid] == m[tx.txid]
  {
    var all := Descendants(m, rank, tx);
    forall b | b in all ensures b != tx.txid { DescendsRank(m, rank, b, tx); }
    assert tx.txid !in all;
  }

  lemma WithoutNone(m: Pool)
    ensures Without(m, {}) == m
  {
  }

  /** The measure of the recursion: fewer transactions rank above a descendant. */
  lemma Deeper(m: Pool, gone: set<Hash>, rank: Hash -> nat, h: Hash, c: Hash)
    requires c in Without(m, gone) && rank(c) > rank(h)
    ensures (set k | k in Without(m, gone) && rank(k) > rank(c)) < (set k | k in m && rank(k) > rank(h))
  {
    var w := Without(m, gone);
    var above, higher := set k | k in m && rank(k) > rank(h), set k | k in w && rank(k) > rank(c);
    forall k | k in higher ensures k in above { assert k in m; }
    assert c in m && c in above && c !in higher;
  }

  /** Recursive removal leaves no transaction behind without its inputs. */
  lemma RemoveKeepsInputs(m: Pool, rank: Hash -> nat, tx: Tx, coins: Unspent)
    requires Ranked(m, rank) && KeyedById(m) && InputsKnown(m, coins) && (tx.txid in m ==> m[tx.txid] == tx)
    ensures InputsKnown(Without(m, Family(m, rank, tx, true)), coins)
  {
    hide InputsKnown, Descends;
    if tx.txid in m {
      FamilyClosed(m, rank, tx.txid);
      InputsStayKnown(m, coins, Family(m, rank, tx, true));
    } else {
      DescendantsClosed(m, rank, tx);
      InputsStayKnown(m, coins, Descendants(m, rank, tx));
      assert Without(m, Family(m, rank, tx, true)) == m - Descendants(m, rank, tx);
    }
  }
}
