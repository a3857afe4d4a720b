/**
 The spend graph of the memory pool: which transactions descend from which, and the index of
 inputs that goes with a set of transactions (src/txmempool.h).
 */
module MempoolState {
  import opened Transactions
  import opened UtxoState

  type Pool = map<Hash, Tx>

  /** The transaction an entry of the index points to, named by its id, and which of its inputs. */
  datatype CInPoint = CInPoint(ptx: Hash, n: nat)

  type NextTx = map<OutPoint, CInPoint>

  /** The index is exact: every input of every transaction is there, and nothing else. */
  ghost predicate Exact(m: Pool, next: NextTx) {
    && (forall h :: h in m ==> m[h].txid == h)
    && (forall h, i :: h in m && 0 <= i < |m[h].vin| ==> m[h].vin[i] in next && next[m[h].vin[i]] == CInPoint(h, i))
    && (forall o :: o in next ==> Points(m, o, next[o]))
  }

  predicate Points(m: Pool, o: OutPoint, p: CInPoint) {
    p.ptx in m && p.n < |m[p.ptx].vin| && m[p.ptx].vin[p.n] == o
  }

  /** A pool has only one exact index. */
  lemma IndexIsUnique(m: Pool, next: NextTx, other: NextTx)
    requires Exact(m, next) && Exact(m, other)
    ensures next == other
  {
    forall o | o in next ensures o in other && other[o] == next[o] { assert Points(m, o, next[o]); }
    forall o | o in other ensures o in next { assert Points(m, o, other[o]); }
  }

  /** Each input is spent by only one transaction. */
  lemma NoDoubleSpend(m: Pool, next: NextTx, a: Hash, b: Hash, o: OutPoint)
    requires Exact(m, next) && a in m && b in m && o in m[a].vin && o in m[b].vin
    ensures a == b
  {
    var i :| 0 <= i < |m[a].vin| && m[a].vin[i] == o;
    var j :| 0 <= j < |m[b].vin| && m[b].vin[j] == o;
  }

  // ---- Descendants ----

  /** Ids are hashes of what they name, so no transaction comes before what it spends. */
  ghost predicate Ranked(m: Pool, rank: Hash -> nat) {
    forall h, i :: h in m && 0 <= i < |m[h].vin| ==> rank(m[h].vin[i].hash) < rank(h)
  }

  /** `o` is one of the outputs of `tx`. */
  predicate OutputOf(o: OutPoint, tx: Tx) {
    o.hash == tx.txid && o.n < |tx.vout|
  }

  ghost predicate Spends(m: Pool, b: Hash, tx: Tx)
    requires b in m
  {
    exists i :: 0 <= i < |m[b].vin| && OutputOf(m[b].vin[i], tx)
  }

  /** `b` spends an output of `tx`, or of something in the pool that descends from `tx`. */
  ghost predicate Descends(m: Pool, rank: Hash -> nat, b: Hash, tx: Tx)
    requires Ranked(m, rank) && b in m
    decreases rank(b)
  {
    Spends(m, b, tx)
    || exists i :: 0 <= i < |m[b].vin| && m[b].vin[i].hash in m && OutputOf(m[b].vin[i], m[m[b].vin[i].hash])
         && Descends(m, rank, m[b].vin[i].hash, tx)
  }

  ghost function Descendants(m: Pool, rank: Hash -> nat, tx: Tx): set<Hash>
    requires Ranked(m, rank)
  {
    set b | b in m && Descends(m, rank, b, tx)
  }

  /** What spends a member of the set is in the set. */
  ghost predicate Closed(m: Pool, s: set<Hash>) {
    forall a, b :: a in s && a in m && b in m && Spends(m, b, m[a]) ==> b in s
  }

  ghost predicate KeyedById(m: Pool) {
    forall h :: h in m ==> m[h].txid == h
  }

  lemma DescendantsClosed(m: Pool, rank: Hash -> nat, tx: Tx)
    requires Ranked(m, rank) && KeyedById(m)
    ensures Closed(m, Descendants(m, rank, tx))
    ensures forall b :: b in m && Spends(m, b, tx) ==> b in Descendants(m, rank, tx)
  {
    forall a, b | a in Descendants(m, rank, tx) && b in m && Spends(m, b, m[a]) ensures Descends(m, rank, b, tx) {
      var i :| 0 <= i < |m[b].vin| && OutputOf(m[b].vin[i], m[a]);
      assert m[b].vin[i].hash == a;
    }
  }

  /** The descendants are the least set that is closed and has the direct spenders. */
  lemma {:induction false} DescendantsLeast(m: Pool, rank: Hash -> nat, tx: Tx, s: set<Hash>, b: Hash)
    requires Ranked(m, rank) && KeyedById(m) && Closed(m, s) && (forall c :: c in m && Spends(m, c, tx) ==> c in s)
    requires b in m && Descends(m, rank, b, tx)
    ensures b in s
    decreases rank(b)
  {
    if !Spends(m, b, tx) {
      var i :| 0 <= i < |m[b].vin| && m[b].vin[i].hash in m && OutputOf(m[b].vin[i], m[m[b].vin[i].hash])
        && Descends(m, rank, m[b].vin[i].hash, tx);
      DescendantsLeast(m, rank, tx, s, m[b].vin[i].hash);
      assert Spends(m, b, m[m[b].vin[i].hash]);
    }
  }

  lemma {:induction false} DescendsRank(m: Pool, rank: Hash -> nat, b: Hash, tx: Tx)
    requires Ranked(m, rank) && b in m && Descends(m, rank, b, tx)
    ensures rank(tx.txid) < rank(b)
    decreases rank(b)
  {
    if !Spends(m, b, tx) {
      var i :| 0 <= i < |m[b].vin| && m[b].vin[i].hash in m && OutputOf(m[b].vin[i], m[m[b].vin[i].hash])
        && Descends(m, rank, m[b].vin[i].hash, tx);
      DescendsRank(m, rank, m[b].vin[i].hash, tx);
    }
  }

  lemma RankedSub(m: Pool, rank: Hash -> nat, s: set<Hash>)
    requires Ranked(m, rank)
    ensures Ranked(m - s, rank)
  {
  }

  /** Taking a closed set out of the pool takes just that out of everyone's descendants. */
  lemma {:induction false} DescendsWithout(m: Pool, rank: Hash -> nat, s: set<Hash>, b: Hash, tx: Tx)
    requires Ranked(m, rank) && Ranked(m - s, rank) && KeyedById(m) && Closed(m, s) && b in m - s
    ensures Descends(m - s, rank, b, tx) <==> Descends(m, rank, b, tx)
    decreases rank(b)
  {
    hide Closed, KeyedById;
    var w := m - s;
    assert w[b] == m[b];
    assert Spends(w, b, tx) <==> Spends(m, b, tx);
    forall i | 0 <= i < |m[b].vin| && m[b].vin[i].hash in m && OutputOf(m[b].vin[i], m[m[b].vin[i].hash])
      ensures m[b].vin[i].hash in w && (Descends(w, rank, m[b].vin[i].hash, tx) <==> Descends(m, rank, m[b].vin[i].hash, tx))
    {
      ParentStays(m, s, b, i);
      DescendsWithout(m, rank, s, m[b].vin[i].hash, tx);
    }
  }

  lemma ParentStays(m: Pool, s: set<Hash>, b: Hash, i: nat)
    requires KeyedById(m) && Closed(m, s) && b in m - s && i < |m[b].vin|
    requires m[b].vin[i].hash in m && OutputOf(m[b].vin[i], m[m[b].vin[i].hash])
    ensures m[b].vin[i].hash in m - s && (m - s)[m[b].vin[i].hash] == m[m[b].vin[i].hash]
  {
    assert Spends(m, b, m[m[b].vin[i].hash]);
  }

  lemma DescendantsWithout(m: Pool, rank: Hash -> nat, s: set<Hash>, tx: Tx)
    requires Ranked(m, rank) && Ranked(m - s, rank) && KeyedById(m) && Closed(m, s)
    ensures Descendants(m - s, rank, tx) == Descendants(m, rank, tx) - s
  {
    hide Closed, KeyedById, Descends, Ranked;
    forall b | b in m - s ensures Descends(m - s, rank, b, tx) <==> Descends(m, rank, b, tx) {
      DescendsWithout(m, rank, s, b, tx);
    }
  }

  /** A transaction of the pool together with its descendants is closed. */
  lemma FamilyClosed(m: Pool, rank: Hash -> nat, c: Hash)
    requires Ranked(m, rank) && KeyedById(m) && c in m
    ensures Closed(m, {c} + Descendants(m, rank, m[c]))
  {
    DescendantsClosed(m, rank, m[c]);
  }

  lemma ClosedUnion(m: Pool, s: set<Hash>, r: set<Hash>)
    requires Closed(m, s) && Closed(m, r)
    ensures Closed(m, s + r)
  {
  }

  /** What descends from a descendant is a descendant. */
  lemma FamilyWithin(m: Pool, rank: Hash -> nat, tx: Tx, c: Hash)
    requires Ranked(m, rank) && KeyedById(m) && c in m && c in Descendants(m, rank, tx)
    ensures {c} + Descendants(m, rank, m[c]) <= Descendants(m, rank, tx)
  {
    DescendantsClosed(m, rank, tx);
    forall b | b in Descendants(m, rank, m[c]) ensures b in Descendants(m, rank, tx) {
      DescendantsLeast(m, rank, m[c], Descendants(m, rank, tx), b);
    }
  }

  // ---- Inputs that are there to be spent ----

  /** Every input of the pool is an output of the pool or an unspent coin. */
  ghost predicate InputsKnown(m: Pool, coins: Unspent) {
    forall h, i :: h in m && 0 <= i < |m[h].vin| ==> InputKnown(m, coins, m[h].vin[i])
  }

  predicate InputKnown(m: Pool, coins: Unspent, o: OutPoint) {
    if o.hash in m then o.n < |m[o.hash].vout| && !m[o.hash].vout[o.n].IsNull() else Available(coins, o)
  }

  /** Taking out a closed set leaves no transaction behind without its inputs. */
  lemma InputsStayKnown(m: Pool, coins: Unspent, s: set<Hash>)
    requires InputsKnown(m, coins) && KeyedById(m) && Closed(m, s)
    ensures InputsKnown(m - s, coins)
  {
    var w := m - s;
    forall h, i | h in w && 0 <= i < |w[h].vin| ensures InputKnown(w, coins, w[h].vin[i]) {
      var o := w[h].vin[i];
      assert InputKnown(m, coins, m[h].vin[i]);
      if o.hash in m { ParentStays(m, s, h, i); }
    }
  }
}
