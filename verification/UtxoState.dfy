/**
 The set of unspent outputs: src/coins.h, src/coins.cpp, and UpdateCoins in src/main.cpp.

 An unspent set maps transaction ids to the outputs that are left of them.  `Total` is
 all the money in it.  Spending and adding outputs are functions here, with the lemmas
 that account for every coin; the cache and the block loop are in Utxo.
 */
module UtxoState {
  import opened Transactions

  type Unspent = map<Hash, Coins>

  // ---- The outputs of one transaction ----

  /** The money in a list of outputs; spent ones count nothing. */
  function ValueOf(vout: seq<TxOut>): int {
    if vout == [] then 0 else (if vout[0].IsNull() then 0 else vout[0].nValue) + ValueOf(vout[1..])
  }

  lemma {:induction false} ValueLast(vout: seq<TxOut>, o: TxOut)
    ensures ValueOf(vout + [o]) == ValueOf(vout) + if o.IsNull() then 0 else o.nValue
  {
    if vout == [] {
      assert vout + [o] == [o] && [o][1..] == [];
    } else {
      assert (vout + [o])[1..] == vout[1..] + [o];
      ValueLast(vout[1..], o);
    }
  }

  lemma {:induction false} ValueTrim(vout: seq<TxOut>)
    ensures ValueOf(Trim(vout)) == ValueOf(vout)
    decreases |vout|
  {
    if vout != [] && vout[|vout| - 1].IsNull() {
      ValueTrim(vout[..|vout| - 1]);
      ValueLast(vout[..|vout| - 1], vout[|vout| - 1]);
      assert vout[..|vout| - 1] + [vout[|vout| - 1]] == vout;
    }
  }

  lemma {:induction false} ValueSpent(vout: seq<TxOut>, n: nat)
    requires n < |vout| && !vout[n].IsNull()
    ensures ValueOf(vout[n := NULL_OUT]) == ValueOf(vout) - vout[n].nValue
  {
    if n == 0 {
      assert vout[0 := NULL_OUT][1..] == vout[1..];
    } else {
      assert vout[n := NULL_OUT][1..] == vout[1..][n - 1 := NULL_OUT];
      ValueSpent(vout[1..], n - 1);
    }
  }

  /** Spends one output. */
  function SpendOut(c: Coins, n: nat): Coins
    requires n < |c.vout|
  {
    c.(vout := Trim(c.vout[n := NULL_OUT]))
  }

  lemma SpendOutValue(c: Coins, n: nat)
    requires c.IsAvailable(n)
    ensures ValueOf(SpendOut(c, n).vout) == ValueOf(c.vout) - c.vout[n].nValue
    ensures forall k: nat :: SpendOut(c, n).IsAvailable(k) <==> k != n && c.IsAvailable(k)
    ensures forall k: nat :: SpendOut(c, n).IsAvailable(k) ==> SpendOut(c, n).vout[k] == c.vout[k]
  {
    ValueSpent(c.vout, n);
    ValueTrim(c.vout[n := NULL_OUT]);
    var nulled := c.vout[n := NULL_OUT];
    assert NULL_OUT.IsNull();
    forall k: nat ensures SpendOut(c, n).IsAvailable(k) <==> k != n && c.IsAvailable(k) {
      if k < |Trim(nulled)| { assert Trim(nulled)[k] == nulled[k]; } else if k < |nulled| { assert nulled[k].IsNull(); }
    }
    forall k: nat | SpendOut(c, n).IsAvailable(k) ensures SpendOut(c, n).vout[k] == c.vout[k] {
      assert Trim(nulled)[k] == nulled[k];
    }
  }

  /** What a transaction leaves in the set: its outputs, without those that can never be spent. */
  function Spendable(vout: seq<TxOut>): seq<TxOut> {
    if vout == [] then [] else [if vout[0].IsUnspendable() then NULL_OUT else vout[0]] + Spendable(vout[1..])
  }

  function CoinsOf(tx: Tx): Coins {
    Coins(tx.IsCoinBase(), Trim(Spendable(tx.vout)), tx.nVersion)
  }

  ghost predicate GoodOuts(vout: seq<TxOut>) {
    forall i :: 0 <= i < |vout| ==> vout[i].IsNull() || MoneyRange(vout[i].nValue)
  }

  lemma {:induction false} SpendableValue(vout: seq<TxOut>)
    requires forall i :: 0 <= i < |vout| ==> MoneyRange(vout[i].nValue)
    ensures 0 <= ValueOf(Spendable(vout)) <= ValueOf(vout) && GoodOuts(Spendable(vout))
  {
    if vout != [] {
      SpendableValue(vout[1..]);
      var rest := Spendable(vout[1..]);
      assert Spendable(vout)[1..] == rest;
      forall i | 0 <= i < |Spendable(vout)|
        ensures Spendable(vout)[i].IsNull() || MoneyRange(Spendable(vout)[i].nValue)
      {
        if i > 0 { assert Spendable(vout)[i] == rest[i - 1]; }
      }
    }
  }

  lemma {:induction false} ValueNonNegative(vout: seq<TxOut>)
    requires GoodOuts(vout)
    ensures ValueOf(vout) >= 0
  {
    if vout != [] { ValueNonNegative(vout[1..]); }
  }

  // ---- All the money ----

  ghost function Total(u: Unspent): int
    decreases |u|
  {
    if u.Keys == {} then 0
    else
      var k :| k in u.Keys;
      assert u.Keys == (u - {k}).Keys + {k};
      ValueOf(u[k].vout) + Total(u - {k})
  }

  lemma {:induction false} TotalRemove(u: Unspent, k: Hash)
    requires k in u
    ensures Total(u) == ValueOf(u[k].vout) + Total(u - {k})
    decreases |u|
  {
    hide ValueOf;
    var c :| c in u.Keys && Total(u) == ValueOf(u[c].vout) + Total(u - {c});
    if c != k {
      assert u.Keys == (u - {c}).Keys + {c};
      assert u.Keys == (u - {k}).Keys + {k};
      TotalRemove(u - {c}, k);
      TotalRemove(u - {k}, c);
      assert (u - {c}) - {k} == (u - {k}) - {c};
    }
  }

  lemma TotalUpdate(u: Unspent, k: Hash, c: Coins)
    ensures Total(u[k := c]) == Total(u) - (if k in u then ValueOf(u[k].vout) else 0) + ValueOf(c.vout)
  {
    hide ValueOf, Total;
    TotalRemove(u[k := c], k);
    if k in u {
      TotalRemove(u, k);
      assert u[k := c] - {k} == u - {k};
    } else {
      assert u[k := c] - {k} == u;
    }
  }

  ghost predicate Good(u: Unspent) {
    forall k :: k in u ==> GoodOuts(u[k].vout)
  }

  lemma {:induction false} TotalNonNegative(u: Unspent)
    requires Good(u)
    ensures Total(u) >= 0
    decreases |u|
  {
    if u.Keys != {} {
      var k :| k in u.Keys;
      TotalRemove(u, k);
      ValueNonNegative(u[k].vout);
      assert u.Keys == (u - {k}).Keys + {k};
      TotalNonNegative(u - {k});
    }
  }

  // ---- Spending the inputs of a transaction ----

  predicate Available(u: Unspent, o: OutPoint) {
    o.hash in u && u[o.hash].IsAvailable(o.n)
  }

  predicate AllAvailable(u: Unspent, vin: seq<OutPoint>) {
    forall i :: 0 <= i < |vin| ==> Available(u, vin[i])
  }

  predicate Distinct(vin: seq<OutPoint>) {
    forall i, j :: 0 <= i < j < |vin| ==> vin[i] != vin[j]
  }

  function Spent(u: Unspent, o: OutPoint): Unspent
    requires Available(u, o)
  {
    u[o.hash := SpendOut(u[o.hash], o.n)]
  }

  /** Spending one output leaves every other one, and its value, as it was. */
  lemma SpentOthers(u: Unspent, o: OutPoint, other: OutPoint)
    requires Available(u, o) && other != o
    ensures Available(Spent(u, o), other) <==> Available(u, other)
    ensures Available(u, other) ==> Spent(u, o)[other.hash].vout[other.n] == u[other.hash].vout[other.n]
  {
    SpendOutValue(u[o.hash], o.n);
  }

  lemma SpentTotal(u: Unspent, o: OutPoint)
    requires Available(u, o)
    ensures Total(Spent(u, o)) == Total(u) - u[o.hash].vout[o.n].nValue
    ensures Good(u) ==> Good(Spent(u, o))
  {
    hide Total;
    SpendOutValue(u[o.hash], o.n);
    TotalUpdate(u, o.hash, SpendOut(u[o.hash], o.n));
  }

  /** The exact sum of the inputs of a transaction. */
  function ValueIn(u: Unspent, vin: seq<OutPoint>): int
    requires AllAvailable(u, vin)
  {
    if vin == [] then 0 else u[vin[0].hash].vout[vin[0].n].nValue + ValueIn(u, vin[1..])
  }

  lemma SpentAvailable(u: Unspent, vin: seq<OutPoint>)
    requires vin != [] && Distinct(vin) && AllAvailable(u, vin)
    ensures AllAvailable(Spent(u, vin[0]), vin[1..]) && Distinct(vin[1..])
  {
    forall i | 0 <= i < |vin[1..]| ensures Available(Spent(u, vin[0]), vin[1..][i]) {
      SpentOthers(u, vin[0], vin[i + 1]);
    }
  }

  function SpendAll(u: Unspent, vin: seq<OutPoint>): Unspent
    requires Distinct(vin) && AllAvailable(u, vin)
    decreases |vin|
  {
    if vin == [] then u else SpentAvailable(u, vin); SpendAll(Spent(u, vin[0]), vin[1..])
  }

  lemma {:induction false} ValueInAfter(u: Unspent, o: OutPoint, vin: seq<OutPoint>)
    requires Available(u, o) && AllAvailable(u, vin) && AllAvailable(Spent(u, o), vin)
    ensures ValueIn(Spent(u, o), vin) == ValueIn(u, vin)
    decreases |vin|
  {
    if vin != [] {
      if vin[0] == o { SpendOutValue(u[o.hash], o.n); }
      SpentOthers(u, o, vin[0]);
      ValueInAfter(u, o, vin[1..]);
    }
  }

  /** Spending takes exactly the value of the inputs out of the set. */
  lemma {:induction false} SpendAllTotal(u: Unspent, vin: seq<OutPoint>)
    requires Distinct(vin) && AllAvailable(u, vin)
    ensures Total(SpendAll(u, vin)) == Total(u) - ValueIn(u, vin)
    ensures Good(u) ==> Good(SpendAll(u, vin))
    decreases |vin|
  {
    hide Total, Trim;
    if vin != [] {
      SpentAvailable(u, vin);
      SpentTotal(u, vin[0]);
      ValueInAfter(u, vin[0], vin[1..]);
      SpendAllTotal(Spent(u, vin[0]), vin[1..]);
    }
  }

  // ---- Applying transactions ----

  predicate CanApply(u: Unspent, tx: Tx) {
    tx.IsCoinBase() || (Distinct(tx.vin) && AllAvailable(u, tx.vin))
  }

  /** UpdateCoins: spend the inputs, then set the outputs. */
  function Apply(u: Unspent, tx: Tx): Unspent
    requires CanApply(u, tx)
  {
    (if tx.IsCoinBase() then u else SpendAll(u, tx.vin))[tx.txid := CoinsOf(tx)]
  }

  lemma {:induction false} SpendableAt(vout: seq<TxOut>)
    ensures |Spendable(vout)| == |vout|
    ensures forall k :: 0 <= k < |vout| ==> Spendable(vout)[k] == if vout[k].IsUnspendable() then NULL_OUT else vout[k]
  {
    if vout != [] { SpendableAt(vout[1..]); }
  }

  lemma {:induction false} SpendAllOutputs(u: Unspent, vin: seq<OutPoint>, o: OutPoint)
    requires Distinct(vin) && AllAvailable(u, vin)
    ensures Available(SpendAll(u, vin), o) <==> Available(u, o) && o !in vin
    ensures Available(SpendAll(u, vin), o) ==> SpendAll(u, vin)[o.hash].vout[o.n] == u[o.hash].vout[o.n]
    decreases |vin|
  {
    hide SpendOut;
    if vin != [] {
      SpentAvailable(u, vin);
      assert Available(u, vin[0]);
      SpendAllOutputs(Spent(u, vin[0]), vin[1..], o);
      if o == vin[0] { SpendOutValue(u[o.hash], o.n); } else { SpentOthers(u, vin[0], o); }
    }
  }

  /** What can be spent after a transaction: its own outputs, save null ones and those whose script starts with
      OP_RETURN; of what other ids have left, everything but its inputs; and nothing else of its own id. */
  lemma ApplyOutputs(u: Unspent, tx: Tx, o: OutPoint)
    requires CanApply(u, tx)
    ensures o.hash == tx.txid ==>
      (Available(Apply(u, tx), o)
       <==> o.n < |tx.vout| && tx.vout[o.n].nValue != -1 && !([0x6a] <= tx.vout[o.n].scriptPubKey))
    ensures o.hash != tx.txid ==>
      (Available(Apply(u, tx), o) <==> Available(u, o) && (tx.IsCoinBase() || o !in tx.vin))
    ensures (Available(Apply(u, tx), o) ==>
      Apply(u, tx)[o.hash].vout[o.n] == if o.hash == tx.txid then tx.vout[o.n] else u[o.hash].vout[o.n])
    ensures tx.txid in Apply(u, tx) && (Apply(u, tx)[tx.txid].fCoinBase <==> tx.IsCoinBase())
    ensures Apply(u, tx)[tx.txid].nVersion == tx.nVersion
  {
    hide SpendAll, Spendable;
    if !tx.IsCoinBase() { SpendAllOutputs(u, tx.vin, o); }
    SpendableAt(tx.vout);
  }

  function Fee(u: Unspent, tx: Tx): int
    requires CanApply(u, tx)
  {
    if tx.IsCoinBase() then 0 else ValueIn(u, tx.vin) - ValueOf(tx.vout)
  }

  ghost predicate ValuesOk(tx: Tx) {
    && (forall i :: 0 <= i < |tx.vout| ==> MoneyRange(tx.vout[i].nValue))
    && MoneyRange(ValueOf(tx.vout))
  }

  /** A transaction adds at most its outputs and takes out its inputs.  (Setting the outputs of a txid that is still
      in the set would only lose money.) */
  lemma ApplyTotal(u: Unspent, tx: Tx)
    requires Good(u) && CanApply(u, tx) && ValuesOk(tx)
    ensures Good(Apply(u, tx))
    ensures tx.IsCoinBase() ==> Total(Apply(u, tx)) <= Total(u) + ValueOf(tx.vout)
    ensures !tx.IsCoinBase() ==> Total(Apply(u, tx)) <= Total(u) - Fee(u, tx) && 0 <= ValueIn(u, tx.vin) <= Total(u)
  {
    hide Total, SpendAll, ValueOf, ValueIn;
    SpendableValue(tx.vout);
    ValueTrim(Spendable(tx.vout));
    TrimGood(Spendable(tx.vout));
    var spent := u;
    if !tx.IsCoinBase() {
      SpendAllTotal(u, tx.vin);
      spent := SpendAll(u, tx.vin);
      TotalNonNegative(spent);
      ValueInNonNegative(u, tx.vin);
    }
    TotalUpdate(spent, tx.txid, CoinsOf(tx));
    if tx.txid in spent { ValueNonNegative(spent[tx.txid].vout); }
  }

  lemma TrimGood(vout: seq<TxOut>)
    requires GoodOuts(vout)
    ensures GoodOuts(Trim(vout))
  {
    forall i | 0 <= i < |Trim(vout)| ensures Trim(vout)[i].IsNull() || MoneyRange(Trim(vout)[i].nValue) {
      assert Trim(vout)[i] == vout[i];
    }
  }

  lemma {:induction false} ValueInNonNegative(u: Unspent, vin: seq<OutPoint>)
    requires Good(u) && AllAvailable(u, vin)
    ensures ValueIn(u, vin) >= 0
  {
    if vin != [] { ValueInNonNegative(u, vin[1..]); }
  }
}
