/**
 Connecting whole blocks, and chains of them: ConnectBlock and GetBlockValue in src/main.cpp.

 A block may only pay its miner the subsidy plus the fees it collects.  That one comparison
 is what keeps the money supply bounded, over whole chains; it is made in 64 bits, and so
 are the sums of inputs.  UtxoOverflow has the runs for which 64 bits are too few.
 */
module UtxoChain {
  import opened Arithmetic
  import opened Shifts
  import opened Utxo
  import opened Transactions
  import opened UtxoState

  // ---- Blocks as functions ----

  predicate CanApplyAll(u: Unspent, txs: seq<Tx>)
    decreases |txs|
  {
    txs == [] || (CanApply(u, txs[0]) && CanApplyAll(Apply(u, txs[0]), txs[1..]))
  }

  function ApplyAll(u: Unspent, txs: seq<Tx>): Unspent
    requires CanApplyAll(u, txs)
    decreases |txs|
  {
    if txs == [] then u else ApplyAll(Apply(u, txs[0]), txs[1..])
  }

  /** The fees of a list of transactions, as integers without a width. */
  function ExactFees(u: Unspent, txs: seq<Tx>): int
    requires CanApplyAll(u, txs)
    decreases |txs|
  {
    if txs == [] then 0 else Fee(u, txs[0]) + ExactFees(Apply(u, txs[0]), txs[1..])
  }

  /** All the outputs of a list of transactions. */
  function OutputsOf(txs: seq<Tx>): int {
    if txs == [] then 0 else ValueOf(txs[0].vout) + OutputsOf(txs[1..])
  }

  /** All the outputs that a list of transactions spends; a coinbase spends none. */
  function InputsOf(u: Unspent, txs: seq<Tx>): int
    requires CanApplyAll(u, txs)
    decreases |txs|
  {
    if txs == [] then 0
    else (if txs[0].IsCoinBase() then 0 else ValueIn(u, txs[0].vin)) + InputsOf(Apply(u, txs[0]), txs[1..])
  }

  /** BIP 30: no transaction of the block has outputs left from an earlier one of the same id. */
  predicate NoOverwrite(u: Unspent, txs: seq<Tx>) {
    forall i :: 0 <= i < |txs| ==> !(txs[i].txid in u && u[txs[i].txid].vout != [])
  }

  /** What it takes for a block to connect.  `others` stands for the tests that money has no part in: scripts and
      signature operation counts. */
  predicate Connects(u: Unspent, b: Block, height: nat, interval: nat, bip30: bool, others: bool)
    requires interval > 0 && height < 64 * interval
  {
    b.isGenesis || (
      && BlockOk(b) && others
      && (bip30 ==> NoOverwrite(u, b.vtx))
      && CanApplyAll(u, b.vtx)
      && ValueOf(b.vtx[0].vout) <= BlockValue(height, interval, Wrap64(ExactFees(u, b.vtx)))
    )
  }

  /** The condition under which the 64-bit comparison of a block is the exact one. */
  ghost predicate FeesInWidth(u: Unspent, b: Block, height: nat, interval: nat)
    requires interval > 0 && (b.isGenesis || CanApplyAll(u, b.vtx))
  {
    b.isGenesis || Subsidy(height, interval) + ExactFees(u, b.vtx) >= -TWO63
  }

  /** What a block has to meet, in exact numbers: it passes the tests, overwrites nothing where that is asked, and its
      outputs are no more than its inputs and the subsidy. */
  ghost predicate Balanced(u: Unspent, b: Block, height: nat, interval: nat, bip30: bool, others: bool)
    requires interval > 0 && CanApplyAll(u, b.vtx)
  {
    && others
    && (bip30 ==> NoOverwrite(u, b.vtx))
    && OutputsOf(b.vtx) <= InputsOf(u, b.vtx) + Subsidy(height, interval)
  }

  /** A block of well-formed transactions that can be applied one after the other to money in range, with fees that
      fit the width. */
  ghost predicate Regular(u: Unspent, b: Block, height: nat, interval: nat)
    requires interval > 0
  {
    && !b.isGenesis && BlockOk(b) && CanApplyAll(u, b.vtx)
    && Good(u) && Total(u) <= MAX_MONEY && FeesInWidth(u, b, height, interval)
  }

  function After(u: Unspent, b: Block): Unspent
    requires b.isGenesis || CanApplyAll(u, b.vtx)
  {
    if b.isGenesis then u else ApplyAll(u, b.vtx)
  }

  // ---- The method ----

  method OverwritesNothing(view: CCoinsViewCache, txs: seq<Tx>) returns (ok: bool)
    modifies view`cacheCoins
    ensures view.Coins() == old(view.Coins())
    ensures ok <==> NoOverwrite(view.Coins(), txs)
  {
    var i := 0;
    while i < |txs|
      invariant 0 <= i <= |txs| && view.Coins() == old(view.Coins())
      invariant NoOverwrite(view.Coins(), txs[..i])
    {
      var have := view.FetchCoins(txs[i].txid);
      if have && view.cacheCoins[txs[i].txid].vout != [] { return false; }
      i := i + 1;
    }
    return true;
  }

  /** Where the loop over the transactions stands: `v` is the view after the first `i` of them. */
  ghost predicate Underway(u: Unspent, txs: seq<Tx>, v: Unspent, i: nat, nFees: int)
    requires i <= |txs|
  {
    && (CanApplyAll(u, txs) <==> CanApplyAll(v, txs[i..]))
    && (CanApplyAll(u, txs) ==>
          && ApplyAll(u, txs) == ApplyAll(v, txs[i..])
          && nFees == Wrap64(ExactFees(u, txs) - ExactFees(v, txs[i..])))
  }

  lemma UnderwayEnds(u: Unspent, txs: seq<Tx>, v: Unspent, nFees: int)
    ensures v == u && nFees == 0 ==> Underway(u, txs, v, 0, nFees) && nFees == Wrap64(nFees)
    ensures Underway(u, txs, v, |txs|, nFees) ==>
      CanApplyAll(u, txs) && v == ApplyAll(u, txs) && nFees == Wrap64(ExactFees(u, txs))
  {
    hide Apply, Fee, CanApply;
    assert txs[0..] == txs && txs[|txs|..] == [];
  }

  lemma UnderwayStep(u: Unspent, txs: seq<Tx>, v: Unspent, i: nat, nFees: int)
    requires i < |txs| && Underway(u, txs, v, i, nFees)
    ensures CanApplyAll(u, txs) ==> CanApply(v, txs[i])
    ensures CanApply(v, txs[i]) ==> Underway(u, txs, Apply(v, txs[i]), i + 1, Wrap64(nFees + Fee(v, txs[i])))
  {
    hide Apply, Fee, CanApply, Wrap64;
    assert txs[i..][0] == txs[i] && txs[i..][1..] == txs[i + 1..];
    if CanApplyAll(u, txs) {
      WrapSum(ExactFees(u, txs) - ExactFees(v, txs[i..]), Fee(v, txs[i]));
    }
  }

  lemma FeeInWidth(nFees: int, v: Unspent, tx: Tx)
    requires CanApply(v, tx)
    ensures !tx.IsCoinBase() ==>
      Wrap64(nFees + Wrap64(Wrap64(ValueIn(v, tx.vin)) - ValueOf(tx.vout))) == Wrap64(nFees + Fee(v, tx))
    ensures tx.IsCoinBase() && nFees == Wrap64(nFees) ==> nFees == Wrap64(nFees + Fee(v, tx))
  {
    hide Wrap64, ValueOf, ValueIn;
    if !tx.IsCoinBase() {
      WrapSum(ValueIn(v, tx.vin), -ValueOf(tx.vout));
      WrapSum(Fee(v, tx), nFees);
    }
  }

  lemma DistinctInputs(b: Block, i: nat)
    requires BlockOk(b) && i < |b.vtx|
    ensures Distinct(b.vtx[i].vin)
  {
    assert TxOk(b.vtx[i]);
  }

  /** The loop over the transactions: stops at the first whose inputs are not all there, and adds up the fees.  The
      assertion that every input can be spent never fails. */
  method ConnectTransactions(b: Block, view: CCoinsViewCache) returns (ok: bool, nFees: int)
    requires BlockOk(b)
    modifies view`cacheCoins
    ensures ok <==> CanApplyAll(old(view.Coins()), b.vtx)
    ensures (ok ==> view.Coins() == ApplyAll(old(view.Coins()), b.vtx)
                    && nFees == Wrap64(ExactFees(old(view.Coins()), b.vtx)))
  {
    hide TxOk, ValueOf, ValueIn, Apply, AllAvailable, Distinct, BlockOk, Wrap64, Underway, CanApplyAll, ApplyAll, ExactFees;
    ghost var u := view.Coins();
    nFees := 0;
    var i := 0;
    UnderwayEnds(u, b.vtx, u, nFees);
    while i < |b.vtx|
      invariant 0 <= i <= |b.vtx| && nFees == Wrap64(nFees)
      invariant Underway(u, b.vtx, view.Coins(), i, nFees)
    {
      var tx := b.vtx[i];
      UnderwayStep(u, b.vtx, view.Coins(), i, nFees);
      ghost var before, fees := view.Coins(), nFees;
      if !tx.IsCoinBase() {
        var have := view.HaveInputs(tx);
        if !have { return false, nFees; }
        DistinctInputs(b, i);
        var valueIn := view.GetValueIn(tx);
        nFees := Wrap64(nFees + Wrap64(valueIn - ValueOf(tx.vout)));
      }
      FeeInWidth(fees, before, tx);
      view.UpdateCoins(tx);
      i := i + 1;
    }
    UnderwayEnds(u, b.vtx, view.Coins(), nFees);
    return true, nFees;
  }

  /** Accepts exactly the blocks that connect, and applies all their transactions.  Of the regular ones these are the
      balanced ones. */
  method ConnectBlock(b: Block, height: nat, interval: nat, view: CCoinsViewCache, bip30: bool, others: bool)
    returns (ok: bool)
    requires interval > 0 && height < 64 * interval
    modifies view`cacheCoins
    ensures ok <==> Connects(old(view.Coins()), b, height, interval, bip30, others)
    ensures ok ==> view.Coins() == After(old(view.Coins()), b)
    ensures (Regular(old(view.Coins()), b, height, interval) ==>
      (ok <==> Balanced(old(view.Coins()), b, height, interval, bip30, others)))
  {
    hide BlockOk, ValueOf, NoOverwrite, Subsidy, Regular, Balanced, CanApplyAll, ApplyAll, ExactFees, BlockValue;
    if Regular(view.Coins(), b, height, interval) {
      BalancedConnects(view.Coins(), b, height, interval, bip30, others);
    }
    if b.isGenesis { return true; }
    var checked := CheckBlock(b);
    if !checked { return false; }
    if bip30 {
      var overwritesNothing := OverwritesNothing(view, b.vtx);
      if !overwritesNothing { return false; }
    }
    var applied, nFees := ConnectTransactions(b, view);
    if !applied || !others { return false; }
    SomeTransaction(b);
    return ValueOf(b.vtx[0].vout) <= BlockValue(height, interval, nFees);
  }

  lemma SomeTransaction(b: Block)
    requires BlockOk(b)
    ensures b.vtx != []
  {
  }

  // ---- What a block adds ----

  /** The exact balance of one transaction: what it spends goes, what it leaves comes, and what it overwrites is
      lost. */
  lemma ApplyBalance(u: Unspent, tx: Tx)
    requires CanApply(u, tx)
    ensures var spent := if tx.IsCoinBase() then u else SpendAll(u, tx.vin);
      Total(Apply(u, tx)) == Total(u) - (if tx.IsCoinBase() then 0 else ValueIn(u, tx.vin))
                             + ValueOf(Spendable(tx.vout)) - (if tx.txid in spent then ValueOf(spent[tx.txid].vout) else 0)
  {
    hide Total, SpendAll, ValueOf, ValueIn, Spendable, Trim;
    if !tx.IsCoinBase() { SpendAllTotal(u, tx.vin); }
    TotalUpdate(if tx.IsCoinBase() then u else SpendAll(u, tx.vin), tx.txid, CoinsOf(tx));
    ValueTrim(Spendable(tx.vout));
  }

  ghost predicate Ordinary(txs: seq<Tx>) {
    forall i :: 0 <= i < |txs| ==> ValuesOk(txs[i]) && !txs[i].IsCoinBase()
  }

  /** Ordinary transactions take out at least their fees, and each fee is at least -MAX_MONEY. */
  lemma {:induction false} OrdinaryTotal(u: Unspent, txs: seq<Tx>)
    requires Good(u) && CanApplyAll(u, txs) && Ordinary(txs)
    ensures Good(ApplyAll(u, txs)) && 0 <= Total(ApplyAll(u, txs)) <= Total(u) - ExactFees(u, txs)
    ensures -(|txs| * MAX_MONEY) <= ExactFees(u, txs)
    decreases |txs|
  {
    hide Total, Apply, ValueOf, ValueIn, Spendable;
    if txs == [] {
      TotalNonNegative(u);
    } else {
      assert ValuesOk(txs[0]) && !txs[0].IsCoinBase();
      ApplyTotal(u, txs[0]);
      forall i | 0 <= i < |txs[1..]| ensures ValuesOk(txs[1..][i]) && !txs[1..][i].IsCoinBase() {
        assert txs[1..][i] == txs[i + 1];
      }
      OrdinaryTotal(Apply(u, txs[0]), txs[1..]);
    }
  }

  lemma BlockParts(b: Block)
    requires BlockOk(b)
    ensures ValuesOk(b.vtx[0]) && b.vtx[0].IsCoinBase() && Ordinary(b.vtx[1..])
  {
    forall i | 0 <= i < |b.vtx| ensures ValuesOk(b.vtx[i]) { assert TxOk(b.vtx[i]); }
  }

  lemma SubsidyBound(height: nat, interval: nat)
    requires interval > 0
    ensures Subsidy(height, interval) <= SUBSIDY
  {
  }

  /** A block that connects keeps its coinbase within subsidy and fees exactly when the fees fit the width; and then
      it adds at most its subsidy to the money there is. */
  lemma BlockAdds(u: Unspent, b: Block, height: nat, interval: nat, bip30: bool)
    requires interval > 0 && height < 64 * interval && Good(u) && Total(u) <= MAX_MONEY
    requires Connects(u, b, height, interval, bip30, true)
    ensures Good(After(u, b))
    ensures b.isGenesis ==> After(u, b) == u
    ensures (!b.isGenesis ==>
      (FeesInWidth(u, b, height, interval)
       <==> ValueOf(b.vtx[0].vout) <= Subsidy(height, interval) + ExactFees(u, b.vtx)))
    ensures FeesInWidth(u, b, height, interval) ==> Total(After(u, b)) <= Total(u) + Subsidy(height, interval)
  {
    hide Total, Apply, ValueOf, ValueIn, TxOk, Subsidy;
    if b.isGenesis {
      SubsidyNonNegative(height, interval);
      return;
    }
    BlockParts(b);
    ApplyTotal(u, b.vtx[0]);
    var u1 := Apply(u, b.vtx[0]);
    OrdinaryTotal(u1, b.vtx[1..]);
    SubsidyBound(height, interval);
    var fees := ExactFees(u, b.vtx);
    assert fees == ExactFees(u1, b.vtx[1..]);
    assert fees <= 2 * MAX_MONEY;
    WrapSum(fees, Subsidy(height, interval));
    assert BlockValue(height, interval, Wrap64(fees)) == Wrap64(Subsidy(height, interval) + fees);
  }

  // ---- Outputs against inputs ----

  lemma {:induction false} OrdinaryFees(u: Unspent, txs: seq<Tx>)
    requires CanApplyAll(u, txs) && Ordinary(txs)
    ensures ExactFees(u, txs) == InputsOf(u, txs) - OutputsOf(txs)
    decreases |txs|
  {
    hide Apply, ValueOf, ValueIn, ValuesOk;
    if txs != [] {
      OrdinaryRest(txs);
      OrdinaryFees(Apply(u, txs[0]), txs[1..]);
    }
  }

  lemma OrdinaryRest(txs: seq<Tx>)
    requires txs != [] && Ordinary(txs)
    ensures ValuesOk(txs[0]) && !txs[0].IsCoinBase() && Ordinary(txs[1..])
  {
    forall i | 0 <= i < |txs[1..]| ensures ValuesOk(txs[1..][i]) && !txs[1..][i].IsCoinBase() {
      assert txs[1..][i] == txs[i + 1];
    }
  }

  /** So a block that connects keeps its outputs within its inputs and its subsidy exactly when its fees fit the
      width; outside the width it always creates more. */
  lemma BlockCreates(u: Unspent, b: Block, height: nat, interval: nat, bip30: bool)
    requires interval > 0 && height < 64 * interval && Good(u) && Total(u) <= MAX_MONEY && !b.isGenesis
    requires Connects(u, b, height, interval, bip30, true)
    ensures FeesInWidth(u, b, height, interval)
            <==> OutputsOf(b.vtx) <= InputsOf(u, b.vtx) + Subsidy(height, interval)
  {
    hide Total, Apply, ValueOf, ValueIn, TxOk, Subsidy, BlockValue, Wrap64, NoOverwrite;
    BlockAdds(u, b, height, interval, bip30);
    BlockParts(b);
    OrdinaryFees(Apply(u, b.vtx[0]), b.vtx[1..]);
  }

  /** The other way round, every regular block that is balanced connects, and no other does. */
  lemma BalancedConnects(u: Unspent, b: Block, height: nat, interval: nat, bip30: bool, others: bool)
    requires interval > 0 && height < 64 * interval && Regular(u, b, height, interval)
    ensures Connects(u, b, height, interval, bip30, others) <==> Balanced(u, b, height, interval, bip30, others)
  {
    hide Total, Apply, ValueOf, ValueIn, TxOk, Subsidy, NoOverwrite;
    BlockParts(b);
    ApplyTotal(u, b.vtx[0]);
    OrdinaryTotal(Apply(u, b.vtx[0]), b.vtx[1..]);
    OrdinaryFees(Apply(u, b.vtx[0]), b.vtx[1..]);
    SubsidyBound(height, interval);
    var fees := ExactFees(u, b.vtx);
    assert fees == ExactFees(Apply(u, b.vtx[0]), b.vtx[1..]);
    WrapSum(fees, Subsidy(height, interval));
    assert BlockValue(height, interval, Wrap64(fees)) == Wrap64(Subsidy(height, interval) + fees);
  }

  /** Fifty coins in the first period, and in every later one half of the period before, rounded down. */
  lemma HalvedSubsidy(height: nat, interval: nat)
    requires interval > 0
    ensures height < interval ==> Subsidy(height, interval) == 5_000_000_000
    ensures Subsidy(height + interval, interval) == Subsidy(height, interval) / 2
  {
    if height < interval { DivUnique(height, interval, 0, height); }
    Distribute(interval, height / interval, 1);
    DivUnique(height + interval, interval, height / interval + 1, height % interval);
  }

  ghost predicate AllSpendable(txs: seq<Tx>) {
    forall i, k :: 0 <= i < |txs| && 0 <= k < |txs[i].vout| ==> !txs[i].vout[k].IsUnspendable()
  }

  lemma {:induction false} SpendableAll(vout: seq<TxOut>)
    requires forall k :: 0 <= k < |vout| ==> !vout[k].IsUnspendable()
    ensures Spendable(vout) == vout
  {
    if vout != [] {
      SpendableAll(vout[1..]);
      assert vout == [vout[0]] + vout[1..];
    }
  }

  /** Spending leaves transactions of which nothing is left as they are. */
  lemma {:induction false} SpendAllNothing(u: Unspent, vin: seq<OutPoint>, h: Hash)
    requires Distinct(vin) && AllAvailable(u, vin) && !(h in u && u[h].vout != [])
    ensures !(h in SpendAll(u, vin) && SpendAll(u, vin)[h].vout != [])
    decreases |vin|
  {
    if vin != [] {
      SpentAvailable(u, vin);
      assert Available(u, vin[0]);
      SpendAllNothing(Spent(u, vin[0]), vin[1..], h);
    }
  }

  lemma NothingOverwritten(u: Unspent, txs: seq<Tx>)
    requires txs != [] && CanApply(u, txs[0]) && NoOverwrite(u, txs) && DifferentIds(txs)
    ensures NoOverwrite(Apply(u, txs[0]), txs[1..]) && DifferentIds(txs[1..])
    ensures var spent := if txs[0].IsCoinBase() then u else SpendAll(u, txs[0].vin);
      !(txs[0].txid in spent && spent[txs[0].txid].vout != [])
  {
    hide SpendAll, CoinsOf, Distinct, AllAvailable;
    var v, rest := Apply(u, txs[0]), txs[1..];
    forall i | 0 <= i < |txs| ensures txs[0].IsCoinBase() || !(txs[i].txid in SpendAll(u, txs[0].vin) && SpendAll(u, txs[0].vin)[txs[i].txid].vout != []) {
      if !txs[0].IsCoinBase() { SpendAllNothing(u, txs[0].vin, txs[i].txid); }
    }
    forall i | 0 <= i < |rest| ensures !(rest[i].txid in v && v[rest[i].txid].vout != []) {
      assert rest[i] == txs[i + 1];
    }
  }

  /** Where nothing is overwritten and every output can be spent, the balance is exact. */
  lemma {:induction false} AllBalance(u: Unspent, txs: seq<Tx>)
    requires CanApplyAll(u, txs) && NoOverwrite(u, txs) && DifferentIds(txs) && AllSpendable(txs)
    ensures Total(ApplyAll(u, txs)) == Total(u) - InputsOf(u, txs) + OutputsOf(txs)
    decreases |txs|
  {
    hide Total, Apply, ValueIn, SpendAll, NoOverwrite, DifferentIds, Distinct, AllAvailable;
    if txs != [] {
      NothingOverwritten(u, txs);
      ApplyBalance(u, txs[0]);
      SpendableAll(txs[0].vout);
      SpendableRest(txs);
      AllBalance(Apply(u, txs[0]), txs[1..]);
    }
  }

  lemma SpendableRest(txs: seq<Tx>)
    requires txs != [] && AllSpendable(txs)
    ensures AllSpendable(txs[1..])
  {
    forall i, k | 0 <= i < |txs[1..]| && 0 <= k < |txs[1..][i].vout| ensures !txs[1..][i].vout[k].IsUnspendable() {
      assert txs[1..][i] == txs[i + 1];
    }
  }

  /** Then the money grows by no more than the subsidy exactly when the fees fit the width. */
  lemma MoneyGrows(u: Unspent, b: Block, height: nat, interval: nat)
    requires interval > 0 && height < 64 * interval && Good(u) && Total(u) <= MAX_MONEY && !b.isGenesis
    requires Connects(u, b, height, interval, true, true) && AllSpendable(b.vtx)
    ensures FeesInWidth(u, b, height, interval) <==> Total(After(u, b)) <= Total(u) + Subsidy(height, interval)
  {
    hide Total, Apply, ValueOf, ValueIn, TxOk, Subsidy, BlockValue, Wrap64, NoOverwrite, AllSpendable, FeesInWidth;
    BlockCreates(u, b, height, interval, true);
    AllBalance(u, b.vtx);
  }

  lemma SubsidyNonNegative(height: nat, interval: nat)
    requires interval > 0
    ensures Subsidy(height, interval) >= 0
  {
  }

  /** A caller's check that rules all such blocks out: at most 4393 transactions. */
  lemma FewTransactions(u: Unspent, b: Block, height: nat, interval: nat)
    requires interval > 0 && Good(u) && (b.isGenesis || (BlockOk(b) && CanApplyAll(u, b.vtx)))
    requires |b.vtx| <= 4393
    ensures FeesInWidth(u, b, height, interval)
  {
    hide Total, Apply, ValueOf, ValueIn, TxOk, Subsidy;
    if !b.isGenesis {
      BlockParts(b);
      ApplyTotal(u, b.vtx[0]);
      OrdinaryTotal(Apply(u, b.vtx[0]), b.vtx[1..]);
      SubsidyNonNegative(height, interval);
      assert |b.vtx[1..]| * MAX_MONEY <= 4392 * MAX_MONEY;
    }
  }

  // ---- Sums of inputs ----

  /** No step of the sum over the inputs leaves the width exactly when the whole sum does not. */
  lemma InputSumFits(u: Unspent, vin: seq<OutPoint>)
    requires Good(u) && AllAvailable(u, vin)
    ensures ValueIn(u, vin) < TWO63
            <==> forall k :: 0 <= k <= |vin| ==> Wrap64(ValueIn(u, vin[..k])) == ValueIn(u, vin[..k])
  {
    hide ValueIn, Wrap64;
    assert vin[..|vin|] == vin;
    if ValueIn(u, vin) < TWO63 {
      forall k | 0 <= k <= |vin| ensures Wrap64(ValueIn(u, vin[..k])) == ValueIn(u, vin[..k]) {
        PrefixOfInputs(u, vin, k);
      }
    }
  }

  lemma {:induction false} PrefixOfInputs(u: Unspent, vin: seq<OutPoint>, k: nat)
    requires Good(u) && AllAvailable(u, vin) && k <= |vin|
    ensures 0 <= ValueIn(u, vin[..k]) <= ValueIn(u, vin)
    decreases k
  {
    if k == 0 {
      ValueInNonNegative(u, vin);
    } else {
      assert Available(u, vin[0]);
      assert vin[..k][1..] == vin[1..][..k - 1];
      PrefixOfInputs(u, vin[1..], k - 1);
    }
  }

  /** Every sum of inputs in a block is below 2^63 when it is taken. */
  predicate InputsFit(u: Unspent, txs: seq<Tx>)
    requires CanApplyAll(u, txs)
    decreases |txs|
  {
    txs == [] || (
      && (txs[0].IsCoinBase() || ValueIn(u, txs[0].vin) < TWO63)
      && InputsFit(Apply(u, txs[0]), txs[1..])
    )
  }

  lemma {:induction false} OrdinaryInputsFit(u: Unspent, txs: seq<Tx>)
    requires Good(u) && CanApplyAll(u, txs) && Ordinary(txs) && Total(u) + |txs| * MAX_MONEY < TWO63 + MAX_MONEY
    ensures InputsFit(u, txs)
    decreases |txs|
  {
    hide Total, Apply, ValueOf, ValueIn, Spendable;
    if txs != [] {
      OrdinaryRest(txs);
      ApplyTotal(u, txs[0]);
      OrdinaryInputsFit(Apply(u, txs[0]), txs[1..]);
    }
  }

  /** A caller's check for that: at most 4392 transactions. */
  lemma FewInputsFit(u: Unspent, b: Block)
    requires Good(u) && Total(u) <= MAX_MONEY && BlockOk(b) && CanApplyAll(u, b.vtx) && |b.vtx| <= 4392
    ensures InputsFit(u, b.vtx)
  {
    hide Total, Apply, ValueOf, ValueIn, TxOk;
    BlockParts(b);
    ApplyTotal(u, b.vtx[0]);
    OrdinaryInputsFit(Apply(u, b.vtx[0]), b.vtx[1..]);
  }

  // ---- Whole chains ----

  /** All the subsidies below height `n`. */
  function Supply(n: nat, interval: nat): nat
    requires interval > 0
  {
    if n == 0 then 0 else Supply(n - 1, interval) + Subsidy(n - 1, interval)
  }

  /** The most that can have been paid after `q` whole periods and `r` blocks of the next. */
  ghost function Paid(interval: nat, q: nat, r: nat): int {
    interval * (2 * (SUBSIDY - Shr(SUBSIDY, q))) + r * Shr(SUBSIDY, q)
  }

  lemma PaidNext(interval: nat, q: nat, r: nat)
    ensures Paid(interval, q, r + 1) == Paid(interval, q, r) + Shr(SUBSIDY, q)
  {
  }

  /** A whole period pays no more than the halving that ends it takes away. */
  lemma PaidPeriod(interval: nat, q: nat)
    ensures Paid(interval, q, interval) <= Paid(interval, q + 1, 0)
  {
    var s, t := Shr(SUBSIDY, q), Shr(SUBSIDY, q + 1);
    assert 2 * t <= s;
    Distribute(interval, 2 * (SUBSIDY - s), s);
    Scale(interval, 2 * (SUBSIDY - s) + s, 2 * (SUBSIDY - t));
  }

  lemma PaidBound(interval: nat, q: nat, r: nat)
    requires r <= interval <= 210_000
    ensures Paid(interval, q, r) <= MAX_MONEY
  {
    var s := Shr(SUBSIDY, q);
    Scale(s, r, interval);
    Distribute(interval, 2 * (SUBSIDY - s), s);
    Scale(interval, 2 * (SUBSIDY - s) + s, 2 * SUBSIDY);
  }

  lemma NextDivision(m: nat, d: nat)
    requires d > 0
    ensures m % d + 1 < d ==> (m + 1) / d == m / d && (m + 1) % d == m % d + 1
    ensures m % d + 1 == d ==> (m + 1) / d == m / d + 1 && (m + 1) % d == 0
  {
    if m % d + 1 < d {
      DivUnique(m + 1, d, m / d, m % d + 1);
    } else {
      Distribute(d, m / d, 1);
      DivUnique(m + 1, d, m / d + 1, 0);
    }
  }

  lemma {:induction false} SupplyPaid(n: nat, interval: nat)
    requires interval > 0
    ensures Supply(n, interval) <= Paid(interval, n / interval, n % interval)
  {
    if n == 0 {
      assert Shr(SUBSIDY, 0) == SUBSIDY;
    } else {
      hide Paid, Shr;
      SupplyPaid(n - 1, interval);
      PaidNext(interval, (n - 1) / interval, (n - 1) % interval);
      PaidPeriod(interval, (n - 1) / interval);
      NextDivision(n - 1, interval);
    }
  }

  /** However long the chain, the subsidies never add up to more than MAX_MONEY. */
  lemma SupplyBound(n: nat, interval: nat)
    requires 0 < interval <= 210_000
    ensures Supply(n, interval) <= MAX_MONEY
  {
    hide Paid, Supply;
    SupplyPaid(n, interval);
    PaidBound(interval, n / interval, n % interval);
  }

  /** A run of successful ConnectBlock calls at successive heights.  BIP 30 need not be enforced. */
  ghost predicate ChainConnects(u: Unspent, blocks: seq<Block>, height: nat, interval: nat)
    requires interval > 0
    decreases |blocks|
  {
    blocks == [] || (
      && height < 64 * interval
      && Connects(u, blocks[0], height, interval, false, true)
      && ChainConnects(After(u, blocks[0]), blocks[1..], height + 1, interval)
    )
  }

  /** A run in which the fees of every block fit the width. */
  ghost predicate ChainInWidth(u: Unspent, blocks: seq<Block>, height: nat, interval: nat)
    requires interval > 0 && ChainConnects(u, blocks, height, interval)
    decreases |blocks|
  {
    blocks == [] || (
      && FeesInWidth(u, blocks[0], height, interval)
      && ChainInWidth(After(u, blocks[0]), blocks[1..], height + 1, interval)
    )
  }

  /** A run in which every sum of inputs fits the width. */
  ghost predicate ChainInputsFit(u: Unspent, blocks: seq<Block>, height: nat, interval: nat)
    requires interval > 0 && ChainConnects(u, blocks, height, interval)
    decreases |blocks|
  {
    blocks == [] || (
      && (blocks[0].isGenesis || InputsFit(u, blocks[0].vtx))
      && ChainInputsFit(After(u, blocks[0]), blocks[1..], height + 1, interval)
    )
  }

  ghost function AfterAll(u: Unspent, blocks: seq<Block>, height: nat, interval: nat): Unspent
    requires interval > 0 && ChainConnects(u, blocks, height, interval)
    decreases |blocks|
  {
    if blocks == [] then u else AfterAll(After(u, blocks[0]), blocks[1..], height + 1, interval)
  }

  lemma {:induction false} ChainTotal(u: Unspent, blocks: seq<Block>, height: nat, interval: nat)
    requires 0 < interval <= 210_000 && ChainConnects(u, blocks, height, interval)
    requires ChainInWidth(u, blocks, height, interval)
    requires Good(u) && Total(u) <= Supply(height, interval)
    ensures var v := AfterAll(u, blocks, height, interval);
      Good(v) && 0 <= Total(v) <= Supply(height + |blocks|, interval)
    decreases |blocks|
  {
    hide Total, Subsidy, Apply, ApplyAll, ExactFees, Wrap64, ValueOf;
    if blocks == [] {
      TotalNonNegative(u);
    } else {
      SupplyBound(height, interval);
      BlockAdds(u, blocks[0], height, interval, false);
      SubsidyNonNegative(height, interval);
      ChainTotal(After(u, blocks[0]), blocks[1..], height + 1, interval);
    }
  }

  /** Starting from nothing, as long as the fees of every block fit the width, there is never more money than the
      subsidies paid so far, and never more than MAX_MONEY. */
  lemma MoneySupply(blocks: seq<Block>, interval: nat)
    requires 0 < interval <= 210_000 && ChainConnects(map[], blocks, 0, interval)
    requires ChainInWidth(map[], blocks, 0, interval)
    ensures 0 <= Total(AfterAll(map[], blocks, 0, interval)) <= Supply(|blocks|, interval) <= 21_000_000 * 100_000_000
  {
    var none: Unspent := map[];
    assert none.Keys == {};
    ChainTotal(none, blocks, 0, interval);
    SupplyBound(|blocks|, interval);
  }

  /** No block of the run has more than 4392 transactions. */
  predicate AllSmall(blocks: seq<Block>) {
    forall i :: 0 <= i < |blocks| ==> |blocks[i].vtx| <= 4392
  }

  lemma {:induction false} SmallChain(u: Unspent, blocks: seq<Block>, height: nat, interval: nat)
    requires 0 < interval <= 210_000 && ChainConnects(u, blocks, height, interval) && AllSmall(blocks)
    requires Good(u) && Total(u) <= Supply(height, interval)
    ensures ChainInWidth(u, blocks, height, interval) && ChainInputsFit(u, blocks, height, interval)
    decreases |blocks|
  {
    hide Total, Subsidy, Apply, ApplyAll, ExactFees, Wrap64, ValueOf, FeesInWidth, InputsFit, TxOk;
    if blocks != [] {
      SupplyBound(height, interval);
      FewTransactions(u, blocks[0], height, interval);
      if !blocks[0].isGenesis { FewInputsFit(u, blocks[0]); }
      BlockAdds(u, blocks[0], height, interval, false);
      SubsidyNonNegative(height, interval);
      SmallChain(After(u, blocks[0]), blocks[1..], height + 1, interval);
    }
  }

  /** In a run of blocks of at most 4392 transactions nothing ever leaves the width, so the supply is bounded. */
  lemma SmallBlocks(blocks: seq<Block>, interval: nat)
    requires 0 < interval <= 210_000 && ChainConnects(map[], blocks, 0, interval) && AllSmall(blocks)
    ensures ChainInputsFit(map[], blocks, 0, interval)
    ensures 0 <= Total(AfterAll(map[], blocks, 0, interval)) <= Supply(|blocks|, interval) <= 21_000_000 * 100_000_000
  {
    var none: Unspent := map[];
    assert none.Keys == {};
    SmallChain(none, blocks, 0, interval);
    MoneySupply(blocks, interval);
  }
}
