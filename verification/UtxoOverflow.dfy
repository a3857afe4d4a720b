/**
 Where 64 bits are too few: two runs of blocks that connect although a sum leaves the width.

 Both are made of transactions that spend an output worth nothing, create another one for the
 next of them to spend, and an output worth MAX_MONEY beside it.  Each costs its block a fee
 of -MAX_MONEY.  After 4393 of them the sum of the fees wraps around and is positive.
 */
module UtxoOverflow {
  import opened Arithmetic
  import opened Shifts
  import opened Transactions
  import opened Utxo
  import opened UtxoChain
  import opened UtxoState

  /** Spends output 0 of transaction `j` + 1; its own id is `j` + 2. */
  function Mint(j: nat): Tx {
    Tx(j + 2, [OutPoint(j + 1, 0)], [TxOut(0, []), TxOut(MAX_MONEY, [])], 1, 100)
  }

  function Mints(j: nat, n: nat): (txs: seq<Tx>)
    ensures |txs| == n && forall i :: 0 <= i < n ==> txs[i] == Mint(j + i)
    decreases n
  {
    if n == 0 then [] else [Mint(j)] + Mints(j + 1, n - 1)
  }

  /** A coinbase that claims nothing. */
  function CoinBase(txid: Hash): Tx {
    Tx(txid, [OutPoint(0, 0xffff_ffff)], [TxOut(0, [])], 1, 100)
  }

  predicate Holds(u: Unspent, o: OutPoint, value: int) {
    Available(u, o) && u[o.hash].vout[o.n].nValue == value
  }

  /** What the next Mint needs: its input, and ids that are not taken. */
  ghost predicate Ready(u: Unspent, j: nat) {
    Good(u) && Holds(u, OutPoint(j + 1, 0), 0) && forall h :: h in u ==> h < j + 2
  }

  lemma MintOk(j: nat)
    ensures TxOk(Mint(j)) && ValueOf(Mint(j).vout) == MAX_MONEY && !Mint(j).IsCoinBase()
    ensures Spendable(Mint(j).vout) == Mint(j).vout
  {
    var zero, vout := TxOut(0, []), Mint(j).vout;
    assert vout[1..] == [TxOut(MAX_MONEY, [])] && vout[1..][1..] == [];
    assert ValueOf(vout[1..]) == MAX_MONEY;
    SpendableAll(vout);
  }

  lemma CoinBaseOk(txid: Hash)
    ensures TxOk(CoinBase(txid)) && ValueOf(CoinBase(txid).vout) == 0 && CoinBase(txid).IsCoinBase()
    ensures CoinsOf(CoinBase(txid)) == Coins(true, [TxOut(0, [])], 1)
  {
    var vout := CoinBase(txid).vout;
    assert vout[1..] == [];
    SpendableAll(vout);
  }

  /** One Mint. */
  lemma MintStep(u: Unspent, j: nat)
    requires Ready(u, j)
    ensures CanApply(u, Mint(j)) && Fee(u, Mint(j)) == -MAX_MONEY
    ensures var v := Apply(u, Mint(j));
      && Ready(v, j + 1) && Total(v) == Total(u) + MAX_MONEY && Holds(v, OutPoint(j + 2, 1), MAX_MONEY)
      && forall h: nat :: Holds(u, OutPoint(h, 1), MAX_MONEY) ==> Holds(v, OutPoint(h, 1), MAX_MONEY)
  {
    hide Total, Good, ValueOf, TxOk, Spendable, Trim;
    var tx, o := Mint(j), OutPoint(j + 1, 0);
    MintOk(j);
    assert tx.vin == [o] && tx.vin[1..] == [];
    assert AllAvailable(u, tx.vin) && Distinct(tx.vin);
    assert ValueIn(u, tx.vin) == 0;
    var spent := Spent(u, o);
    assert SpendAll(u, tx.vin) == spent by { assert SpendAll(spent, []) == spent; }
    ApplyBalance(u, tx);
    MintGood(u, j);
    MintLeaves(j);
    SpendOutValue(u[j + 1], 0);
    forall h: nat | Holds(u, OutPoint(h, 1), MAX_MONEY) ensures Holds(Apply(u, tx), OutPoint(h, 1), MAX_MONEY) {
      assert h < j + 2;
      SpentOthers(u, o, OutPoint(h, 1));
    }
  }

  lemma MintGood(u: Unspent, j: nat)
    requires Good(u) && CanApply(u, Mint(j))
    ensures Good(Apply(u, Mint(j)))
  {
    hide Total, ValueOf, Spendable, Trim, Apply, Good;
    MintOk(j);
    ApplyTotal(u, Mint(j));
  }

  lemma MintLeaves(j: nat)
    ensures CoinsOf(Mint(j)).vout == Mint(j).vout
  {
    MintOk(j);
  }

  /** Many of them. */
  lemma {:induction false} MintsRun(u: Unspent, j: nat, n: nat)
    requires Ready(u, j)
    ensures CanApplyAll(u, Mints(j, n)) && ExactFees(u, Mints(j, n)) == -(n * MAX_MONEY)
    ensures var v := ApplyAll(u, Mints(j, n));
      && Ready(v, j + n) && Total(v) == Total(u) + n * MAX_MONEY
      && (forall h: nat :: j + 2 <= h < j + 2 + n ==> Holds(v, OutPoint(h, 1), MAX_MONEY))
      && forall h: nat :: Holds(u, OutPoint(h, 1), MAX_MONEY) ==> Holds(v, OutPoint(h, 1), MAX_MONEY)
    decreases n
  {
    hide Total, Ready, Holds, Apply, Mint, Fee;
    if n > 0 {
      MintStep(u, j);
      MintsRun(Apply(u, Mint(j)), j + 1, n - 1);
      assert Mints(j, n)[1..] == Mints(j + 1, n - 1);
    }
  }

  lemma {:induction false} ApplyAllJoin(u: Unspent, a: seq<Tx>, b: seq<Tx>)
    requires CanApplyAll(u, a) && CanApplyAll(ApplyAll(u, a), b)
    ensures CanApplyAll(u, a + b) && ApplyAll(u, a + b) == ApplyAll(ApplyAll(u, a), b)
    ensures ExactFees(u, a + b) == ExactFees(u, a) + ExactFees(ApplyAll(u, a), b)
    ensures InputsFit(u, a + b) ==> InputsFit(ApplyAll(u, a), b)
    decreases |a|
  {
    hide Apply, Fee, ValueIn;
    if a == [] {
      assert a + b == b;
    } else {
      assert (a + b)[0] == a[0] && (a + b)[1..] == a[1..] + b;
      ApplyAllJoin(Apply(u, a[0]), a[1..], b);
    }
  }

  // ---- The blocks ----

  const GENESIS: Block := Block(true, [])

  const FIRST: Block := Block(false, [CoinBase(2)])

  function Minting(n: nat): Block {
    Block(false, [CoinBase(1)] + Mints(1, n))
  }

  /** What there is after FIRST, and after the coinbase of the next block. */
  const AFTER_FIRST: Unspent := map[2 := Coins(true, [TxOut(0, [])], 1)]

  const MINTING_STARTS: Unspent := map[2 := Coins(true, [TxOut(0, [])], 1), 1 := Coins(true, [TxOut(0, [])], 1)]

  lemma Nothing()
    ensures Total(map[]) == 0
  {
    var none: Unspent := map[];
    assert none.Keys == {};
  }

  lemma FirstConnects(interval: nat)
    requires interval > 0
    ensures Connects(map[], FIRST, 1, interval, true, true) && After(map[], FIRST) == AFTER_FIRST
    ensures Total(AFTER_FIRST) == 0
  {
    hide ValueOf, TxOk, Subsidy, Wrap64, Trim, Spendable;
    CoinBaseOk(2);
    Nothing();
    var none: Unspent := map[];
    var txs := FIRST.vtx;
    assert txs[1..] == [];
    assert Apply(none, CoinBase(2)) == AFTER_FIRST;
    assert CanApplyAll(AFTER_FIRST, []);
    ApplyBalance(none, CoinBase(2));
    assert ValueOf(Spendable(CoinBase(2).vout)) == 0 by { SpendableAll(CoinBase(2).vout); }
    assert ExactFees(none, txs) == 0;
    Unwrapped(0);
    SubsidyInRange(1, interval);
  }

  lemma Unwrapped(x: int)
    requires -TWO63 <= x < TWO63
    ensures Wrap64(x) == x
  {
  }

  lemma SubsidyInRange(height: nat, interval: nat)
    requires interval > 0
    ensures 0 <= Subsidy(height, interval) <= SUBSIDY
    ensures Wrap64(Subsidy(height, interval)) == Subsidy(height, interval)
  {
  }

  lemma MintingReady()
    ensures CanApply(AFTER_FIRST, CoinBase(1)) && Apply(AFTER_FIRST, CoinBase(1)) == MINTING_STARTS
    ensures Ready(MINTING_STARTS, 1) && Total(MINTING_STARTS) == 0
  {
    hide ValueOf, TxOk, Trim, Spendable, Total;
    CoinBaseOk(1);
    FirstConnects(1);
    ApplyBalance(AFTER_FIRST, CoinBase(1));
    assert ValueOf(Spendable(CoinBase(1).vout)) == 0 by { SpendableAll(CoinBase(1).vout); }
  }

  /** A coinbase and ordinary transactions whose ids count up from 3. */
  ghost predicate CountsUp(txs: seq<Tx>) {
    && txs != [] && txs[0].txid == 1 && txs[0].IsCoinBase() && TxOk(txs[0])
    && forall i :: 1 <= i < |txs| ==> TxOk(txs[i]) && !txs[i].IsCoinBase() && txs[i].txid == i + 2
  }

  lemma CountsUpOk(u: Unspent, txs: seq<Tx>)
    requires CountsUp(txs) && u.Keys == {2}
    ensures BlockOk(Block(false, txs)) && NoOverwrite(u, txs)
  {
    hide TxOk;
  }

  lemma MintingCountsUp(n: nat)
    ensures CountsUp(Minting(n).vtx)
  {
    hide TxOk;
    CoinBaseOk(1);
    forall i | 1 <= i < n + 1
      ensures TxOk(Minting(n).vtx[i]) && !Minting(n).vtx[i].IsCoinBase() && Minting(n).vtx[i].txid == i + 2
    {
      MintOk(i);
    }
  }

  lemma MintingRuns(n: nat)
    ensures CanApplyAll(AFTER_FIRST, Minting(n).vtx) && ExactFees(AFTER_FIRST, Minting(n).vtx) == -(n * MAX_MONEY)
    ensures var v := ApplyAll(AFTER_FIRST, Minting(n).vtx);
      && Ready(v, n + 1) && Total(v) == n * MAX_MONEY
      && forall h: nat :: 3 <= h < n + 3 ==> Holds(v, OutPoint(h, 1), MAX_MONEY)
  {
    hide Total, Ready, Holds, Apply, TxOk;
    MintingReady();
    MintsRun(MINTING_STARTS, 1, n);
    assert Minting(n).vtx[1..] == Mints(1, n);
  }

  /** After 4393 of them the sum of the fees is out of width, and positive: a block of 4394 transactions connects. */
  lemma MintingConnects(interval: nat)
    requires interval > 0
    ensures Connects(AFTER_FIRST, Minting(4393), 2, interval, true, true) && |Minting(4393).vtx| == 4394
    ensures !FeesInWidth(AFTER_FIRST, Minting(4393), 2, interval)
    ensures Total(After(AFTER_FIRST, Minting(4393))) == 4393 * MAX_MONEY
  {
    hide Total, TxOk, Subsidy, CanApplyAll, ApplyAll, ExactFees, NoOverwrite, BlockOk, ValueOf;
    MintingRuns(4393);
    MintingCountsUp(4393);
    CountsUpOk(AFTER_FIRST, Minting(4393).vtx);
    CoinBaseOk(1);
    SubsidyInRange(2, interval);
    WrapShift(-(4393 * MAX_MONEY), 1);
    Unwrapped(-(4393 * MAX_MONEY) + TWO64);
    Unwrapped(Subsidy(2, interval) - 4393 * MAX_MONEY + TWO64);
  }

  lemma ConnectsAnyway(u: Unspent, b: Block, height: nat, interval: nat)
    requires interval > 0 && height < 64 * interval && Connects(u, b, height, interval, true, true)
    ensures Connects(u, b, height, interval, false, true)
  {
  }

  lemma ChainStep(u: Unspent, b: Block, rest: seq<Block>, height: nat, interval: nat)
    requires interval > 0 && height < 64 * interval && Connects(u, b, height, interval, false, true)
    requires ChainConnects(After(u, b), rest, height + 1, interval)
    ensures ChainConnects(u, [b] + rest, height, interval)
    ensures AfterAll(u, [b] + rest, height, interval) == AfterAll(After(u, b), rest, height + 1, interval)
  {
    hide Connects, After;
    var blocks := [b] + rest;
    assert blocks[0] == b && blocks[1..] == rest;
  }

  lemma GenesisConnects(u: Unspent, interval: nat)
    requires interval > 0
    ensures Connects(u, GENESIS, 0, interval, false, true) && After(u, GENESIS) == u
  {
  }

  lemma ChainEnds(u: Unspent, height: nat, interval: nat)
    requires interval > 0
    ensures ChainConnects(u, [], height, interval) && AfterAll(u, [], height, interval) == u
  {
  }

  lemma ThreeBlocks(u: Unspent, a: Block, b: Block, c: Block, interval: nat)
    requires interval > 0
    requires Connects(u, a, 0, interval, false, true)
    requires Connects(After(u, a), b, 1, interval, false, true)
    requires Connects(After(After(u, a), b), c, 2, interval, false, true)
    ensures ChainConnects(u, [a] + ([b] + ([c] + [])), 0, interval)
    ensures AfterAll(u, [a] + ([b] + ([c] + [])), 0, interval) == After(After(After(u, a), b), c)
  {
    hide BlockOk, NoOverwrite, BlockValue, After, ChainConnects, AfterAll;
    ChainEnds(After(After(After(u, a), b), c), 3, interval);
    ChainStep(After(After(u, a), b), c, [], 2, interval);
    ChainStep(After(u, a), b, [c] + [], 1, interval);
    ChainStep(u, a, [b] + ([c] + []), 0, interval);
  }

  /** So the supply is not bounded by MAX_MONEY over every run of connected blocks. */
  lemma SupplyExceeded(interval: nat)
    requires interval > 0
    ensures var blocks := [GENESIS] + ([FIRST] + ([Minting(4393)] + []));
      && ChainConnects(map[], blocks, 0, interval)
      && Total(AfterAll(map[], blocks, 0, interval)) == 4393 * MAX_MONEY > MAX_MONEY
  {
    hide Total, Connects, Minting, After, Total, FeesInWidth, ChainConnects, AfterAll, BlockOk;
    GenesisConnects(map[], interval);
    FirstConnects(interval);
    MintingConnects(interval);
    ConnectsAnyway(map[], FIRST, 1, interval);
    ConnectsAnyway(AFTER_FIRST, Minting(4393), 2, interval);
    ThreeBlocks(map[], GENESIS, FIRST, Minting(4393), interval);
  }

  // ---- A sum of inputs that leaves the width in a block whose fees fit ----

  /** Output 1 of `n` transactions from `h` on. */
  function SecondOutputs(h: nat, n: nat): (vin: seq<OutPoint>)
    ensures |vin| == n && forall i :: 0 <= i < n ==> vin[i] == OutPoint(h + i, 1)
    decreases n
  {
    if n == 0 then [] else [OutPoint(h, 1)] + SecondOutputs(h + 1, n - 1)
  }

  /** Spends what `n` of them have made. */
  function Sweep(n: nat): Tx {
    Tx(n + 3, SecondOutputs(3, n), [TxOut(0, [])], 1, 41 * n + 100)
  }

  function Sweeping(n: nat): Block {
    Block(false, Minting(n).vtx + [Sweep(n)])
  }

  lemma {:induction false} SecondOutputsValue(u: Unspent, h: nat, n: nat)
    requires forall k: nat :: h <= k < h + n ==> Holds(u, OutPoint(k, 1), MAX_MONEY)
    ensures AllAvailable(u, SecondOutputs(h, n)) && Distinct(SecondOutputs(h, n))
    ensures ValueIn(u, SecondOutputs(h, n)) == n * MAX_MONEY
    decreases n
  {
    var vin := SecondOutputs(h, n);
    forall i | 0 <= i < n ensures Available(u, vin[i]) { assert Holds(u, OutPoint(h + i, 1), MAX_MONEY); }
    if n > 0 {
      SecondOutputsValue(u, h + 1, n - 1);
      assert vin[1..] == SecondOutputs(h + 1, n - 1);
    }
  }

  lemma SweepOk(n: nat)
    requires 0 < n <= 20_000
    ensures TxOk(Sweep(n)) && ValueOf(Sweep(n).vout) == 0 && !Sweep(n).IsCoinBase()
    ensures Sweep(n).txid == n + 3
  {
    CoinBaseOk(2);
    assert Sweep(n).vout == CoinBase(2).vout;
  }

  lemma SweepingCountsUp(n: nat)
    requires 0 < n <= 20_000
    ensures CountsUp(Sweeping(n).vtx)
  {
    hide TxOk, Mint, Sweep;
    MintingCountsUp(n);
    SweepOk(n);
    var txs := Sweeping(n).vtx;
    forall i | 1 <= i < |txs| ensures TxOk(txs[i]) && !txs[i].IsCoinBase() && txs[i].txid == i + 2 {
      assert txs[i] == if i <= n then Minting(n).vtx[i] else Sweep(n);
    }
  }

  lemma OneTransaction(u: Unspent, tx: Tx)
    requires CanApply(u, tx)
    ensures CanApplyAll(u, [tx]) && ExactFees(u, [tx]) == Fee(u, tx)
    ensures InputsFit(u, [tx]) <==> tx.IsCoinBase() || ValueIn(u, tx.vin) < TWO63
  {
    hide Apply, ValueIn;
    assert [tx][1..] == [];
  }

  lemma SweepingRuns(n: nat)
    requires 0 < n <= 20_000
    ensures CanApplyAll(AFTER_FIRST, Minting(n).vtx) && CanApplyAll(AFTER_FIRST, Sweeping(n).vtx)
    ensures CanApply(ApplyAll(AFTER_FIRST, Minting(n).vtx), Sweep(n)) && !Sweep(n).IsCoinBase()
    ensures ValueIn(ApplyAll(AFTER_FIRST, Minting(n).vtx), Sweep(n).vin) == n * MAX_MONEY
    ensures ExactFees(AFTER_FIRST, Sweeping(n).vtx) == 0
    ensures n * MAX_MONEY >= TWO63 ==> !InputsFit(AFTER_FIRST, Sweeping(n).vtx)
  {
    hide Total, Ready, Holds, Apply, TxOk, Minting, ValueIn;
    MintingRuns(n);
    SweepOk(n);
    var v := ApplyAll(AFTER_FIRST, Minting(n).vtx);
    SecondOutputsValue(v, 3, n);
    OneTransaction(v, Sweep(n));
    ApplyAllJoin(AFTER_FIRST, Minting(n).vtx, [Sweep(n)]);
  }

  /** A block of 4395 transactions whose exact fees are 0 connects although the inputs of its last one do not fit. */
  lemma InputsExceedWidth(interval: nat)
    requires interval > 0
    ensures Connects(AFTER_FIRST, Sweeping(4393), 2, interval, true, true)
    ensures CanApplyAll(AFTER_FIRST, Sweeping(4393).vtx) && ExactFees(AFTER_FIRST, Sweeping(4393).vtx) == 0
    ensures FeesInWidth(AFTER_FIRST, Sweeping(4393), 2, interval) && !InputsFit(AFTER_FIRST, Sweeping(4393).vtx)
  {
    hide Total, TxOk, Subsidy, NoOverwrite, BlockOk, ValueOf, CanApplyAll, ExactFees, InputsFit, Sweep;
    SweepingRuns(4393);
    SweepingCountsUp(4393);
    CountsUpOk(AFTER_FIRST, Sweeping(4393).vtx);
    CoinBaseOk(1);
    SubsidyInRange(2, interval);
    Unwrapped(0);
  }

  // ---- The least number of transactions for that ----

  /** A coinbase, or a transaction before it, that holds MAX_MONEY in its second output. */
  function Rich(txid: Hash): Tx {
    Tx(txid, [OutPoint(0, 0xffff_ffff)], [TxOut(0, []), TxOut(MAX_MONEY, [])], 1, 100)
  }

  const RICH: Unspent := map[2 := Coins(true, [TxOut(0, []), TxOut(MAX_MONEY, [])], 1)]

  const RICH_STARTS: Unspent := RICH[1 := Coins(true, [TxOut(0, []), TxOut(MAX_MONEY, [])], 1)]

  /** A coinbase that claims MAX_MONEY, `n` transactions as before, and one that spends all second outputs. */
  function RichBlock(n: nat): Block {
    Block(false, [Rich(1)] + Mints(1, n) + [RichSweep(n)])
  }

  function RichSweep(n: nat): Tx {
    Tx(n + 3, SecondOutputs(1, n + 2), [TxOut(0, [])], 1, 41 * n + 200)
  }

  lemma RichOk(txid: Hash)
    ensures TxOk(Rich(txid)) && ValueOf(Rich(txid).vout) == MAX_MONEY && Rich(txid).IsCoinBase()
    ensures CoinsOf(Rich(txid)) == Coins(true, Rich(txid).vout, 1) && Spendable(Rich(txid).vout) == Rich(txid).vout
  {
    MintOk(0);
    assert Rich(txid).vout == Mint(0).vout;
  }

  lemma RichTotal()
    ensures Good(RICH) && Total(RICH) == MAX_MONEY
    ensures CanApply(RICH, Rich(1)) && Apply(RICH, Rich(1)) == RICH_STARTS && Ready(RICH_STARTS, 1)
    ensures Holds(RICH_STARTS, OutPoint(1, 1), MAX_MONEY) && Holds(RICH_STARTS, OutPoint(2, 1), MAX_MONEY)
  {
    hide ValueOf, TxOk, Trim, Spendable, Total;
    RichOk(2);
    RichOk(1);
    Nothing();
    assert Apply(map[], Rich(2)) == RICH;
    ApplyBalance(map[], Rich(2));
  }

  lemma RichSweepOk(n: nat)
    requires n <= 20_000
    ensures TxOk(RichSweep(n)) && ValueOf(RichSweep(n).vout) == 0 && !RichSweep(n).IsCoinBase() && RichSweep(n).txid == n + 3
  {
    CoinBaseOk(2);
    assert RichSweep(n).vout == CoinBase(2).vout;
  }

  lemma RichCountsUp(n: nat)
    requires n <= 20_000
    ensures CountsUp(RichBlock(n).vtx)
  {
    hide TxOk, Mint, RichSweep;
    RichOk(1);
    RichSweepOk(n);
    var txs := RichBlock(n).vtx;
    forall i | 1 <= i < |txs| ensures TxOk(txs[i]) && !txs[i].IsCoinBase() && txs[i].txid == i + 2 {
      if i <= n {
        assert txs[i] == Mint(i);
        MintOk(i);
        MintId(i);
      } else {
        assert txs[i] == RichSweep(n);
      }
    }
  }

  lemma MintId(j: nat)
    ensures Mint(j).txid == j + 2
  {
  }

  lemma RichRuns(n: nat)
    requires n <= 20_000
    ensures CanApplyAll(RICH, RichBlock(n).vtx) && ExactFees(RICH, RichBlock(n).vtx) == 2 * MAX_MONEY
    ensures (n + 2) * MAX_MONEY >= TWO63 ==> !InputsFit(RICH, RichBlock(n).vtx)
  {
    hide Total, Ready, Holds, Apply, TxOk, ValueIn, Mints;
    RichTotal();
    MintsRun(RICH_STARTS, 1, n);
    RichSweepOk(n);
    RichOk(1);
    var first := [Rich(1)] + Mints(1, n);
    assert first[1..] == Mints(1, n);
    assert CanApplyAll(RICH, first) && ExactFees(RICH, first) == -(n * MAX_MONEY);
    var v := ApplyAll(RICH, first);
    assert v == ApplyAll(RICH_STARTS, Mints(1, n));
    SecondOutputsValue(v, 1, n + 2);
    OneTransaction(v, RichSweep(n));
    ApplyAllJoin(RICH, first, [RichSweep(n)]);
  }

  /** In a view that holds no more than MAX_MONEY, a block of 4393 transactions connects with its fees in width, and the
      inputs of its last transaction do not fit. */
  lemma FewestExceedWidth(interval: nat)
    requires interval > 0
    ensures Good(RICH) && Total(RICH) == MAX_MONEY && |RichBlock(4391).vtx| == 4393
    ensures Connects(RICH, RichBlock(4391), 2, interval, true, true)
    ensures FeesInWidth(RICH, RichBlock(4391), 2, interval) && !InputsFit(RICH, RichBlock(4391).vtx)
  {
    hide Total, TxOk, Subsidy, NoOverwrite, BlockOk, ValueOf, CanApplyAll, ExactFees, InputsFit, RichSweep, Good;
    RichTotal();
    RichRuns(4391);
    RichCountsUp(4391);
    CountsUpOk(RICH, RichBlock(4391).vtx);
    RichOk(1);
    SubsidyInRange(2, interval);
    Unwrapped(2 * MAX_MONEY);
    Unwrapped(Subsidy(2, interval) + 2 * MAX_MONEY);
  }
}
