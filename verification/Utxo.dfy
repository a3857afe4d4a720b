/**
 Connecting blocks: src/main.cpp and src/coins.cpp.

 Nothing compares a single transaction's inputs with its outputs; conservation of money
 rests on the comparison of the coinbase with the fees of the whole block.  Fees are
 added up in 64 bits, and that is modelled: sums wrap around.
 */
module Utxo {
  import opened Arithmetic
  import opened Shifts
  import opened Transactions
  import opened UtxoState

  const SUBSIDY: int := 50 * COIN

  /** A sum as a signed 64-bit number holds it. */
  function Wrap64(x: int): (r: int)
    ensures -TWO63 <= r < TWO63
    ensures -TWO63 <= x < TWO63 ==> r == x
  {
    (x + TWO63) % TWO64 - TWO63
  }

  /** Wrapping along the way or at the end makes no difference. */
  lemma WrapSum(a: int, b: int)
    ensures Wrap64(Wrap64(a) + b) == Wrap64(a + b)
  {
    var q := (a + TWO63) / TWO64;
    assert Wrap64(a) == a - q * TWO64;
    WrapShift(a + b, -q);
  }

  lemma WrapShift(x: int, k: int)
    ensures Wrap64(x + k * TWO64) == Wrap64(x)
  {
    var y := x + TWO63;
    assert (y + k * TWO64) % TWO64 == y % TWO64;
  }

  /** The subsidy halves every `interval` blocks. */
  function Subsidy(height: nat, interval: nat): nat
    requires interval > 0
  {
    Shr(SUBSIDY, height / interval)
  }

  /** GetBlockValue; the shift is defined below 64 halvings. */
  function BlockValue(height: nat, interval: nat, nFees: int): int
    requires interval > 0 && height < 64 * interval
  {
    Wrap64(Subsidy(height, interval) + nFees)
  }

  datatype Block = Block(isGenesis: bool, vtx: seq<Tx>)

  // ---- Checks that need no context ----

  predicate TxOk(tx: Tx) {
    && tx.vin != [] && tx.vout != [] && tx.nSize <= 1_000_000
    && (forall i :: 0 <= i < |tx.vout| ==> MoneyRange(tx.vout[i].nValue))
    && MoneyRange(ValueOf(tx.vout))
    && Distinct(tx.vin)
    && (tx.IsCoinBase() || forall i :: 0 <= i < |tx.vin| ==> !tx.vin[i].IsNull())
  }

  predicate DifferentIds(txs: seq<Tx>) {
    forall i, j :: 0 <= i < j < |txs| ==> txs[i].txid != txs[j].txid
  }

  predicate BlockOk(b: Block) {
    && b.vtx != [] && b.vtx[0].IsCoinBase()
    && (forall i :: 1 <= i < |b.vtx| ==> !b.vtx[i].IsCoinBase())
    && (forall i :: 0 <= i < |b.vtx| ==> TxOk(b.vtx[i]))
    && DifferentIds(b.vtx)
  }

  lemma {:induction false} PrefixInRange(vout: seq<TxOut>, k: nat)
    requires k <= |vout| && forall i :: 0 <= i < |vout| ==> MoneyRange(vout[i].nValue)
    ensures 0 <= ValueOf(vout[..k]) <= ValueOf(vout)
    decreases |vout|
  {
    if k > 0 {
      assert vout[..k][1..] == vout[1..][..k - 1];
      PrefixInRange(vout[1..], k - 1);
    } else if vout != [] {
      PrefixInRange(vout[1..], 0);
    }
  }

  /** The running sum never leaves the money range, so it never wraps around. */
  method CheckTransaction(tx: Tx) returns (ok: bool)
    ensures ok <==> TxOk(tx)
    ensures (ok <==>
      && |tx.vin| > 0 && |tx.vout| > 0 && tx.nSize <= 1_000_000
      && (forall o :: o in tx.vout ==> 0 <= o.nValue <= 21_000_000 * 100_000_000)
      && ValueOf(tx.vout) <= 21_000_000 * 100_000_000
      && (forall i, j :: 0 <= i < j < |tx.vin| ==> tx.vin[i] != tx.vin[j])
      && (|tx.vin| > 1 || tx.vin[0] != OutPoint(0, 0xffff_ffff) ==> OutPoint(0, 0xffff_ffff) !in tx.vin))
  {
    TxOkMeans(tx);
    hide ValueOf, TxOk;
    if tx.vin == [] || tx.vout == [] || tx.nSize > MAX_BLOCK_SIZE { return false; }
    var nValueOut, i := 0, 0;
    EmptyValue(tx.vout[..0]);
    while i < |tx.vout|
      invariant 0 <= i <= |tx.vout| && nValueOut == ValueOf(tx.vout[..i]) && MoneyRange(nValueOut)
      invariant forall k :: 0 <= k < i ==> MoneyRange(tx.vout[k].nValue)
    {
      var txout := tx.vout[i];
      if txout.nValue < 0 || txout.nValue > MAX_MONEY { return false; }
      assert tx.vout[..i + 1] == tx.vout[..i] + [txout];
      ValueLast(tx.vout[..i], txout);
      nValueOut := Wrap64(nValueOut + txout.nValue);
      if !MoneyRange(nValueOut) {
        if forall k :: 0 <= k < |tx.vout| ==> MoneyRange(tx.vout[k].nValue) { PrefixInRange(tx.vout, i + 1); }
        return false;
      }
      i := i + 1;
    }
    assert tx.vout[..i] == tx.vout;
    var inputsOk := CheckPrevouts(tx);
    return inputsOk;
  }

  lemma TxOkMeans(tx: Tx)
    ensures (TxOk(tx) <==>
      && |tx.vin| > 0 && |tx.vout| > 0 && tx.nSize <= 1_000_000
      && (forall o :: o in tx.vout ==> 0 <= o.nValue <= 21_000_000 * 100_000_000)
      && ValueOf(tx.vout) <= 21_000_000 * 100_000_000
      && (forall i, j :: 0 <= i < j < |tx.vin| ==> tx.vin[i] != tx.vin[j])
      && (|tx.vin| > 1 || tx.vin[0] != OutPoint(0, 0xffff_ffff) ==> OutPoint(0, 0xffff_ffff) !in tx.vin))
  {
    hide ValueOf;
    assert forall o :: o in tx.vin ==> (o.IsNull() <==> o == OutPoint(0, 0xffff_ffff));
    if forall o :: o in tx.vout ==> 0 <= o.nValue <= 21_000_000 * 100_000_000 {
      assert forall i :: 0 <= i < |tx.vout| ==> tx.vout[i] in tx.vout;
      AllInRange(tx.vout);
    }
  }

  lemma AllInRange(vout: seq<TxOut>)
    requires forall i :: 0 <= i < |vout| ==> MoneyRange(vout[i].nValue)
    ensures ValueOf(vout) >= 0
  {
    PrefixInRange(vout, |vout|);
    assert vout[..|vout|] == vout;
  }

  lemma EmptyValue(vout: seq<TxOut>)
    requires vout == []
    ensures ValueOf(vout) == 0
  {
  }

  /** No input twice, and a null one only in a coinbase. */
  method CheckPrevouts(tx: Tx) returns (ok: bool)
    ensures ok <==> Distinct(tx.vin) && (tx.IsCoinBase() || forall i :: 0 <= i < |tx.vin| ==> !tx.vin[i].IsNull())
  {
    var vInOutPoints: set<OutPoint>, i := {}, 0;
    while i < |tx.vin|
      invariant 0 <= i <= |tx.vin|
      invariant forall o :: o in vInOutPoints <==> o in tx.vin[..i]
      invariant forall j, k :: 0 <= j < k < i ==> tx.vin[j] != tx.vin[k]
    {
      if tx.vin[i] in vInOutPoints {
        var j :| 0 <= j < i && tx.vin[j] == tx.vin[i];
        return false;
      }
      vInOutPoints := vInOutPoints + {tx.vin[i]};
      i := i + 1;
    }
    if !tx.IsCoinBase() {
      i := 0;
      while i < |tx.vin|
        invariant 0 <= i <= |tx.vin| && forall k :: 0 <= k < i ==> !tx.vin[k].IsNull()
      {
        if tx.vin[i].IsNull() { return false; }
        i := i + 1;
      }
    }
    return true;
  }

  /** As many different ids as transactions: no id comes twice. */
  method UniqueTxids(vtx: seq<Tx>) returns (ok: bool)
    ensures ok <==> DifferentIds(vtx)
  {
    var uniqueTx: set<Hash>, i := {}, 0;
    while i < |vtx|
      invariant 0 <= i <= |vtx| && |uniqueTx| <= i
      invariant forall k :: 0 <= k < i ==> vtx[k].txid in uniqueTx
      invariant |uniqueTx| == i <==> forall j, k :: 0 <= j < k < i ==> vtx[j].txid != vtx[k].txid
      invariant forall h :: h in uniqueTx ==> exists k :: 0 <= k < i && vtx[k].txid == h
    {
      uniqueTx := uniqueTx + {vtx[i].txid};
      i := i + 1;
    }
    return |uniqueTx| == |vtx|;
  }

  /** The part of CheckBlock that concerns money. */
  method CheckBlock(b: Block) returns (ok: bool)
    ensures ok <==> BlockOk(b)
    ensures (ok <==>
      && b.vtx != [] && (forall i :: 0 <= i < |b.vtx| ==> (b.vtx[i].IsCoinBase() <==> i == 0) && TxOk(b.vtx[i]))
      && forall i, j :: 0 <= i < j < |b.vtx| ==> b.vtx[i].txid != b.vtx[j].txid)
  {
    hide TxOk;
    if b.vtx == [] || !b.vtx[0].IsCoinBase() { return false; }
    var i := 1;
    while i < |b.vtx|
      invariant 1 <= i <= |b.vtx| && forall k :: 1 <= k < i ==> !b.vtx[k].IsCoinBase()
    {
      if b.vtx[i].IsCoinBase() { return false; }
      i := i + 1;
    }
    i := 0;
    while i < |b.vtx|
      invariant 0 <= i <= |b.vtx| && forall k :: 0 <= k < i ==> TxOk(b.vtx[k])
    {
      var txOk := CheckTransaction(b.vtx[i]);
      if !txOk { return false; }
      i := i + 1;
    }
    ok := UniqueTxids(b.vtx);
  }

  // ---- The cached view ----

  /** A cache over another view.  Looking something up may copy it into the cache, which changes nothing for
      anyone who looks. */
  class CCoinsViewCache {
    const base: Unspent
    var cacheCoins: Unspent

    constructor (base: Unspent)
      ensures this.base == base && Coins() == base
    {
      this.base, cacheCoins := base, map[];
    }

    ghost function Coins(): Unspent
      reads this
    {
      base + cacheCoins
    }

    method FetchCoins(txid: Hash) returns (found: bool)
      modifies this`cacheCoins
      ensures Coins() == old(Coins())
      ensures found <==> txid in Coins()
      ensures found ==> txid in cacheCoins && cacheCoins[txid] == Coins()[txid]
    {
      if txid in cacheCoins { return true; }
      if txid !in base { return false; }
      cacheCoins := cacheCoins[txid := base[txid]];
      return true;
    }

    method SetCoins(txid: Hash, c: Transactions.Coins)
      modifies this`cacheCoins
      ensures Coins() == old(Coins())[txid := c]
    {
      cacheCoins := cacheCoins[txid := c];
    }

    /** First whether the transactions are known, then whether the outputs are available. */
    method HaveInputs(tx: Tx) returns (ok: bool)
      modifies this`cacheCoins
      ensures Coins() == old(Coins())
      ensures ok <==> tx.IsCoinBase() || AllAvailable(Coins(), tx.vin)
    {
      if tx.IsCoinBase() { return true; }
      var i := 0;
      while i < |tx.vin|
        invariant 0 <= i <= |tx.vin| && Coins() == old(Coins())
        invariant forall k :: 0 <= k < i ==> tx.vin[k].hash in Coins()
      {
        var found := FetchCoins(tx.vin[i].hash);
        if !found {
          assert !Available(Coins(), tx.vin[i]);
          return false;
        }
        i := i + 1;
      }
      i := 0;
      while i < |tx.vin|
        invariant 0 <= i <= |tx.vin| && Coins() == old(Coins())
        invariant forall k :: 0 <= k < i ==> Available(Coins(), tx.vin[k])
        invariant forall k :: 0 <= k < |tx.vin| ==> tx.vin[k].hash in Coins()
      {
        var _ := FetchCoins(tx.vin[i].hash);
        if !cacheCoins[tx.vin[i].hash].IsAvailable(tx.vin[i].n) {
          assert !Available(Coins(), tx.vin[i]);
          return false;
        }
        i := i + 1;
      }
      return true;
    }

    /** The sum of the inputs, as 64 bits hold it: the exact sum exactly when that is below 2^63. */
    method GetValueIn(tx: Tx) returns (nResult: int)
      requires !tx.IsCoinBase() ==> AllAvailable(Coins(), tx.vin)
      modifies this`cacheCoins
      ensures Coins() == old(Coins())
      ensures nResult == if tx.IsCoinBase() then 0 else Wrap64(ValueIn(Coins(), tx.vin))
      ensures !tx.IsCoinBase() && Good(Coins()) ==> (nResult == ValueIn(Coins(), tx.vin) <==> ValueIn(Coins(), tx.vin) < TWO63)
    {
      if tx.IsCoinBase() { return 0; }
      nResult := 0;
      var i := 0;
      ghost var sum := ValueIn(Coins(), tx.vin);
      assert tx.vin[0..] == tx.vin;
      while i < |tx.vin|
        invariant 0 <= i <= |tx.vin| && Coins() == old(Coins())
        invariant AllAvailable(Coins(), tx.vin[i..])
        invariant nResult == Wrap64(sum - ValueIn(Coins(), tx.vin[i..]))
      {
        assert Available(Coins(), tx.vin[i..][0]);
        var _ := FetchCoins(tx.vin[i].hash);
        var value := cacheCoins[tx.vin[i].hash].vout[tx.vin[i].n].nValue;
        assert tx.vin[i..][1..] == tx.vin[i + 1..];
        WrapSum(sum - ValueIn(Coins(), tx.vin[i..]), value);
        nResult := Wrap64(nResult + value);
        i := i + 1;
      }
      if Good(Coins()) { ValueInNonNegative(Coins(), tx.vin); }
    }

    /** Spends one output of a known transaction; false when it is not there or already spent. */
    method Spend(o: OutPoint) returns (ok: bool)
      requires o.hash in cacheCoins
      modifies this`cacheCoins
      ensures ok <==> Available(old(Coins()), o)
      ensures Coins() == if ok then Spent(old(Coins()), o) else old(Coins())
    {
      var c := cacheCoins[o.hash];
      if o.n >= |c.vout| || c.vout[o.n].IsNull() { return false; }
      cacheCoins := cacheCoins[o.hash := SpendOut(c, o.n)];
      return true;
    }

    /** Every spend succeeds: the inputs were there before, and they are different outputs. */
    method UpdateCoins(tx: Tx)
      requires CanApply(Coins(), tx)
      modifies this`cacheCoins
      ensures Coins() == Apply(old(Coins()), tx)
    {
      if !tx.IsCoinBase() {
        hide SpendOut, Trim;
        var i := 0;
        assert tx.vin[0..] == tx.vin;
        while i < |tx.vin|
          invariant 0 <= i <= |tx.vin| && Distinct(tx.vin[i..]) && AllAvailable(Coins(), tx.vin[i..])
          invariant SpendAll(Coins(), tx.vin[i..]) == SpendAll(old(Coins()), tx.vin)
        {
          assert tx.vin[i..][0] == tx.vin[i] && tx.vin[i..][1..] == tx.vin[i + 1..];
          assert Available(Coins(), tx.vin[i..][0]);
          SpentAvailable(Coins(), tx.vin[i..]);
          var _ := FetchCoins(tx.vin[i].hash);
          var ret := Spend(tx.vin[i]);
          assert ret;
          i := i + 1;
        }
      }
      SetCoins(tx.txid, CoinsOf(tx));
    }
  }
}
