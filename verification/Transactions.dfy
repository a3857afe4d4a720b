/** Transactions, their outputs, and what is left of them: src/core.h, src/coins.h, and the limits of src/main.h. */
module Transactions {
  import opened Wrappers

  const COIN: int := 100_000_000
  const MAX_MONEY: int := 21_000_000 * COIN

  predicate MoneyRange(v: int) { 0 <= v <= MAX_MONEY }

  const MAX_BLOCK_SIZE: nat := 1_000_000

  type Hash = nat

  /** The index that, with hash zero, marks the input of a coinbase. */
  const NULL_INDEX: nat := 0xffff_ffff

  datatype OutPoint = OutPoint(hash: Hash, n: nat)
  {
    predicate IsNull() { hash == 0 && n == NULL_INDEX }
  }

  /** The instruction that no script gets past: an output whose script starts with it can never be spent. */
  const OP_RETURN: Byte := 0x6a

  datatype TxOut = TxOut(nValue: int, scriptPubKey: Bytes)
  {
    predicate IsNull() { nValue == -1 }

    predicate IsUnspendable() { scriptPubKey != [] && scriptPubKey[0] == OP_RETURN }
  }

  const NULL_OUT: TxOut := TxOut(-1, [])

  datatype Tx = Tx(txid: Hash, vin: seq<OutPoint>, vout: seq<TxOut>, nVersion: int, nSize: nat)
  {
    predicate IsCoinBase() { |vin| == 1 && vin[0].IsNull() }
  }

  predicate Avail(vout: seq<TxOut>, k: nat) { k < |vout| && !vout[k].IsNull() }

  /** What is left of a transaction. */
  datatype Coins = Coins(fCoinBase: bool, vout: seq<TxOut>, nVersion: int)
  {
    predicate IsAvailable(n: nat) { Avail(vout, n) }
  }

  /** Drops spent outputs from the end. */
  function Trim(vout: seq<TxOut>): (r: seq<TxOut>)
    ensures r <= vout
    ensures r != [] ==> !r[|r| - 1].IsNull()
    ensures forall i :: |r| <= i < |vout| ==> vout[i].IsNull()
  {
    if vout != [] && vout[|vout| - 1].IsNull() then Trim(vout[..|vout| - 1]) else vout
  }
}
