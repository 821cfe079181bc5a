/**
 The values the dust sweeper reads and produces: a wallet's unspent outputs as
 the node lists them, and the pieces of an unsigned Bitcoin transaction.
 Integer widths of the Rust code (u32 output indices and sequence numbers, u64
 satoshi amounts) are modelled as unbounded naturals.
 */
module Types {

  /** A transaction identifier: the 32-byte double-SHA256 of a transaction. */
  type Txid = s: seq<bv8> | |s| == 32 witness seq(32, _ => 0 as bv8)

  /** One entry of the wallet's unspent-output listing; only the fields the sweeper reads. */
  datatype Utxo = Utxo(txid: Txid, vout: nat, amount: nat)

  /** A reference to an output of an earlier transaction. */
  datatype OutPoint = OutPoint(txid: Txid, vout: nat)

  /** A transaction input: what it spends, its unlocking script, sequence and witness stack. */
  datatype TxIn = TxIn(previousOutput: OutPoint, scriptSig: seq<bv8>, sequence: nat, witnessStack: seq<seq<bv8>>)

  /** A transaction output: a value in satoshis and the locking script that guards it. */
  datatype TxOut = TxOut(value: nat, scriptPubkey: seq<bv8>)

  /** An unsigned transaction as handed to the partially-signed-transaction container. */
  datatype Transaction = Transaction(version: int, lockTime: nat, input: seq<TxIn>, output: seq<TxOut>)

  /** The outpoint a listing entry names. */
  function OutPointOf(u: Utxo): (op: OutPoint)
  {
    OutPoint(u.txid, u.vout)
  }
}
