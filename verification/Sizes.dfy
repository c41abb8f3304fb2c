// src/txs/mod.rs: how many bytes a packed transaction has.
module Sizes {
  import opened Bytes
  import opened Codecs
  import opened Ids
  import opened Transferables
  import opened Txs

  function SumOf<T>(f: T -> nat, xs: seq<T>): nat {
    if xs == [] then 0 else f(xs[0]) + SumOf(f, xs[1..])
  }

  lemma {:induction false} EncAllLength<T>(enc: T -> Bytes, f: T -> nat, xs: seq<T>)
    requires forall i :: 0 <= i < |xs| ==> |enc(xs[i])| == f(xs[i])
    ensures |EncAll(enc, xs)| == SumOf(f, xs)
  {
    if xs != [] {
      EncAllLength(enc, f, xs[1..]);
    }
  }

  lemma {:induction false} EncAllWidth<T>(enc: T -> Bytes, n: nat, xs: seq<T>)
    requires forall i :: 0 <= i < |xs| ==> |enc(xs[i])| == n
    ensures |EncAll(enc, xs)| == n * |xs|
  {
    if xs != [] {
      EncAllWidth(enc, n, xs[1..]);
    }
  }

  /** 20 bytes an address, 60 for the rest, 12 more for a lock. */
  function OutputSize(o: Output): nat {
    if o.transferOutput.Some? then 60 + 20 * |o.transferOutput.value.owners.addresses|
    else if o.stakeableLockOut.Some? then 72 + 20 * |o.stakeableLockOut.value.transferOutput.owners.addresses|
    else 32
  }

  /** 4 bytes a signature index, 84 for the rest, 8 more for a lock. */
  function InputSize(i: Input): nat {
    if i.transferInput.Some? then 84 + 4 * |i.transferInput.value.sigIndices|
    else if i.stakeableLockIn.Some? then 92 + 4 * |i.stakeableLockIn.value.transferInput.sigIndices|
    else 68
  }

  function TxSize(tx: Tx): nat {
    54 + SumOf(OutputSize, Listed(tx.outputs)) + SumOf(InputSize, Listed(tx.inputs)) + |tx.Memo()|
  }

  lemma OutputLength(o: Output)
    ensures |EncOutput(o)| == OutputSize(o)
  {
    if o.transferOutput.Some? {
      EncAllWidth(Raw, 20, o.transferOutput.value.owners.addresses);
    } else if o.stakeableLockOut.Some? {
      EncAllWidth(Raw, 20, o.stakeableLockOut.value.transferOutput.owners.addresses);
    }
  }

  lemma InputLength(i: Input)
    ensures |EncInput(i)| == InputSize(i)
  {
    if i.transferInput.Some? {
      EncAllWidth(Be4, 4, i.transferInput.value.sigIndices);
    } else if i.stakeableLockIn.Some? {
      EncAllWidth(Be4, 4, i.stakeableLockIn.value.transferInput.sigIndices);
    }
  }

  /** The packed size, and with it exactly when Tx::pack has room, is known before packing. */
  lemma TxLength(version: u16, typeId: u32, tx: Tx)
    ensures |EncTx(version, typeId, tx)| == TxSize(tx)
  {
    forall o: Output
      ensures |EncOutput(o)| == OutputSize(o)
    {
      OutputLength(o);
    }
    forall i: Input
      ensures |EncInput(i)| == InputSize(i)
    {
      InputLength(i);
    }
    EncAllLength(EncOutput, OutputSize, Listed(tx.outputs));
    EncAllLength(EncInput, InputSize, Listed(tx.inputs));
  }
}
