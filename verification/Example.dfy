// The example of src/txs/mod.rs: the packed transaction that the crate's own test expects.
module Example {
  import opened Bytes
  import opened Codecs
  import opened Ids
  import opened Transferables
  import opened Txs

  lemma Numbers()
    ensures BigEndian(2, 0) == [0, 0] && Be4(0) == [0, 0, 0, 0] && Be4(1) == [0, 0, 0, 1] && Be4(2) == [0, 0, 0, 2]
    ensures Be4(4) == [0, 0, 0, 4] && Be4(5) == [0, 0, 0, 5] && Be4(7) == [0, 0, 0, 7] && Be4(10) == [0, 0, 0, 10]
    ensures BigEndian(8, 0) == [0, 0, 0, 0, 0, 0, 0, 0]
    ensures BigEndian(8, 12345) == [0, 0, 0, 0, 0, 0, 0x30, 0x39]
    ensures BigEndian(8, 54321) == [0, 0, 0, 0, 0, 0, 0xD4, 0x31]
  {
  }

  lemma One<T>(enc: T -> Bytes, x: T)
    ensures EncAll(enc, [x]) == enc(x)
  {
    assert EncAll(enc, [x][1..]) == [];
  }

  /** The bytes that the crate's test expects of a transaction with one output and one input, for any ids in it. */
  lemma BaseTxLayout(blockchainId: Id, assetId: Id, address: ShortId, txId: Id)
    ensures
      var o := Output(assetId, None, Some(TransferOutput(12345, OutputOwners(0, 1, [address]))), None);
      var i := Input(UtxoId(txId, 1, false, EMPTY_ID), assetId, EMPTY_ID, Some(TransferInput(54321, [2])), None);
      EncTx(0, 0, Tx(None, 10, blockchainId, Some([i]), Some([o]), Some([0, 1, 2, 3]))) ==
      [0, 0] + ([0, 0, 0, 0] + ([0, 0, 0, 10] + (blockchainId + (
        ([0, 0, 0, 1] + (assetId + ([0, 0, 0, 7] + ([0, 0, 0, 0, 0, 0, 0x30, 0x39] +
          ([0, 0, 0, 0, 0, 0, 0, 0] + ([0, 0, 0, 1] + ([0, 0, 0, 1] + address))))))) +
        (([0, 0, 0, 1] + (txId + ([0, 0, 0, 1] + (assetId + ([0, 0, 0, 5] + ([0, 0, 0, 0, 0, 0, 0xD4, 0x31] +
          ([0, 0, 0, 1] + [0, 0, 0, 2]))))))) +
        ([0, 0, 0, 4] + [0, 1, 2, 3]))))))
  {
    var o := Output(assetId, None, Some(TransferOutput(12345, OutputOwners(0, 1, [address]))), None);
    var i := Input(UtxoId(txId, 1, false, EMPTY_ID), assetId, EMPTY_ID, Some(TransferInput(54321, [2])), None);
    Numbers();
    One(Raw, address);
    One(Be4, 2);
    One(EncOutput, o);
    One(EncInput, i);
  }
}
