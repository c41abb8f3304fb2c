// Where the fields of every packed structure are and what the fixed ones among them say, in numbers.
module Layouts {
  import opened Bytes
  import opened Codecs
  import opened Ids
  import opened Ips
  import opened Packers
  import opened Signing
  import opened Sizes
  import opened Transferables
  import opened Txs
  import opened Utxos
  import opened Vertices

  /** x stands in e at an offset. */
  predicate Has(e: Bytes, at: nat, x: Bytes) {
    at + |x| <= |e| && forall i :: 0 <= i < |x| ==> x[i] == e[at + i]
  }

  lemma HasHead(x: Bytes, rest: Bytes)
    ensures Has(x + rest, 0, x) && Has(x, 0, x)
  {
    assert x[0..|x|] == x;
  }

  lemma HasTail(a: Bytes, e: Bytes, at: nat, x: Bytes)
    requires Has(e, at, x)
    ensures Has(a + e, |a| + at, x)
  {
  }

  lemma HasWithin(e: Bytes, at: nat, f: Bytes, inner: nat, x: Bytes)
    requires Has(e, at, f) && Has(f, inner, x)
    ensures Has(e, at + inner, x)
  {
    assert forall i :: 0 <= i < |x| ==> x[i] == f[inner + i] == e[at + (inner + i)];
  }

  /** The fields of a right-nested encoding follow one another. */
  lemma HasThree(a: Bytes, b: Bytes, c: Bytes)
    ensures var e := a + (b + c);
            Has(e, 0, a) && Has(e, |a|, b) && Has(e, |a| + |b|, c) && |e| == |a| + |b| + |c|
  {
    HasHead(a, b + c);
    HasHead(b, c);
    HasHead(c, []);
    HasTail(b, c, 0, c);
    HasTail(a, b + c, 0, b);
    HasTail(a, b + c, |b|, c);
  }

  lemma HasFour(a: Bytes, b: Bytes, c: Bytes, d: Bytes)
    ensures var e := a + (b + (c + d));
            && Has(e, 0, a) && Has(e, |a|, b) && Has(e, |a| + |b|, c) && Has(e, |a| + |b| + |c|, d)
            && |e| == |a| + |b| + |c| + |d|
  {
    HasThree(b, c, d);
    HasHead(a, b + (c + d));
    HasTail(a, b + (c + d), 0, b);
    HasTail(a, b + (c + d), |b|, c);
    HasTail(a, b + (c + d), |b| + |c|, d);
  }

  /** The same fields where the whole stands at an offset. */
  lemma ThreeIn(e: Bytes, at: nat, a: Bytes, b: Bytes, c: Bytes)
    requires Has(e, at, a + (b + c))
    ensures Has(e, at, a) && Has(e, at + |a|, b) && Has(e, at + |a| + |b|, c)
  {
    var f := a + (b + c);
    HasThree(a, b, c);
    HasWithin(e, at, f, 0, a);
    HasWithin(e, at, f, |a|, b);
    HasWithin(e, at, f, |a| + |b|, c);
  }

  lemma FourIn(e: Bytes, at: nat, a: Bytes, b: Bytes, c: Bytes, d: Bytes)
    requires Has(e, at, a + (b + (c + d)))
    ensures Has(e, at, a) && Has(e, at + |a|, b) && Has(e, at + |a| + |b|, c) && Has(e, at + |a| + |b| + |c|, d)
  {
    HasThree(a, b, c + d);
    ThreeIn(e, at, a, b, c + d);
    assert d + [] == d;
    ThreeIn(e, at + |a| + |b|, c, d, []);
  }

  /** Element k of an encoded list follows the encodings of the elements before it. */
  lemma {:induction false} HasElement<T>(enc: T -> Bytes, f: T -> nat, xs: seq<T>, k: nat)
    requires k < |xs| && forall i :: 0 <= i < |xs| ==> |enc(xs[i])| == f(xs[i])
    ensures Has(EncAll(enc, xs), SumOf(f, xs[..k]), enc(xs[k]))
  {
    if k == 0 {
      HasHead(enc(xs[0]), EncAll(enc, xs[1..]));
    } else {
      HasElement(enc, f, xs[1..], k - 1);
      assert xs[..k][1..] == xs[1..][..k - 1];
      HasTail(enc(xs[0]), EncAll(enc, xs[1..]), SumOf(f, xs[1..][..k - 1]), enc(xs[k]));
    }
  }

  lemma {:induction false} HasFixed<T>(enc: T -> Bytes, n: nat, xs: seq<T>, k: nat)
    requires k < |xs| && forall i :: 0 <= i < |xs| ==> |enc(xs[i])| == n
    ensures Has(EncAll(enc, xs), n * k, enc(xs[k]))
  {
    if k == 0 {
      HasHead(enc(xs[0]), EncAll(enc, xs[1..]));
    } else {
      HasFixed(enc, n, xs[1..], k - 1);
      HasTail(enc(xs[0]), EncAll(enc, xs[1..]), n * (k - 1), enc(xs[k]));
      assert n + n * (k - 1) == n * k;
    }
  }

  /** A number as the code casts and writes it: four bytes, most significant first. */
  function Count(n: nat): Bytes {
    BigEndian(4, n % 0x1_0000_0000)
  }

  lemma CountIs(n: nat)
    ensures Be4(Cast(4, n)) == Count(n)
  {
    CastIs(4, n);
  }

  // ---- outputs ----

  lemma OwnersLayout(o: OutputOwners, k: nat)
    ensures var e := EncOwners(o);
            && Has(e, 0, BigEndian(8, o.locktime)) && Has(e, 8, BigEndian(4, o.threshold))
            && Has(e, 12, Count(|o.addresses|)) && (k < |o.addresses| ==> Has(e, 16 + 20 * k, o.addresses[k]))
  {
    CountIs(|o.addresses|);
    HasFour(BigEndian(8, o.locktime), Be4(o.threshold), Count(|o.addresses|), EncAll(Raw, o.addresses));
    if k < |o.addresses| {
      HasFixed(Raw, 20, o.addresses, k);
      HasWithin(EncOwners(o), 16, EncAll(Raw, o.addresses), 20 * k, o.addresses[k]);
    }
  }

  lemma TransferOutputLayout(t: TransferOutput)
    ensures var e := EncTransferOutput(t);
            Has(e, 0, BigEndian(8, t.amount)) && Has(e, 8, EncOwners(t.owners))
  {
    HasThree(BigEndian(8, t.amount), EncOwners(t.owners), []);
    assert EncOwners(t.owners) + [] == EncOwners(t.owners);
  }

  /** The body behind the asset id of an output or utxo: type id 7, or 22 with 7 inside. */
  lemma OutputBodyLayout(t: Option<TransferOutput>, s: Option<StakeableLockOut>)
    ensures var e := EncOutputBody(t, s);
            && (t.Some? ==> Has(e, 0, [0, 0, 0, 7]) && Has(e, 4, EncTransferOutput(t.value)))
            && (t.None? && s.Some? ==>
                  && Has(e, 0, [0, 0, 0, 22]) && Has(e, 4, BigEndian(8, s.value.locktime))
                  && Has(e, 12, [0, 0, 0, 7]) && Has(e, 16, EncTransferOutput(s.value.transferOutput)))
            && (t.None? && s.None? ==> e == [])
  {
    assert Be4(7) == [0, 0, 0, 7] && Be4(22) == [0, 0, 0, 22];
    if t.Some? {
      HasThree(Be4(7), EncTransferOutput(t.value), []);
      assert EncTransferOutput(t.value) + [] == EncTransferOutput(t.value);
    } else if s.Some? {
      HasFour(Be4(22), BigEndian(8, s.value.locktime), Be4(7), EncTransferOutput(s.value.transferOutput));
    }
  }

  lemma OutputLayout(o: Output)
    requires o.HasVariant()
    ensures var e := EncOutput(o);
            && Has(e, 0, o.assetId)
            && (o.transferOutput.Some? ==>
                  Has(e, 32, [0, 0, 0, 7]) && Has(e, 36, EncTransferOutput(o.transferOutput.value)))
            && (o.transferOutput.None? ==>
                  && Has(e, 32, [0, 0, 0, 22]) && Has(e, 36, BigEndian(8, o.stakeableLockOut.value.locktime))
                  && Has(e, 44, [0, 0, 0, 7]) && Has(e, 48, EncTransferOutput(o.stakeableLockOut.value.transferOutput)))
  {
    var b := EncOutputBody(o.transferOutput, o.stakeableLockOut);
    OutputBodyLayout(o.transferOutput, o.stakeableLockOut);
    HasHead(o.assetId, b);
    if o.transferOutput.Some? {
      HasTail(o.assetId, b, 0, [0, 0, 0, 7]);
      HasTail(o.assetId, b, 4, EncTransferOutput(o.transferOutput.value));
    } else {
      HasTail(o.assetId, b, 0, [0, 0, 0, 22]);
      HasTail(o.assetId, b, 4, BigEndian(8, o.stakeableLockOut.value.locktime));
      HasTail(o.assetId, b, 12, [0, 0, 0, 7]);
      HasTail(o.assetId, b, 16, EncTransferOutput(o.stakeableLockOut.value.transferOutput));
    }
  }

  // ---- inputs ----

  lemma TransferInputLayout(i: TransferInput, k: nat)
    ensures var e := EncTransferInput(i);
            && Has(e, 0, BigEndian(8, i.amount)) && Has(e, 8, Count(|i.sigIndices|))
            && (k < |i.sigIndices| ==> Has(e, 12 + 4 * k, BigEndian(4, i.sigIndices[k])))
  {
    CountIs(|i.sigIndices|);
    HasThree(BigEndian(8, i.amount), Count(|i.sigIndices|), EncAll(Be4, i.sigIndices));
    if k < |i.sigIndices| {
      HasFixed(Be4, 4, i.sigIndices, k);
      HasWithin(EncTransferInput(i), 12, EncAll(Be4, i.sigIndices), 4 * k, Be4(i.sigIndices[k]));
    }
  }

  lemma InputBodyLayout(t: Option<TransferInput>, s: Option<StakeableLockIn>)
    ensures var e := EncInputBody(t, s);
            && (t.Some? ==> Has(e, 0, [0, 0, 0, 5]) && Has(e, 4, EncTransferInput(t.value)))
            && (t.None? && s.Some? ==>
                  && Has(e, 0, [0, 0, 0, 21]) && Has(e, 4, BigEndian(8, s.value.locktime))
                  && Has(e, 12, EncTransferInput(s.value.transferInput)))
  {
    assert Be4(5) == [0, 0, 0, 5] && Be4(21) == [0, 0, 0, 21];
    if t.Some? {
      HasThree(Be4(5), EncTransferInput(t.value), []);
      assert EncTransferInput(t.value) + [] == EncTransferInput(t.value);
    } else if s.Some? {
      HasThree(Be4(21), BigEndian(8, s.value.locktime), EncTransferInput(s.value.transferInput));
    }
  }

  /** An input: type id 5, or 21 with no second one inside. */
  lemma InputLayout(i: Input)
    requires i.HasVariant()
    ensures var e := EncInput(i);
            && Has(e, 0, i.utxoId.txId) && Has(e, 32, BigEndian(4, i.utxoId.outputIndex)) && Has(e, 36, i.assetId)
            && (i.transferInput.Some? ==>
                  Has(e, 68, [0, 0, 0, 5]) && Has(e, 72, EncTransferInput(i.transferInput.value)))
            && (i.transferInput.None? ==>
                  && Has(e, 68, [0, 0, 0, 21]) && Has(e, 72, BigEndian(8, i.stakeableLockIn.value.locktime))
                  && Has(e, 80, EncTransferInput(i.stakeableLockIn.value.transferInput)))
  {
    var b, e := EncInputBody(i.transferInput, i.stakeableLockIn), EncInput(i);
    InputBodyLayout(i.transferInput, i.stakeableLockIn);
    HasFour(i.utxoId.txId, Be4(i.utxoId.outputIndex), i.assetId, b);
    if i.transferInput.Some? {
      HasWithin(e, 68, b, 0, [0, 0, 0, 5]);
      HasWithin(e, 68, b, 4, EncTransferInput(i.transferInput.value));
    } else {
      HasWithin(e, 68, b, 0, [0, 0, 0, 21]);
      HasWithin(e, 68, b, 4, BigEndian(8, i.stakeableLockIn.value.locktime));
      HasWithin(e, 68, b, 12, EncTransferInput(i.stakeableLockIn.value.transferInput));
    }
  }

  // ---- transactions ----

  /** A list at an offset: its count, and element k behind the elements before it. */
  lemma ListIn<T>(e: Bytes, at: nat, n: Bytes, enc: T -> Bytes, size: T -> nat, xs: seq<T>, k: nat)
    requires |n| == 4 && Has(e, at, n + EncAll(enc, xs))
    requires forall i :: 0 <= i < |xs| ==> |enc(xs[i])| == size(xs[i])
    ensures Has(e, at, n) && (k < |xs| ==> Has(e, at + 4 + SumOf(size, xs[..k]), enc(xs[k])))
  {
    var list := EncAll(enc, xs);
    assert list + [] == list;
    ThreeIn(e, at, n, list, []);
    if k < |xs| {
      HasElement(enc, size, xs, k);
      HasWithin(e, at + 4, list, SumOf(size, xs[..k]), enc(xs[k]));
    }
  }

  lemma OutputsLayout(os: seq<Output>)
    ensures EncOutputs(os) == Count(|os|) + EncAll(EncOutput, os) && |EncOutputs(os)| == 4 + SumOf(OutputSize, os)
    ensures forall i :: 0 <= i < |os| ==> |EncOutput(os[i])| == OutputSize(os[i])
  {
    CountIs(|os|);
    forall o: Output
      ensures |EncOutput(o)| == OutputSize(o)
    {
      OutputLength(o);
    }
    EncAllLength(EncOutput, OutputSize, os);
  }

  lemma InputsLayout(xs: seq<Input>)
    ensures EncInputs(xs) == Count(|xs|) + EncAll(EncInput, xs) && |EncInputs(xs)| == 4 + SumOf(InputSize, xs)
    ensures forall i :: 0 <= i < |xs| ==> |EncInput(xs[i])| == InputSize(xs[i])
  {
    CountIs(|xs|);
    forall i: Input
      ensures |EncInput(i)| == InputSize(i)
    {
      InputLength(i);
    }
    EncAllLength(EncInput, InputSize, xs);
  }

  lemma HeaderLayout(version: u16, typeId: u32, tx: Tx)
    ensures var e := EncTx(version, typeId, tx);
            && Has(e, 0, BigEndian(2, version)) && Has(e, 2, BigEndian(4, typeId))
            && Has(e, 6, BigEndian(4, tx.networkId)) && Has(e, 10, tx.blockchainId) && Has(e, 42, EncBody(tx))
  {
    var rest := Be4(tx.networkId) + (tx.blockchainId + EncBody(tx));
    HasThree(Be4(tx.networkId), tx.blockchainId, EncBody(tx));
    HasThree(BigEndian(2, version), Be4(typeId), rest);
    var e := EncTx(version, typeId, tx);
    HasWithin(e, 6, rest, 0, Be4(tx.networkId));
    HasWithin(e, 6, rest, 4, tx.blockchainId);
    HasWithin(e, 6, rest, 36, EncBody(tx));
  }

  /** The lists and the memo of a transaction, wherever its body stands. */
  lemma BodyIn(e: Bytes, at: nat, os: seq<Output>, xs: seq<Input>, memo: Bytes)
    requires Has(e, at, EncOutputs(os) + (EncInputs(xs) + EncMemo(memo)))
    ensures var n := at + 4 + SumOf(OutputSize, os);
            var m := n + 4 + SumOf(InputSize, xs);
            && Has(e, at, EncOutputs(os)) && Has(e, n, EncInputs(xs))
            && Has(e, m, Count(|memo|) + memo)
  {
    OutputsLayout(os);
    InputsLayout(xs);
    CountIs(|memo|);
    ThreeIn(e, at, EncOutputs(os), EncInputs(xs), Count(|memo|) + memo);
  }

  /** The type ids of an output that stands at an offset: 7, or 22 with 7 inside. */
  predicate OutputMarked(e: Bytes, at: nat, o: Output) {
    if o.transferOutput.Some? then Has(e, at + 32, [0, 0, 0, 7])
    else Has(e, at + 32, [0, 0, 0, 22]) && Has(e, at + 44, [0, 0, 0, 7])
  }

  /** The type id of an input that stands at an offset: 5 or 21. */
  predicate InputMarked(e: Bytes, at: nat, i: Input) {
    Has(e, at + 68, if i.transferInput.Some? then [0, 0, 0, 5] else [0, 0, 0, 21])
  }

  /** An output as it is written at an offset. */
  function OutputAt(e: Bytes): (nat, Output) -> bool {
    (at: nat, o: Output) => Has(e, at, EncOutput(o)) && (o.HasVariant() ==> OutputMarked(e, at, o))
  }

  function InputAt(e: Bytes): (nat, Input) -> bool {
    (at: nat, i: Input) => Has(e, at, EncInput(i)) && (i.HasVariant() ==> InputMarked(e, at, i))
  }

  /** A list at an offset: its count, then every element behind the ones before it. */
  ghost predicate Placed<T>(e: Bytes, at: nat, size: T -> nat, xs: seq<T>, place: (nat, T) -> bool) {
    && Has(e, at, Count(|xs|))
    && forall k :: 0 <= k < |xs| ==> place(at + 4 + SumOf(size, xs[..k]), xs[k])
  }

  lemma OutputIn(e: Bytes, at: nat, o: Output)
    requires Has(e, at, EncOutput(o))
    ensures OutputAt(e)(at, o)
  {
    if o.HasVariant() {
      OutputLayout(o);
    }
    if o.transferOutput.Some? {
      HasWithin(e, at, EncOutput(o), 32, [0, 0, 0, 7]);
    } else if o.stakeableLockOut.Some? {
      HasWithin(e, at, EncOutput(o), 32, [0, 0, 0, 22]);
      HasWithin(e, at, EncOutput(o), 44, [0, 0, 0, 7]);
    }
  }

  lemma InputIn(e: Bytes, at: nat, i: Input)
    requires Has(e, at, EncInput(i))
    ensures InputAt(e)(at, i)
  {
    if i.HasVariant() {
      InputLayout(i);
      HasWithin(e, at, EncInput(i), 68, if i.transferInput.Some? then [0, 0, 0, 5] else [0, 0, 0, 21]);
    }
  }

  lemma ListPlaced<T(!new)>(e: Bytes, at: nat, enc: T -> Bytes, size: T -> nat, xs: seq<T>,
                            place: (nat, T) -> bool)
    requires Has(e, at, Count(|xs|) + EncAll(enc, xs))
    requires forall i :: 0 <= i < |xs| ==> |enc(xs[i])| == size(xs[i])
    requires forall p: nat, x :: Has(e, p, enc(x)) ==> place(p, x)
    ensures Placed(e, at, size, xs, place)
  {
    ListIn(e, at, Count(|xs|), enc, size, xs, |xs|);
    forall k | 0 <= k < |xs|
      ensures place(at + 4 + SumOf(size, xs[..k]), xs[k])
    {
      ListIn(e, at, Count(|xs|), enc, size, xs, k);
    }
  }

  lemma OutputsPlaced(e: Bytes, at: nat, os: seq<Output>)
    requires Has(e, at, EncOutputs(os))
    ensures Placed(e, at, OutputSize, os, OutputAt(e))
  {
    OutputsLayout(os);
    forall p: nat, o: Output | Has(e, p, EncOutput(o))
      ensures OutputAt(e)(p, o)
    {
      OutputIn(e, p, o);
    }
    ListPlaced(e, at, EncOutput, OutputSize, os, OutputAt(e));
  }

  lemma InputsPlaced(e: Bytes, at: nat, xs: seq<Input>)
    requires Has(e, at, EncInputs(xs))
    ensures Placed(e, at, InputSize, xs, InputAt(e))
  {
    InputsLayout(xs);
    forall p: nat, i: Input | Has(e, p, EncInput(i))
      ensures InputAt(e)(p, i)
    {
      InputIn(e, p, i);
    }
    ListPlaced(e, at, EncInput, InputSize, xs, InputAt(e));
  }

  /** What is where behind the 42 bytes of fixed fields: the outputs, the inputs and the memo. */
  ghost predicate Laid(e: Bytes, os: seq<Output>, xs: seq<Input>, memo: Bytes) {
    var n := 46 + SumOf(OutputSize, os);
    var m := n + 4 + SumOf(InputSize, xs);
    && Placed(e, 42, OutputSize, os, OutputAt(e)) && Placed(e, n, InputSize, xs, InputAt(e))
    && Has(e, m, Count(|memo|) + memo)
  }

  lemma BodyLaid(e: Bytes, os: seq<Output>, xs: seq<Input>, memo: Bytes)
    requires Has(e, 42, EncOutputs(os) + (EncInputs(xs) + EncMemo(memo)))
    ensures Laid(e, os, xs, memo)
  {
    BodyIn(e, 42, os, xs, memo);
    OutputsPlaced(e, 42, os);
    InputsPlaced(e, 46 + SumOf(OutputSize, os), xs);
  }

  /**
   Where everything in a packed transaction is: the fixed fields, each output and input with the type
   ids it is written under, and the memo.
   */
  lemma TxLayout(version: u16, typeId: u32, tx: Tx)
    ensures var e := EncTx(version, typeId, tx);
            && Has(e, 0, BigEndian(2, version)) && Has(e, 2, BigEndian(4, typeId))
            && Has(e, 6, BigEndian(4, tx.networkId)) && Has(e, 10, tx.blockchainId)
            && Laid(e, Listed(tx.outputs), Listed(tx.inputs), tx.Memo())
  {
    HeaderLayout(version, typeId, tx);
    BodyLaid(EncTx(version, typeId, tx), Listed(tx.outputs), Listed(tx.inputs), tx.Memo());
  }

  /** Tx::pack in numbers: it takes exactly what has at most 2^31-1 bytes, and lays it out like this. */
  method PackTx(tx: Tx, version: u16, typeId: u32) returns (r: Outcome, b: Bytes)
    ensures r.Pass? <==> tx.Legal() && TxSize(tx) <= 0x7FFF_FFFF
    ensures r.Pass? ==>
              && |b| == TxSize(tx) && Has(b, 0, BigEndian(2, version)) && Has(b, 2, BigEndian(4, typeId))
              && Has(b, 6, BigEndian(4, tx.networkId)) && Has(b, 10, tx.blockchainId)
              && Laid(b, Listed(tx.outputs), Listed(tx.inputs), tx.Memo())
  {
    TxLength(version, typeId, tx);
    TxLayout(version, typeId, tx);
    var p;
    r, p := Pack(tx, version, typeId);
    b := p.TakeBytes();
  }

  // ---- signed transactions ----

  function CredSize(row: seq<Sig>): nat { 8 + 65 * |row| }

  lemma CredLayout(row: seq<Sig>, j: nat)
    ensures var e := EncCred(row);
            && |e| == CredSize(row) && Has(e, 0, [0, 0, 0, 9]) && Has(e, 4, Count(|row|))
            && (j < |row| ==> Has(e, 8 + 65 * j, row[j]))
  {
    assert Be4(9) == [0, 0, 0, 9];
    CountIs(|row|);
    CredFields([0, 0, 0, 9], Count(|row|), row, j);
  }

  lemma CredFields(tag: Bytes, n: Bytes, row: seq<Sig>, j: nat)
    requires |tag| == 4 && |n| == 4
    ensures var e := tag + (n + EncAll(RawSig, row));
            && |e| == CredSize(row) && Has(e, 0, tag) && Has(e, 4, n) && (j < |row| ==> Has(e, 8 + 65 * j, row[j]))
  {
    SignaturesSize(row);
    HasThree(tag, n, EncAll(RawSig, row));
    if j < |row| {
      HasFixed(RawSig, 65, row, j);
      HasWithin(tag + (n + EncAll(RawSig, row)), 8, EncAll(RawSig, row), 65 * j, row[j]);
    }
  }

  /** The credentials behind the unsigned bytes: their count, then each under type id 9. */
  lemma CredsLayout(rows: seq<seq<Sig>>, k: nat)
    requires k < |rows| < 0x1_0000_0000
    ensures var e, at := EncCreds(rows), 4 + SumOf(CredSize, rows[..k]);
            Has(e, 0, Count(|rows|)) && Has(e, at, EncCred(rows[k])) && Has(e, at, [0, 0, 0, 9])
  {
    CountIs(|rows|);
    forall row: seq<Sig>
      ensures |EncCred(row)| == CredSize(row)
    {
      CredLayout(row, 0);
    }
    HasHead(Count(|rows|), CredBytes(rows));
    HasElement(EncCred, CredSize, rows, k);
    HasTail(Count(|rows|), CredBytes(rows), SumOf(CredSize, rows[..k]), EncCred(rows[k]));
    CredLayout(rows[k], 0);
    HasWithin(EncCreds(rows), 4 + SumOf(CredSize, rows[..k]), EncCred(rows[k]), 0, [0, 0, 0, 9]);
  }

  /** The base transaction with its type id, a chain and a list, one behind the other; credentials may follow. */
  ghost predicate Exchanged<T>(e: Bytes, base: Bytes, tag: Bytes, chainId: Id, size: T -> nat, xs: seq<T>,
                               place: (nat, T) -> bool)
  {
    Has(e, 0, base) && Has(e, 2, tag) && Has(e, |base|, chainId) && Placed(e, |base| + 32, size, xs, place)
  }

  lemma ExchangeLaid<T>(e: Bytes, base: Bytes, tag: Bytes, chainId: Id, size: T -> nat, xs: seq<T>,
                        place: (nat, T) -> bool, list: Bytes)
    requires base + (chainId + list) <= e && Has(base, 2, tag)
    requires forall at: nat :: Has(e, at, list) ==> Placed(e, at, size, xs, place)
    ensures Exchanged(e, base, tag, chainId, size, xs, place)
  {
    ThreeIn(e, 0, base, chainId, list);
    HasWithin(e, 0, base, 2, tag);
  }

  lemma TypeIdIn(typeId: byte, tx: Tx)
    ensures Has(EncTx(0, typeId, tx), 2, [0, 0, 0, typeId])
  {
    HeaderLayout(0, typeId, tx);
    assert BigEndian(4, typeId) == [0, 0, 0, typeId];
  }

  /** An import, signed or not: type id 3, and its inputs behind the source chain. */
  lemma ImportLayout(e: Bytes, base: Tx, chainId: Id, inputs: Option<seq<Input>>)
    requires UnsignedImport(base, chainId, inputs) <= e
    ensures Exchanged(e, EncTx(0, 3, base), [0, 0, 0, 3], chainId, InputSize, Listed(inputs), InputAt(e))
  {
    forall at: nat | Has(e, at, EncInputs(Listed(inputs)))
      ensures Placed(e, at, InputSize, Listed(inputs), InputAt(e))
    {
      InputsPlaced(e, at, Listed(inputs));
    }
    TypeIdIn(3, base);
    ExchangeLaid(e, EncTx(0, 3, base), [0, 0, 0, 3], chainId, InputSize, Listed(inputs), InputAt(e),
                 EncInputs(Listed(inputs)));
  }

  /** An export, signed or not: type id 4, and its outputs behind the destination chain. */
  lemma ExportLayout(e: Bytes, base: Tx, chainId: Id, outputs: Option<seq<Output>>)
    requires UnsignedExport(base, chainId, outputs) <= e
    ensures Exchanged(e, EncTx(0, 4, base), [0, 0, 0, 4], chainId, OutputSize, Listed(outputs), OutputAt(e))
  {
    forall at: nat | Has(e, at, EncOutputs(Listed(outputs)))
      ensures Placed(e, at, OutputSize, Listed(outputs), OutputAt(e))
    {
      OutputsPlaced(e, at, Listed(outputs));
    }
    TypeIdIn(4, base);
    ExchangeLaid(e, EncTx(0, 4, base), [0, 0, 0, 4], chainId, OutputSize, Listed(outputs), OutputAt(e),
                 EncOutputs(Listed(outputs)));
  }

  // ---- utxos, vertices, addresses ----

  lemma UtxoLayout(version: u16, u: Utxo)
    ensures var e := EncUtxo(version, u);
            && Has(e, 0, BigEndian(2, version)) && Has(e, 2, u.utxoId.txId)
            && Has(e, 34, BigEndian(4, u.utxoId.outputIndex)) && Has(e, 38, u.assetId)
            && (u.transferOutput.Some? ==>
                  Has(e, 70, [0, 0, 0, 7]) && Has(e, 74, EncTransferOutput(u.transferOutput.value)))
            && (u.transferOutput.None? && u.stakeableLockOut.Some? ==>
                  && Has(e, 70, [0, 0, 0, 22]) && Has(e, 74, BigEndian(8, u.stakeableLockOut.value.locktime))
                  && Has(e, 82, [0, 0, 0, 7]) && Has(e, 86, EncTransferOutput(u.stakeableLockOut.value.transferOutput)))
  {
    var e, body := EncUtxo(version, u), BodyOfUtxo(u);
    UtxoFields(BigEndian(2, version), u.utxoId.txId, Be4(u.utxoId.outputIndex), u.assetId, body);
    OutputBodyLayout(u.transferOutput, u.stakeableLockOut);
    if u.transferOutput.Some? {
      HasWithin(e, 70, body, 0, [0, 0, 0, 7]);
      HasWithin(e, 70, body, 4, EncTransferOutput(u.transferOutput.value));
    } else if u.stakeableLockOut.Some? {
      HasWithin(e, 70, body, 0, [0, 0, 0, 22]);
      HasWithin(e, 70, body, 4, BigEndian(8, u.stakeableLockOut.value.locktime));
      HasWithin(e, 70, body, 12, [0, 0, 0, 7]);
      HasWithin(e, 70, body, 16, EncTransferOutput(u.stakeableLockOut.value.transferOutput));
    }
  }

  lemma UtxoFields(version: Bytes, txId: Bytes, index: Bytes, asset: Bytes, body: Bytes)
    requires |version| == 2 && |txId| == 32 && |index| == 4 && |asset| == 32
    ensures var e := version + (txId + (index + (asset + body)));
            Has(e, 0, version) && Has(e, 2, txId) && Has(e, 34, index) && Has(e, 38, asset) && Has(e, 70, body)
  {
    var rest := index + (asset + body);
    HasThree(version, txId, rest);
    ThreeIn(version + (txId + rest), 34, index, asset, body);
  }

  function TxBytesSize(tx: Bytes): nat { 4 + |tx| }

  /** A vertex: its fixed fields, then the parents and the transactions behind their counts. */
  lemma VertexLayout(v: VertexData)
    ensures var e, n := EncVertex(v), 50 + 32 * |v.parentIds|;
            && Has(e, 0, BigEndian(2, v.codecVersion)) && Has(e, 2, v.chainId)
            && Has(e, 34, BigEndian(8, v.height)) && Has(e, 42, BigEndian(4, v.epoch))
            && Has(e, 46, EncParents(v.parentIds)) && Has(e, n, EncTxs(v.txs)) && |e| == n + |EncTxs(v.txs)|
  {
    ParentsLayout(v.parentIds, 0);
    VertexFields(BigEndian(2, v.codecVersion), v.chainId, Be8(v.height), Be4(v.epoch), EncParents(v.parentIds),
                 EncTxs(v.txs));
  }

  lemma VertexFields(version: Bytes, chain: Bytes, height: Bytes, epoch: Bytes, parents: Bytes, txs: Bytes)
    requires |version| == 2 && |chain| == 32 && |height| == 8 && |epoch| == 4
    ensures var e := version + (chain + (height + (epoch + (parents + txs))));
            && Has(e, 0, version) && Has(e, 2, chain) && Has(e, 34, height) && Has(e, 42, epoch)
            && Has(e, 46, parents) && Has(e, 46 + |parents|, txs) && |e| == 46 + |parents| + |txs|
  {
    var rest := height + (epoch + (parents + txs));
    var e := version + (chain + rest);
    HasThree(version, chain, rest);
    HasFour(height, epoch, parents, txs);
    FourIn(e, 34, height, epoch, parents, txs);
  }

  lemma ParentsLayout(ids: seq<Id>, j: nat)
    ensures var e := EncParents(ids);
            && Has(e, 0, Count(|ids|)) && |e| == 4 + 32 * |ids|
            && (j < |ids| ==> Has(e, 4 + 32 * j, ids[j]))
  {
    CountIs(|ids|);
    EncAllWidth(RawId, 32, ids);
    HasHead(Count(|ids|), EncAll(RawId, ids));
    if j < |ids| {
      HasFixed(RawId, 32, ids, j);
      HasTail(Count(|ids|), EncAll(RawId, ids), 32 * j, ids[j]);
    }
  }

  lemma TxsLayout(txs: seq<Bytes>, k: nat)
    ensures Has(EncTxs(txs), 0, Count(|txs|))
    ensures k < |txs| ==>
              var at := 4 + SumOf(TxBytesSize, txs[..k]);
              Has(EncTxs(txs), at, Count(|txs[k]|)) && Has(EncTxs(txs), at + 4, txs[k])
  {
    CountIs(|txs|);
    HasHead(Count(|txs|), EncAll(EncTxBytes, txs));
    if k < |txs| {
      var at := SumOf(TxBytesSize, txs[..k]);
      CountIs(|txs[k]|);
      HasElement(EncTxBytes, TxBytesSize, txs, k);
      HasTail(Count(|txs|), EncAll(EncTxBytes, txs), at, EncTxBytes(txs[k]));
      HasThree(Count(|txs[k]|), txs[k], []);
      assert txs[k] + [] == txs[k];
      HasWithin(EncTxs(txs), 4 + at, EncTxBytes(txs[k]), 0, Count(|txs[k]|));
      HasWithin(EncTxs(txs), 4 + at, EncTxBytes(txs[k]), 4, txs[k]);
    }
  }

  /** An address: sixteen bytes, an IPv4 one behind twelve zeros, and the port. */
  lemma EndpointLayout(e: Endpoint)
    ensures EndpointCodec().enc(e) ==
            match e.ip
            case V4(o) => [0, 0, 0, 0, 0, 0, 0, 0, 0, 0, 0, 0] + o + BigEndian(2, e.port)
            case V6(o) => o + BigEndian(2, e.port)
  {
    match e.ip
    case V4(o) => assert o == [o[0], o[1], o[2], o[3]];
    case V6(o) =>
  }
}
