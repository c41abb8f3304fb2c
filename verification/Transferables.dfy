/**
 The inputs and outputs of transactions (src/txs/transferable.rs, src/key/secp256k1/txs,
 src/platformvm/txs/mod.rs) and how src/txs/mod.rs puts them on the wire.
 */
module Transferables {
  import opened Bytes
  import opened Codecs
  import opened Packers
  import opened Ids

  // Version and type IDs of src/codec/mod.rs.
  const CODEC_VERSION: u16 := 0
  const TRANSFER_INPUT_ID: u32 := 5
  const TRANSFER_OUTPUT_ID: u32 := 7
  const CREDENTIAL_ID: u32 := 9
  const LOCK_IN_ID: u32 := 21
  const LOCK_OUT_ID: u32 := 22

  /** The size cap under which transactions and UTXOs are packed, (1 << 31) - 1. */
  const MAX_PACK: nat := 0x7FFF_FFFF

  datatype OutputOwners = OutputOwners(locktime: u64, threshold: u32, addresses: seq<ShortId>)
  datatype TransferOutput = TransferOutput(amount: u64, owners: OutputOwners)
  datatype StakeableLockOut = StakeableLockOut(locktime: u64, transferOutput: TransferOutput)
  datatype TransferInput = TransferInput(amount: u64, sigIndices: seq<u32>)
  datatype StakeableLockIn = StakeableLockIn(locktime: u64, transferInput: TransferInput)
  datatype UtxoId = UtxoId(txId: Id, outputIndex: u32, symbol: bool, id: Id)

  datatype Output = Output(
    assetId: Id,
    fxId: Option<Id>,
    transferOutput: Option<TransferOutput>,
    stakeableLockOut: Option<StakeableLockOut>)
  {
    predicate HasVariant() {
      transferOutput.Some? || stakeableLockOut.Some?
    }

    /** What reaches the wire: no fx id, and the transfer variant if both are present. */
    function Normal(): Output {
      Output(assetId, None, transferOutput, if transferOutput.Some? then None else stakeableLockOut)
    }
  }

  datatype Input = Input(
    utxoId: UtxoId,
    assetId: Id,
    fxId: Id,
    transferInput: Option<TransferInput>,
    stakeableLockIn: Option<StakeableLockIn>)
  {
    predicate HasVariant() {
      transferInput.Some? || stakeableLockIn.Some?
    }

    function Normal(): Input {
      Input(UtxoId(utxoId.txId, utxoId.outputIndex, false, EMPTY_ID), assetId, EMPTY_ID, transferInput,
            if transferInput.Some? then None else stakeableLockIn)
    }
  }

  // ---- the wire grammar ----

  function OwnersWire(): Codec<(u64, (u32, seq<ShortId>))> {
    Pair(U64(), Pair(U32(), ListOf(4, ShortIdCodec())))
  }

  function OwnersCodec(): Codec<OutputOwners> {
    Mapped(OwnersWire(), Always<OutputOwners>, OwnersTo, OwnersFrom)
  }

  function OwnersTo(o: OutputOwners): (u64, (u32, seq<ShortId>)) { (o.locktime, (o.threshold, o.addresses)) }

  function OwnersFrom(w: (u64, (u32, seq<ShortId>))): OutputOwners { OutputOwners(w.0, w.1.0, w.1.1) }

  function TransferOutputWire(): Codec<(u64, OutputOwners)> {
    Pair(U64(), OwnersCodec())
  }

  function TransferOutputCodec(): Codec<TransferOutput> {
    Mapped(TransferOutputWire(), Always<TransferOutput>, TransferOutputTo, TransferOutputFrom)
  }

  function TransferOutputTo(o: TransferOutput): (u64, OutputOwners) { (o.amount, o.owners) }

  function TransferOutputFrom(w: (u64, OutputOwners)): TransferOutput { TransferOutput(w.0, w.1) }

  /** A lock-out repeats the type ID of the output inside it. */
  function LockOutWire(): Codec<(u64, (u32, TransferOutput))> {
    Pair(U64(), Pair(Word(TRANSFER_OUTPUT_ID), TransferOutputCodec()))
  }

  function LockOutCodec(): Codec<StakeableLockOut> {
    Mapped(LockOutWire(), Always<StakeableLockOut>, LockOutTo, LockOutFrom)
  }

  function LockOutTo(o: StakeableLockOut): (u64, (u32, TransferOutput)) {
    (o.locktime, (TRANSFER_OUTPUT_ID, o.transferOutput))
  }

  function LockOutFrom(w: (u64, (u32, TransferOutput))): StakeableLockOut { StakeableLockOut(w.0, w.1.1) }

  type OutputBody = Either<TransferOutput, StakeableLockOut>

  function OutputBodyCodec(): Codec<OutputBody> {
    Tagged(TRANSFER_OUTPUT_ID, TransferOutputCodec(), LOCK_OUT_ID, LockOutCodec())
  }

  /** The variant that is written. With neither there is nothing to write, and packing fails before this matters. */
  function BodyOf(t: Option<TransferOutput>, s: Option<StakeableLockOut>): OutputBody {
    match (t, s)
    case (Some(x), _) => Left(x)
    case (None, Some(y)) => Right(y)
    case (None, None) => Left(TransferOutput(0, OutputOwners(0, 0, [])))
  }

  function OutputWire(): Codec<(Id, OutputBody)> {
    Pair(IdCodec(), OutputBodyCodec())
  }

  function OutputCodec(): Codec<Output> {
    Mapped(OutputWire(), NormalOutput, OutputTo, OutputFrom)
  }

  predicate NormalOutput(o: Output) { o.HasVariant() && o == o.Normal() }

  function OutputTo(o: Output): (Id, OutputBody) { (o.assetId, BodyOf(o.transferOutput, o.stakeableLockOut)) }

  function OutputFrom(w: (Id, OutputBody)): Output {
    match w.1
    case Left(t) => Output(w.0, None, Some(t), None)
    case Right(s) => Output(w.0, None, None, Some(s))
  }

  function TransferInputWire(): Codec<(u64, seq<u32>)> {
    Pair(U64(), ListOf(4, U32()))
  }

  function TransferInputCodec(): Codec<TransferInput> {
    Mapped(TransferInputWire(), Always<TransferInput>, TransferInputTo, TransferInputFrom)
  }

  function TransferInputTo(i: TransferInput): (u64, seq<u32>) { (i.amount, i.sigIndices) }

  function TransferInputFrom(w: (u64, seq<u32>)): TransferInput { TransferInput(w.0, w.1) }

  /** A lock-in, unlike a lock-out, writes no type ID for the input inside it. */
  function LockInWire(): Codec<(u64, TransferInput)> {
    Pair(U64(), TransferInputCodec())
  }

  function LockInCodec(): Codec<StakeableLockIn> {
    Mapped(LockInWire(), Always<StakeableLockIn>, LockInTo, LockInFrom)
  }

  function LockInTo(i: StakeableLockIn): (u64, TransferInput) { (i.locktime, i.transferInput) }

  function LockInFrom(w: (u64, TransferInput)): StakeableLockIn { StakeableLockIn(w.0, w.1) }

  type InputBody = Either<TransferInput, StakeableLockIn>

  function InputBodyCodec(): Codec<InputBody> {
    Tagged(TRANSFER_INPUT_ID, TransferInputCodec(), LOCK_IN_ID, LockInCodec())
  }

  function InputBodyOf(t: Option<TransferInput>, s: Option<StakeableLockIn>): InputBody {
    match (t, s)
    case (Some(x), _) => Left(x)
    case (None, Some(y)) => Right(y)
    case (None, None) => Left(TransferInput(0, []))
  }

  function InputWire(): Codec<(Id, (u32, (Id, InputBody)))> {
    Pair(IdCodec(), Pair(U32(), Pair(IdCodec(), InputBodyCodec())))
  }

  function InputCodec(): Codec<Input> {
    Mapped(InputWire(), NormalInput, InputTo, InputFrom)
  }

  predicate NormalInput(i: Input) { i.HasVariant() && i == i.Normal() }

  function InputTo(i: Input): (Id, (u32, (Id, InputBody))) {
    (i.utxoId.txId, (i.utxoId.outputIndex, (i.assetId, InputBodyOf(i.transferInput, i.stakeableLockIn))))
  }

  function InputFrom(w: (Id, (u32, (Id, InputBody)))): Input {
    match w.1.1.1
    case Left(t) => Input(UtxoId(w.0, w.1.0, false, EMPTY_ID), w.1.1.0, EMPTY_ID, Some(t), None)
    case Right(s) => Input(UtxoId(w.0, w.1.0, false, EMPTY_ID), w.1.1.0, EMPTY_ID, None, Some(s))
  }

  // ---- exactness ----

  lemma OwnersExact()
    ensures Exact(OwnersCodec())
  {
    assert Exact(OwnersWire()) by {
      ShortIdExact();
      ListOfExact(4, ShortIdCodec());
      U32Exact();
      U64Exact();
      PairExact3(U64(), U32(), ListOf(4, ShortIdCodec()));
    }
    MappedExact(OwnersWire(), Always<OutputOwners>, OwnersTo, OwnersFrom);
  }

  lemma TransferOutputExact()
    ensures Exact(TransferOutputCodec())
  {
    assert Exact(TransferOutputWire()) by {
      OwnersExact();
      U64Exact();
      PairExact(U64(), OwnersCodec());
    }
    MappedExact(TransferOutputWire(), Always<TransferOutput>, TransferOutputTo, TransferOutputFrom);
  }

  lemma LockOutExact()
    ensures Exact(LockOutCodec())
  {
    assert Exact(LockOutWire()) by {
      TransferOutputExact();
      U64Exact();
      WordExact(TRANSFER_OUTPUT_ID);
      PairExact3(U64(), Word(TRANSFER_OUTPUT_ID), TransferOutputCodec());
    }
    MappedExact(LockOutWire(), Always<StakeableLockOut>, LockOutTo, LockOutFrom);
  }

  lemma OutputBodyExact()
    ensures Exact(OutputBodyCodec())
  {
    TransferOutputExact();
    LockOutExact();
    TaggedExact(TRANSFER_OUTPUT_ID, TransferOutputCodec(), LOCK_OUT_ID, LockOutCodec());
  }

  lemma OutputWireExact()
    ensures Exact(OutputWire())
  {
    OutputBodyExact();
    IdExact();
    PairExact(IdCodec(), OutputBodyCodec());
  }

  lemma OutputInverse()
    ensures forall w :: NormalOutput(OutputFrom(w)) && OutputTo(OutputFrom(w)) == w
    ensures forall x :: NormalOutput(x) ==> OutputFrom(OutputTo(x)) == x
  {
  }

  lemma OutputExact()
    ensures Exact(OutputCodec())
  {
    OutputWireExact();
    OutputInverse();
    MappedExact(OutputWire(), NormalOutput, OutputTo, OutputFrom);
  }

  lemma TransferInputExact()
    ensures Exact(TransferInputCodec())
  {
    assert Exact(TransferInputWire()) by {
      U32Exact();
      U64Exact();
      ListOfExact(4, U32());
      PairExact(U64(), ListOf(4, U32()));
    }
    MappedExact(TransferInputWire(), Always<TransferInput>, TransferInputTo, TransferInputFrom);
  }

  lemma InputBodyExact()
    ensures Exact(InputBodyCodec())
  {
    TransferInputExact();
    assert Exact(LockInCodec()) by {
      U64Exact();
      PairExact(U64(), TransferInputCodec());
      MappedExact(LockInWire(), Always<StakeableLockIn>, LockInTo, LockInFrom);
    }
    TaggedExact(TRANSFER_INPUT_ID, TransferInputCodec(), LOCK_IN_ID, LockInCodec());
  }

  lemma InputWireExact()
    ensures Exact(InputWire())
  {
    InputBodyExact();
    IdExact();
    U32Exact();
    PairExact4(IdCodec(), U32(), IdCodec(), InputBodyCodec());
  }

  lemma InputInverse()
    ensures forall w :: NormalInput(InputFrom(w)) && InputTo(InputFrom(w)) == w
    ensures forall x :: NormalInput(x) ==> InputFrom(InputTo(x)) == x
  {
  }

  lemma InputExact()
    ensures Exact(InputCodec())
  {
    InputWireExact();
    InputInverse();
    MappedExact(InputWire(), NormalInput, InputTo, InputFrom);
  }

  // ---- what the code writes, field by field ----

  function Raw(a: ShortId): Bytes { a }

  function EncOwners(o: OutputOwners): Bytes {
    BigEndian(8, o.locktime) + (Be4(o.threshold) + (Be4(Cast(4, |o.addresses|)) + EncAll(Raw, o.addresses)))
  }

  function EncTransferOutput(o: TransferOutput): Bytes {
    BigEndian(8, o.amount) + EncOwners(o.owners)
  }

  function EncLockOut(o: StakeableLockOut): Bytes {
    BigEndian(8, o.locktime) + (Be4(TRANSFER_OUTPUT_ID) + EncTransferOutput(o.transferOutput))
  }

  function EncOutputBody(t: Option<TransferOutput>, s: Option<StakeableLockOut>): Bytes {
    if t.Some? then Be4(TRANSFER_OUTPUT_ID) + EncTransferOutput(t.value)
    else if s.Some? then Be4(LOCK_OUT_ID) + EncLockOut(s.value)
    else []
  }

  function EncOutput(o: Output): Bytes {
    o.assetId + EncOutputBody(o.transferOutput, o.stakeableLockOut)
  }

  function EncTransferInput(i: TransferInput): Bytes {
    BigEndian(8, i.amount) + (Be4(Cast(4, |i.sigIndices|)) + EncAll(Be4, i.sigIndices))
  }

  function EncInputBody(t: Option<TransferInput>, s: Option<StakeableLockIn>): Bytes {
    if t.Some? then Be4(TRANSFER_INPUT_ID) + EncTransferInput(t.value)
    else if s.Some? then
      Be4(LOCK_IN_ID) + (BigEndian(8, s.value.locktime) + EncTransferInput(s.value.transferInput))
    else []
  }

  function EncInput(i: Input): Bytes {
    i.utxoId.txId + (Be4(i.utxoId.outputIndex) + (i.assetId + EncInputBody(i.transferInput, i.stakeableLockIn)))
  }

  function EncOutputs(os: seq<Output>): Bytes {
    Be4(Cast(4, |os|)) + EncAll(EncOutput, os)
  }

  function EncInputs(xs: seq<Input>): Bytes {
    Be4(Cast(4, |xs|)) + EncAll(EncInput, xs)
  }

  // ---- element counts that survive their cast to u32 ----

  predicate OwnersFit(o: OutputOwners) {
    |o.addresses| < 0x1_0000_0000
  }

  predicate IndicesFit(i: TransferInput) {
    |i.sigIndices| < 0x1_0000_0000
  }

  predicate BodyFits(b: OutputBody) {
    OwnersFit(if b.Left? then b.left.owners else b.right.transferOutput.owners)
  }

  predicate InputBodyFits(b: InputBody) {
    IndicesFit(if b.Left? then b.left else b.right.transferInput)
  }

  /** The address count that is written fits its u32. */
  predicate OutputFits(o: Output) {
    BodyFits(BodyOf(o.transferOutput, o.stakeableLockOut))
  }

  /** The signature index count that is written fits its u32. */
  predicate InputFits(i: Input) {
    InputBodyFits(InputBodyOf(i.transferInput, i.stakeableLockIn))
  }

  // ---- the code writes what the grammar says, and the counts decide what is legal there ----

  lemma OwnersEnc(o: OutputOwners)
    ensures OwnersCodec().enc(o) == EncOwners(o)
    ensures OwnersCodec().ok(o) <==> OwnersFit(o)
  {
    MappedAt(OwnersWire(), Always<OutputOwners>, OwnersTo, OwnersFrom, o);
    var rest := Pair(U32(), ListOf(4, ShortIdCodec()));
    PairAt(U64(), rest, o.locktime, (o.threshold, o.addresses));
    PairAt(U32(), ListOf(4, ShortIdCodec()), o.threshold, o.addresses);
    AddressesEnc(o.addresses);
  }

  lemma AddressesEnc(addresses: seq<ShortId>)
    ensures ListOf(4, ShortIdCodec()).enc(addresses) == Be4(Cast(4, |addresses|)) + EncAll(Raw, addresses)
    ensures ListOf(4, ShortIdCodec()).ok(addresses) <==> |addresses| < 0x1_0000_0000
  {
    forall a: ShortId
      ensures ShortIdCodec().enc(a) == Raw(a) && ShortIdCodec().ok(a)
    {
    }
    ListAt(4, ShortIdCodec(), Raw, (a: ShortId) => true, addresses);
  }

  lemma TransferOutputEnc(o: TransferOutput)
    ensures TransferOutputCodec().enc(o) == EncTransferOutput(o)
    ensures TransferOutputCodec().ok(o) <==> OwnersFit(o.owners)
  {
    MappedAt(TransferOutputWire(), Always<TransferOutput>, TransferOutputTo, TransferOutputFrom, o);
    PairAt(U64(), OwnersCodec(), o.amount, o.owners);
    OwnersEnc(o.owners);
  }

  lemma LockOutEnc(o: StakeableLockOut)
    ensures LockOutCodec().enc(o) == EncLockOut(o)
    ensures LockOutCodec().ok(o) <==> OwnersFit(o.transferOutput.owners)
  {
    MappedAt(LockOutWire(), Always<StakeableLockOut>, LockOutTo, LockOutFrom, o);
    var rest := Pair(Word(TRANSFER_OUTPUT_ID), TransferOutputCodec());
    PairAt(U64(), rest, o.locktime, (TRANSFER_OUTPUT_ID, o.transferOutput));
    PairAt(Word(TRANSFER_OUTPUT_ID), TransferOutputCodec(), TRANSFER_OUTPUT_ID, o.transferOutput);
    TransferOutputEnc(o.transferOutput);
  }

  lemma OutputBodyEnc(t: Option<TransferOutput>, s: Option<StakeableLockOut>)
    requires t.Some? || s.Some?
    ensures OutputBodyCodec().enc(BodyOf(t, s)) == EncOutputBody(t, s)
    ensures OutputBodyCodec().ok(BodyOf(t, s)) <==> BodyFits(BodyOf(t, s))
  {
    TaggedAt(TRANSFER_OUTPUT_ID, TransferOutputCodec(), LOCK_OUT_ID, LockOutCodec(), BodyOf(t, s));
    if t.Some? {
      TransferOutputEnc(t.value);
    } else {
      LockOutEnc(s.value);
    }
  }

  lemma OutputEnc(o: Output)
    requires o.HasVariant()
    ensures OutputCodec().enc(o) == EncOutput(o)
    ensures OutputCodec().ok(o) <==> o == o.Normal() && OutputFits(o)
  {
    MappedAt(OutputWire(), NormalOutput, OutputTo, OutputFrom, o);
    PairAt(IdCodec(), OutputBodyCodec(), o.assetId, BodyOf(o.transferOutput, o.stakeableLockOut));
    OutputBodyEnc(o.transferOutput, o.stakeableLockOut);
  }

  lemma TransferInputEnc(i: TransferInput)
    ensures TransferInputCodec().enc(i) == EncTransferInput(i)
    ensures TransferInputCodec().ok(i) <==> IndicesFit(i)
  {
    MappedAt(TransferInputWire(), Always<TransferInput>, TransferInputTo, TransferInputFrom, i);
    PairAt(U64(), ListOf(4, U32()), i.amount, i.sigIndices);
    IndicesEnc(i.sigIndices);
  }

  lemma IndicesEnc(indices: seq<u32>)
    ensures ListOf(4, U32()).enc(indices) == Be4(Cast(4, |indices|)) + EncAll(Be4, indices)
    ensures ListOf(4, U32()).ok(indices) <==> |indices| < 0x1_0000_0000
  {
    forall x: u32
      ensures U32().enc(x) == Be4(x) && U32().ok(x)
    {
    }
    ListAt(4, U32(), Be4, (x: u32) => true, indices);
  }

  lemma LockInEnc(i: StakeableLockIn)
    ensures LockInCodec().enc(i) == BigEndian(8, i.locktime) + EncTransferInput(i.transferInput)
    ensures LockInCodec().ok(i) <==> IndicesFit(i.transferInput)
  {
    MappedAt(LockInWire(), Always<StakeableLockIn>, LockInTo, LockInFrom, i);
    PairAt(U64(), TransferInputCodec(), i.locktime, i.transferInput);
    TransferInputEnc(i.transferInput);
  }

  lemma InputBodyEnc(t: Option<TransferInput>, s: Option<StakeableLockIn>)
    requires t.Some? || s.Some?
    ensures InputBodyCodec().enc(InputBodyOf(t, s)) == EncInputBody(t, s)
    ensures InputBodyCodec().ok(InputBodyOf(t, s)) <==> InputBodyFits(InputBodyOf(t, s))
  {
    TaggedAt(TRANSFER_INPUT_ID, TransferInputCodec(), LOCK_IN_ID, LockInCodec(), InputBodyOf(t, s));
    if t.Some? {
      TransferInputEnc(t.value);
    } else {
      LockInEnc(s.value);
    }
  }

  lemma InputEnc(i: Input)
    requires i.HasVariant()
    ensures InputCodec().enc(i) == EncInput(i)
    ensures InputCodec().ok(i) <==> i == i.Normal() && InputFits(i)
  {
    MappedAt(InputWire(), NormalInput, InputTo, InputFrom, i);
    var body := InputBodyOf(i.transferInput, i.stakeableLockIn);
    var rest := Pair(IdCodec(), InputBodyCodec());
    PairAt(IdCodec(), Pair(U32(), rest), i.utxoId.txId, (i.utxoId.outputIndex, (i.assetId, body)));
    PairAt(U32(), rest, i.utxoId.outputIndex, (i.assetId, body));
    PairAt(IdCodec(), InputBodyCodec(), i.assetId, body);
    InputBodyEnc(i.transferInput, i.stakeableLockIn);
  }

  lemma SmallOutputFits(o: Output)
    requires o.HasVariant() && |EncOutput(o)| < 0x1_0000_0000
    ensures OutputFits(o)
  {
    var owners := if o.transferOutput.Some? then o.transferOutput.value.owners
                  else o.stakeableLockOut.value.transferOutput.owners;
    EncAllSize(Raw, owners.addresses, 1);
  }

  lemma SmallInputFits(i: Input)
    requires i.HasVariant() && |EncInput(i)| < 0x1_0000_0000
    ensures InputFits(i)
  {
    var t := if i.transferInput.Some? then i.transferInput.value else i.stakeableLockIn.value.transferInput;
    EncAllSize(Be4, t.sigIndices, 1);
  }

  // ---- packing ----

  /** An absent list is written like an empty one. */
  function Listed<T>(xs: Option<seq<T>>): seq<T> {
    if xs.Some? then xs.value else []
  }

  predicate AllOutputs(os: seq<Output>) {
    forall i :: 0 <= i < |os| ==> os[i].HasVariant()
  }

  predicate AllInputs(xs: seq<Input>) {
    forall i :: 0 <= i < |xs| ==> xs[i].HasVariant()
  }

  method PackEachAddress(p: Packer, addresses: seq<ShortId>) returns (r: Outcome)
    requires p.Packing()
    modifies p`bytes, p`offset
    ensures p.Wrote(old(p.bytes), r, EncAll(Raw, addresses))
  {
    ghost var before, enc := p.bytes, Raw;
    assert addresses[0..] == addresses;
    for i := 0 to |addresses|
      invariant p.Packing() && before <= p.bytes
      invariant p.bytes + EncAll(enc, addresses[i..]) == before + EncAll(enc, addresses)
    {
      PackStep(p.bytes, enc, addresses, i, before + EncAll(enc, addresses));
      :- p.PackBytes(addresses[i]);
    }
    return Pass;
  }

  method PackEachIndex(p: Packer, indices: seq<u32>) returns (r: Outcome)
    requires p.Packing()
    modifies p`bytes, p`offset
    ensures p.Wrote(old(p.bytes), r, EncAll(Be4, indices))
  {
    ghost var before, enc := p.bytes, Be4;
    assert indices[0..] == indices;
    for i := 0 to |indices|
      invariant p.Packing() && before <= p.bytes
      invariant p.bytes + EncAll(enc, indices[i..]) == before + EncAll(enc, indices)
    {
      PackStep(p.bytes, enc, indices, i, before + EncAll(enc, indices));
      :- p.PackU32(indices[i]);
    }
    return Pass;
  }

  method PackOwners(p: Packer, o: OutputOwners) returns (r: Outcome)
    requires p.Packing()
    modifies p`bytes, p`offset
    ensures p.Wrote(old(p.bytes), r, EncOwners(o))
  {
    ghost var a, b, c := BigEndian(8, o.locktime), Be4(o.threshold), Be4(Cast(4, |o.addresses|));
    ghost var d := EncAll(Raw, o.addresses);
    Associative(p.bytes, a, b + (c + d));
    Associative(p.bytes + a, b, c + d);
    Associative(p.bytes + a + b, c, d);
    :- p.PackU64(o.locktime);
    :- p.PackU32(o.threshold);
    :- p.PackU32(Cast(4, |o.addresses|));
    r := PackEachAddress(p, o.addresses);
  }

  method PackTransferOutput(p: Packer, o: TransferOutput) returns (r: Outcome)
    requires p.Packing()
    modifies p`bytes, p`offset
    ensures p.Wrote(old(p.bytes), r, EncTransferOutput(o))
  {
    Associative(p.bytes, BigEndian(8, o.amount), EncOwners(o.owners));
    :- p.PackU64(o.amount);
    r := PackOwners(p, o.owners);
  }

  method PackLockOut(p: Packer, o: StakeableLockOut) returns (r: Outcome)
    requires p.Packing()
    modifies p`bytes, p`offset
    ensures p.Wrote(old(p.bytes), r, EncLockOut(o))
  {
    ghost var a, b, c := BigEndian(8, o.locktime), Be4(TRANSFER_OUTPUT_ID), EncTransferOutput(o.transferOutput);
    Associative(p.bytes, a, b + c);
    Associative(p.bytes + a, b, c);
    :- p.PackU64(o.locktime);
    :- p.PackU32(TRANSFER_OUTPUT_ID);
    r := PackTransferOutput(p, o.transferOutput);
  }

  /** The type ID and the body of an output; the transfer variant wins when both are present. */
  method PackOutputBody(p: Packer, t: Option<TransferOutput>, s: Option<StakeableLockOut>) returns (r: Outcome)
    requires p.Packing() && (t.Some? || s.Some?)
    modifies p`bytes, p`offset
    ensures p.Wrote(old(p.bytes), r, EncOutputBody(t, s))
  {
    if t.Some? {
      Associative(p.bytes, Be4(TRANSFER_OUTPUT_ID), EncTransferOutput(t.value));
      :- p.PackU32(TRANSFER_OUTPUT_ID);
      r := PackTransferOutput(p, t.value);
    } else {
      Associative(p.bytes, Be4(LOCK_OUT_ID), EncLockOut(s.value));
      :- p.PackU32(LOCK_OUT_ID);
      r := PackLockOut(p, s.value);
    }
  }

  method PackOutput(p: Packer, o: Output) returns (r: Outcome)
    requires p.Packing()
    modifies p`bytes, p`offset
    ensures if o.HasVariant() then p.Wrote(old(p.bytes), r, EncOutput(o))
            else r == Fail(if |old(p.bytes)| + 32 <= p.maxSize then MissingVariant else TooLarge)
  {
    Associative(p.bytes, o.assetId, EncOutputBody(o.transferOutput, o.stakeableLockOut));
    :- p.PackBytes(o.assetId);
    if o.transferOutput.None? && o.stakeableLockOut.None? {
      return Fail(MissingVariant);
    }
    r := PackOutputBody(p, o.transferOutput, o.stakeableLockOut);
  }

  method PackEachOutput(p: Packer, os: seq<Output>) returns (r: Outcome)
    requires p.Packing()
    modifies p`bytes, p`offset
    ensures if AllOutputs(os) then p.Wrote(old(p.bytes), r, EncAll(EncOutput, os)) else r.Fail?
  {
    ghost var before, enc := p.bytes, EncOutput;
    assert os[0..] == os;
    for i := 0 to |os|
      invariant p.Packing() && before <= p.bytes && forall j :: 0 <= j < i ==> os[j].HasVariant()
      invariant p.bytes + EncAll(enc, os[i..]) == before + EncAll(enc, os)
    {
      PackStep(p.bytes, enc, os, i, before + EncAll(enc, os));
      :- PackOutput(p, os[i]);
    }
    return Pass;
  }

  function OutputsCodec(): Codec<seq<Output>> {
    ListOf(4, OutputCodec())
  }

  method PackOutputs(p: Packer, outputs: Option<seq<Output>>) returns (r: Outcome)
    requires p.Packing()
    modifies p`bytes, p`offset
    ensures if AllOutputs(Listed(outputs)) then p.Wrote(old(p.bytes), r, EncOutputs(Listed(outputs)))
            else r.Fail?
  {
    ghost var os := Listed(outputs);
    Associative(p.bytes, Be4(Cast(4, |os|)), EncAll(EncOutput, os));
    if outputs.Some? {
      :- p.PackU32(Cast(4, |outputs.value|));
      r := PackEachOutput(p, outputs.value);
    } else {
      assert EncOutputs([]) == Be4(0) + [] == Be4(0);
      r := p.PackU32(0);
    }
  }

  method PackTransferInput(p: Packer, i: TransferInput) returns (r: Outcome)
    requires p.Packing()
    modifies p`bytes, p`offset
    ensures p.Wrote(old(p.bytes), r, EncTransferInput(i))
  {
    ghost var a, b, c := BigEndian(8, i.amount), Be4(Cast(4, |i.sigIndices|)), EncAll(Be4, i.sigIndices);
    Associative(p.bytes, a, b + c);
    Associative(p.bytes + a, b, c);
    :- p.PackU64(i.amount);
    :- p.PackU32(Cast(4, |i.sigIndices|));
    r := PackEachIndex(p, i.sigIndices);
  }

  method PackInputBody(p: Packer, t: Option<TransferInput>, s: Option<StakeableLockIn>) returns (r: Outcome)
    requires p.Packing() && (t.Some? || s.Some?)
    modifies p`bytes, p`offset
    ensures p.Wrote(old(p.bytes), r, EncInputBody(t, s))
  {
    if t.Some? {
      Associative(p.bytes, Be4(TRANSFER_INPUT_ID), EncTransferInput(t.value));
      :- p.PackU32(TRANSFER_INPUT_ID);
      r := PackTransferInput(p, t.value);
    } else {
      ghost var a, b, c := Be4(LOCK_IN_ID), BigEndian(8, s.value.locktime), EncTransferInput(s.value.transferInput);
      Associative(p.bytes, a, b + c);
      Associative(p.bytes + a, b, c);
      :- p.PackU32(LOCK_IN_ID);
      :- p.PackU64(s.value.locktime);
      r := PackTransferInput(p, s.value.transferInput);
    }
  }

  method PackInput(p: Packer, i: Input) returns (r: Outcome)
    requires p.Packing()
    modifies p`bytes, p`offset
    ensures if i.HasVariant() then p.Wrote(old(p.bytes), r, EncInput(i))
            else r == Fail(if |old(p.bytes)| + 68 <= p.maxSize then MissingVariant else TooLarge)
  {
    ghost var a, b, c := i.utxoId.txId, Be4(i.utxoId.outputIndex), i.assetId;
    ghost var d := EncInputBody(i.transferInput, i.stakeableLockIn);
    Associative(p.bytes, a, b + (c + d));
    Associative(p.bytes + a, b, c + d);
    Associative(p.bytes + a + b, c, d);
    :- p.PackBytes(i.utxoId.txId);
    :- p.PackU32(i.utxoId.outputIndex);
    :- p.PackBytes(i.assetId);
    if i.transferInput.None? && i.stakeableLockIn.None? {
      return Fail(MissingVariant);
    }
    r := PackInputBody(p, i.transferInput, i.stakeableLockIn);
  }

  method PackEachInput(p: Packer, xs: seq<Input>) returns (r: Outcome)
    requires p.Packing()
    modifies p`bytes, p`offset
    ensures if AllInputs(xs) then p.Wrote(old(p.bytes), r, EncAll(EncInput, xs)) else r.Fail?
  {
    ghost var before, enc := p.bytes, EncInput;
    assert xs[0..] == xs;
    for i := 0 to |xs|
      invariant p.Packing() && before <= p.bytes && forall j :: 0 <= j < i ==> xs[j].HasVariant()
      invariant p.bytes + EncAll(enc, xs[i..]) == before + EncAll(enc, xs)
    {
      PackStep(p.bytes, enc, xs, i, before + EncAll(enc, xs));
      :- PackInput(p, xs[i]);
    }
    return Pass;
  }

  function InputsCodec(): Codec<seq<Input>> {
    ListOf(4, InputCodec())
  }

  method PackInputs(p: Packer, inputs: Option<seq<Input>>) returns (r: Outcome)
    requires p.Packing()
    modifies p`bytes, p`offset
    ensures if AllInputs(Listed(inputs)) then p.Wrote(old(p.bytes), r, EncInputs(Listed(inputs)))
            else r.Fail?
  {
    ghost var xs := Listed(inputs);
    Associative(p.bytes, Be4(Cast(4, |xs|)), EncAll(EncInput, xs));
    if inputs.Some? {
      :- p.PackU32(Cast(4, |inputs.value|));
      r := PackEachInput(p, inputs.value);
    } else {
      assert EncInputs([]) == Be4(0) + [] == Be4(0);
      r := p.PackU32(0);
    }
  }
}
