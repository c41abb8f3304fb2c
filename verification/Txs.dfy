// src/txs/mod.rs: the base transaction and its packing.
module Txs {
  import opened Bytes
  import opened Codecs
  import opened Packers
  import opened Ids
  import opened Transferables

  datatype Metadata = Metadata(id: Id, bytesWithNoSignature: Bytes, bytesWithSignatures: Bytes)

  datatype Tx = Tx(
    metadata: Option<Metadata>,
    networkId: u32,
    blockchainId: Id,
    inputs: Option<seq<Input>>,
    outputs: Option<seq<Output>>,
    memo: Option<Bytes>)
  {
    /** Every input and output has one of its two variants. */
    predicate Legal() {
      AllOutputs(Listed(outputs)) && AllInputs(Listed(inputs))
    }

    function Memo(): Bytes {
      if memo.Some? then memo.value else []
    }

    /** What the wire keeps of a transaction. */
    function Normal(): Tx {
      Tx(None, networkId, blockchainId, Some(NormalInputs(Listed(inputs))), Some(NormalOutputs(Listed(outputs))),
         Some(Memo()))
    }
  }

  function NormalOutputs(os: seq<Output>): (ns: seq<Output>)
    ensures |ns| == |os| && forall i :: 0 <= i < |os| ==> ns[i] == os[i].Normal()
  {
    if os == [] then [] else [os[0].Normal()] + NormalOutputs(os[1..])
  }

  function NormalInputs(xs: seq<Input>): (ns: seq<Input>)
    ensures |ns| == |xs| && forall i :: 0 <= i < |xs| ==> ns[i] == xs[i].Normal()
  {
    if xs == [] then [] else [xs[0].Normal()] + NormalInputs(xs[1..])
  }

  function EncMemo(m: Bytes): Bytes {
    Be4(Cast(4, |m|)) + m
  }

  /** What Tx::pack writes, field by field. */
  function EncTx(version: u16, typeId: u32, tx: Tx): Bytes {
    BigEndian(2, version) + (Be4(typeId) + (Be4(tx.networkId) + (tx.blockchainId + EncBody(tx))))
  }

  function EncBody(tx: Tx): Bytes {
    EncOutputs(Listed(tx.outputs)) + (EncInputs(Listed(tx.inputs)) + EncMemo(tx.Memo()))
  }

  lemma EncTxIgnoresMetadata(version: u16, typeId: u32, tx: Tx, m: Option<Metadata>)
    ensures EncTx(version, typeId, tx.(metadata := m)) == EncTx(version, typeId, tx)
    ensures tx.(metadata := m).Legal() == tx.Legal()
  {
  }

  // ---- the grammar of a packed transaction ----

  datatype Unsigned = Unsigned(version: u16, typeId: u32, tx: Tx)

  function ListsCodec(): Codec<(seq<Output>, (seq<Input>, Bytes))> {
    Pair(OutputsCodec(), Pair(InputsCodec(), Headed(4)))
  }

  type UnsignedWire = (u16, (u32, (u32, (Id, (seq<Output>, (seq<Input>, Bytes))))))

  function HeaderCodec(): Codec<UnsignedWire> {
    Pair(U16(), Pair(U32(), Pair(U32(), Pair(IdCodec(), ListsCodec()))))
  }

  function TxCodec(): Codec<Unsigned> {
    Mapped(HeaderCodec(), NormalUnsigned, UnsignedTo, UnsignedFrom)
  }

  predicate NormalUnsigned(u: Unsigned) {
    u.tx.metadata.None? && u.tx.inputs.Some? && u.tx.outputs.Some? && u.tx.memo.Some?
  }

  function UnsignedTo(u: Unsigned): UnsignedWire {
    (u.version, (u.typeId, (u.tx.networkId, (u.tx.blockchainId,
     (Listed(u.tx.outputs), (Listed(u.tx.inputs), u.tx.Memo()))))))
  }

  function UnsignedFrom(w: UnsignedWire): Unsigned {
    var lists := w.1.1.1.1;
    Unsigned(w.0, w.1.0, Tx(None, w.1.1.0, w.1.1.1.0, Some(lists.1.0), Some(lists.0), Some(lists.1.1)))
  }

  lemma OutputsExact()
    ensures Exact(OutputsCodec())
  {
    OutputExact();
    ListOfExact(4, OutputCodec());
  }

  lemma InputsExact()
    ensures Exact(InputsCodec())
  {
    InputExact();
    ListOfExact(4, InputCodec());
  }

  lemma ListsExact()
    ensures Exact(ListsCodec())
  {
    OutputsExact();
    InputsExact();
    HeadedExact(4);
    PairExact3(OutputsCodec(), InputsCodec(), Headed(4));
  }

  lemma HeaderExact()
    ensures Exact(HeaderCodec())
  {
    ListsExact();
    U16Exact();
    U32Exact();
    IdExact();
    PairExact5(U16(), U32(), U32(), IdCodec(), ListsCodec());
  }

  lemma UnsignedInverse()
    ensures forall w :: NormalUnsigned(UnsignedFrom(w)) && UnsignedTo(UnsignedFrom(w)) == w
    ensures forall u :: NormalUnsigned(u) ==> UnsignedFrom(UnsignedTo(u)) == u
  {
  }

  /** The decoder of packed transactions accepts their encodings and nothing else. */
  lemma TxExact()
    ensures Exact(TxCodec())
  {
    HeaderExact();
    UnsignedInverse();
    MappedExact(HeaderCodec(), NormalUnsigned, UnsignedTo, UnsignedFrom);
  }

  predicate OutputsFit(os: seq<Output>) {
    |os| < 0x1_0000_0000 && forall i :: 0 <= i < |os| ==> OutputFits(os[i])
  }

  predicate InputsFit(xs: seq<Input>) {
    |xs| < 0x1_0000_0000 && forall i :: 0 <= i < |xs| ==> InputFits(xs[i])
  }

  /** Every length that is written survives its cast to u32. */
  predicate CastsFit(tx: Tx) {
    OutputsFit(Listed(tx.outputs)) && InputsFit(Listed(tx.inputs)) && |tx.Memo()| < 0x1_0000_0000
  }

  // ---- the code writes what the grammar says ----

  predicate OutputWritable(o: Output) { o.Normal() == o && OutputFits(o) }

  predicate InputWritable(i: Input) { i.Normal() == i && InputFits(i) }

  predicate OutputsWritable(os: seq<Output>) {
    |os| < 0x1_0000_0000 && forall i :: 0 <= i < |os| ==> OutputWritable(os[i])
  }

  predicate InputsWritable(xs: seq<Input>) {
    |xs| < 0x1_0000_0000 && forall i :: 0 <= i < |xs| ==> InputWritable(xs[i])
  }

  /** A normal transaction whose counts fit: what the decoder can return. */
  predicate Writable(tx: Tx) {
    && tx.metadata.None? && tx.inputs.Some? && tx.outputs.Some? && tx.memo.Some?
    && OutputsWritable(Listed(tx.outputs)) && InputsWritable(Listed(tx.inputs)) && |tx.Memo()| < 0x1_0000_0000
  }

  lemma OutputsEnc(os: seq<Output>)
    requires AllOutputs(os)
    ensures OutputsCodec().enc(os) == EncOutputs(os)
    ensures OutputsCodec().ok(os) <==> OutputsWritable(os)
  {
    forall i | 0 <= i < |os|
      ensures OutputCodec().enc(os[i]) == EncOutput(os[i]) && (OutputCodec().ok(os[i]) <==> OutputWritable(os[i]))
    {
      OutputEnc(os[i]);
    }
    ListAt(4, OutputCodec(), EncOutput, OutputWritable, os);
  }

  lemma InputsEnc(xs: seq<Input>)
    requires AllInputs(xs)
    ensures InputsCodec().enc(xs) == EncInputs(xs)
    ensures InputsCodec().ok(xs) <==> InputsWritable(xs)
  {
    forall i | 0 <= i < |xs|
      ensures InputCodec().enc(xs[i]) == EncInput(xs[i]) && (InputCodec().ok(xs[i]) <==> InputWritable(xs[i]))
    {
      InputEnc(xs[i]);
    }
    ListAt(4, InputCodec(), EncInput, InputWritable, xs);
  }

  /** The three lists as one value of their grammar: the code's bytes, readable exactly if each part is. */
  lemma ListsAt(os: seq<Output>, xs: seq<Input>, memo: Bytes)
    ensures ListsCodec().enc((os, (xs, memo))) == OutputsCodec().enc(os) + (InputsCodec().enc(xs) + EncMemo(memo))
    ensures ListsCodec().ok((os, (xs, memo))) <==>
            OutputsCodec().ok(os) && InputsCodec().ok(xs) && |memo| < 0x1_0000_0000
  {
    PairAt(OutputsCodec(), Pair(InputsCodec(), Headed(4)), os, (xs, memo));
    PairAt(InputsCodec(), Headed(4), xs, memo);
  }

  lemma ListsEnc(os: seq<Output>, xs: seq<Input>, memo: Bytes)
    requires AllOutputs(os) && AllInputs(xs)
    ensures ListsCodec().enc((os, (xs, memo))) == EncOutputs(os) + (EncInputs(xs) + EncMemo(memo))
    ensures ListsCodec().ok((os, (xs, memo))) <==>
            OutputsWritable(os) && InputsWritable(xs) && |memo| < 0x1_0000_0000
  {
    ListsAt(os, xs, memo);
    OutputsEnc(os);
    InputsEnc(xs);
  }

  /** The fields in front of the lists are fixed-size and always readable. */
  lemma HeaderAt(version: u16, typeId: u32, networkId: u32, chain: Id, lists: (seq<Output>, (seq<Input>, Bytes)))
    ensures var w := (version, (typeId, (networkId, (chain, lists))));
            && HeaderCodec().enc(w) ==
               BigEndian(2, version) + (Be4(typeId) + (Be4(networkId) + (chain + ListsCodec().enc(lists))))
            && (HeaderCodec().ok(w) <==> ListsCodec().ok(lists))
  {
    var fromChain := Pair(IdCodec(), ListsCodec());
    var fromNetwork := Pair(U32(), fromChain);
    PairAt(U16(), Pair(U32(), fromNetwork), version, (typeId, (networkId, (chain, lists))));
    PairAt(U32(), fromNetwork, typeId, (networkId, (chain, lists)));
    PairAt(U32(), fromChain, networkId, (chain, lists));
    PairAt(IdCodec(), ListsCodec(), chain, lists);
  }

  lemma BodyEnc(tx: Tx)
    requires tx.Legal()
    ensures ListsCodec().enc((Listed(tx.outputs), (Listed(tx.inputs), tx.Memo()))) == EncBody(tx)
    ensures Writable(tx) ==> ListsCodec().ok((Listed(tx.outputs), (Listed(tx.inputs), tx.Memo())))
  {
    ListsEnc(Listed(tx.outputs), Listed(tx.inputs), tx.Memo());
  }

  lemma WireEnc(tx: Tx, version: u16, typeId: u32, w: UnsignedWire)
    requires tx.Legal()
    requires w == (version, (typeId, (tx.networkId, (tx.blockchainId,
                  (Listed(tx.outputs), (Listed(tx.inputs), tx.Memo()))))))
    ensures HeaderCodec().enc(w) == EncTx(version, typeId, tx)
    ensures Writable(tx) ==> HeaderCodec().ok(w)
  {
    HeaderAt(version, typeId, tx.networkId, tx.blockchainId, w.1.1.1.1);
    BodyEnc(tx);
  }

  lemma TxAt(u: Unsigned)
    ensures TxCodec().enc(u) == HeaderCodec().enc(UnsignedTo(u))
    ensures TxCodec().ok(u) <==> NormalUnsigned(u) && HeaderCodec().ok(UnsignedTo(u))
  {
    MappedAt(HeaderCodec(), NormalUnsigned, UnsignedTo, UnsignedFrom, u);
  }

  lemma TxEnc(u: Unsigned)
    requires u.tx.Legal()
    ensures TxCodec().enc(u) == EncTx(u.version, u.typeId, u.tx)
    ensures Writable(u.tx) ==> TxCodec().ok(u)
  {
    TxAt(u);
    WireEnc(u.tx, u.version, u.typeId, UnsignedTo(u));
  }

  // ---- the length casts ----

  lemma SmallOutputsFit(os: seq<Output>)
    requires AllOutputs(os) && |EncOutputs(os)| < 0x1_0000_0000
    ensures OutputsFit(os)
  {
    EncAllSize(EncOutput, os, 1);
    forall i | 0 <= i < |os|
      ensures OutputFits(os[i])
    {
      EncAllContains(EncOutput, os, i);
      SmallOutputFits(os[i]);
    }
  }

  lemma SmallInputsFit(xs: seq<Input>)
    requires AllInputs(xs) && |EncInputs(xs)| < 0x1_0000_0000
    ensures InputsFit(xs)
  {
    EncAllSize(EncInput, xs, 1);
    forall i | 0 <= i < |xs|
      ensures InputFits(xs[i])
    {
      EncAllContains(EncInput, xs, i);
      SmallInputFits(xs[i]);
    }
  }

  /** The size cap bounds every list, so whenever packing succeeds no `len() as u32` lost bits. */
  lemma PackedCastsFit(version: u16, typeId: u32, tx: Tx)
    requires tx.Legal() && |EncTx(version, typeId, tx)| <= MAX_PACK
    ensures CastsFit(tx)
  {
    SmallOutputsFit(Listed(tx.outputs));
    SmallInputsFit(Listed(tx.inputs));
  }

  // ---- decoding what was packed ----

  lemma NormalOutputSame(o: Output)
    requires o.HasVariant()
    ensures o.Normal().HasVariant() && EncOutput(o.Normal()) == EncOutput(o)
    ensures OutputFits(o) ==> OutputWritable(o.Normal())
  {
  }

  lemma NormalInputSame(i: Input)
    requires i.HasVariant()
    ensures i.Normal().HasVariant() && EncInput(i.Normal()) == EncInput(i)
    ensures InputFits(i) ==> InputWritable(i.Normal())
  {
  }

  lemma NormalOutputsSame(os: seq<Output>)
    requires AllOutputs(os)
    ensures AllOutputs(NormalOutputs(os)) && EncOutputs(NormalOutputs(os)) == EncOutputs(os)
    ensures OutputsFit(os) ==> forall i :: 0 <= i < |os| ==> OutputWritable(NormalOutputs(os)[i])
  {
    forall i | 0 <= i < |os|
      ensures NormalOutputs(os)[i].HasVariant() && EncOutput(NormalOutputs(os)[i]) == EncOutput(os[i])
      ensures OutputFits(os[i]) ==> OutputWritable(NormalOutputs(os)[i])
    {
      NormalOutputSame(os[i]);
    }
    EncAllSame(EncOutput, NormalOutputs(os), os);
  }

  lemma NormalInputsSame(xs: seq<Input>)
    requires AllInputs(xs)
    ensures AllInputs(NormalInputs(xs)) && EncInputs(NormalInputs(xs)) == EncInputs(xs)
    ensures InputsFit(xs) ==> forall i :: 0 <= i < |xs| ==> InputWritable(NormalInputs(xs)[i])
  {
    forall i | 0 <= i < |xs|
      ensures NormalInputs(xs)[i].HasVariant() && EncInput(NormalInputs(xs)[i]) == EncInput(xs[i])
      ensures InputFits(xs[i]) ==> InputWritable(NormalInputs(xs)[i])
    {
      NormalInputSame(xs[i]);
    }
    EncAllSame(EncInput, NormalInputs(xs), xs);
  }

  lemma NormalSameBytes(version: u16, typeId: u32, tx: Tx)
    requires tx.Legal()
    ensures tx.Normal().Legal()
    ensures EncTx(version, typeId, tx.Normal()) == EncTx(version, typeId, tx)
    ensures CastsFit(tx) ==> Writable(tx.Normal())
  {
    NormalOutputsSame(Listed(tx.outputs));
    NormalInputsSame(Listed(tx.inputs));
  }

  /** A list of packable outputs is written like its normal form, which the decoder accepts. */
  lemma OutputsNormal(os: seq<Output>)
    requires AllOutputs(os) && |EncOutputs(os)| < 0x1_0000_0000
    ensures OutputsCodec().ok(NormalOutputs(os)) && OutputsCodec().enc(NormalOutputs(os)) == EncOutputs(os)
  {
    SmallOutputsFit(os);
    NormalOutputsSame(os);
    OutputsEnc(NormalOutputs(os));
  }

  lemma InputsNormal(xs: seq<Input>)
    requires AllInputs(xs) && |EncInputs(xs)| < 0x1_0000_0000
    ensures InputsCodec().ok(NormalInputs(xs)) && InputsCodec().enc(NormalInputs(xs)) == EncInputs(xs)
  {
    SmallInputsFit(xs);
    NormalInputsSame(xs);
    InputsEnc(NormalInputs(xs));
  }

  lemma WritableDecodes(u: Unsigned, rest: Bytes)
    requires u.tx.Legal() && Writable(u.tx)
    ensures TxCodec().dec(EncTx(u.version, u.typeId, u.tx) + rest) == Some((u, rest))
  {
    TxEnc(u);
    TxExact();
    CompleteAt(TxCodec(), u, rest);
  }

  /**
   Decoding the packed bytes of a transaction, whatever follows them, gives the transaction back up
   to what the wire keeps of it.
   */
  lemma PackedDecodes(version: u16, typeId: u32, tx: Tx, rest: Bytes)
    requires tx.Legal() && |EncTx(version, typeId, tx)| <= MAX_PACK
    ensures TxCodec().dec(EncTx(version, typeId, tx) + rest)
         == Some((Unsigned(version, typeId, tx.Normal()), rest))
  {
    PackedCastsFit(version, typeId, tx);
    NormalSameBytes(version, typeId, tx);
    WritableDecodes(Unsigned(version, typeId, tx.Normal()), rest);
  }

  lemma EqualBytesAgree(v1: u16, t1: u32, tx1: Tx, v2: u16, t2: u32, tx2: Tx)
    requires tx1.Legal() && |EncTx(v1, t1, tx1)| <= MAX_PACK
    requires tx2.Legal() && |EncTx(v2, t2, tx2)| <= MAX_PACK
    requires EncTx(v1, t1, tx1) == EncTx(v2, t2, tx2)
    ensures v1 == v2 && t1 == t2 && tx1.Normal() == tx2.Normal()
  {
    PackedDecodes(v1, t1, tx1, []);
    PackedDecodes(v2, t2, tx2, []);
  }

  lemma NormalsAgree(v: u16, t: u32, tx1: Tx, tx2: Tx)
    requires tx1.Legal() && tx2.Legal() && tx1.Normal() == tx2.Normal()
    ensures EncTx(v, t, tx1) == EncTx(v, t, tx2)
  {
    NormalSameBytes(v, t, tx1);
    NormalSameBytes(v, t, tx2);
  }

  /**
   The packed bytes are a faithful hash preimage: two packable transactions have equal bytes exactly
   when they agree in version, type ID and everything the wire keeps.
   */
  lemma PackedInjective(v1: u16, t1: u32, tx1: Tx, v2: u16, t2: u32, tx2: Tx)
    requires tx1.Legal() && |EncTx(v1, t1, tx1)| <= MAX_PACK
    requires tx2.Legal() && |EncTx(v2, t2, tx2)| <= MAX_PACK
    ensures EncTx(v1, t1, tx1) == EncTx(v2, t2, tx2) <==> v1 == v2 && t1 == t2 && tx1.Normal() == tx2.Normal()
  {
    if EncTx(v1, t1, tx1) == EncTx(v2, t2, tx2) {
      EqualBytesAgree(v1, t1, tx1, v2, t2, tx2);
    }
    if v1 == v2 && t1 == t2 && tx1.Normal() == tx2.Normal() {
      NormalsAgree(v1, t1, tx1, tx2);
    }
  }

  // ---- the packing itself ----

  /** Tx::pack: succeeds exactly when every input and output has a variant and everything fits the cap. */
  method Pack(tx: Tx, version: u16, typeId: u32) returns (r: Outcome, p: Packer)
    ensures fresh(p) && p.maxSize == MAX_PACK && !p.header
    ensures r.Pass? <==> tx.Legal() && |EncTx(version, typeId, tx)| <= 0x7FFF_FFFF
    ensures r.Pass? ==> p.Packing() && p.bytes == EncTx(version, typeId, tx)
  {
    p := new Packer.New(MAX_PACK);
    r := PackInto(p, tx, version, typeId);
    assert [] + EncTx(version, typeId, tx) == EncTx(version, typeId, tx);
  }

  method PackInto(p: Packer, tx: Tx, version: u16, typeId: u32) returns (r: Outcome)
    requires p.Packing()
    modifies p`bytes, p`offset
    ensures if tx.Legal() then p.Wrote(old(p.bytes), r, EncTx(version, typeId, tx)) else r.Fail?
  {
    ghost var a, b, rest := BigEndian(2, version), Be4(typeId), Be4(tx.networkId) + (tx.blockchainId + EncBody(tx));
    Associative(p.bytes, a, b + rest);
    Associative(p.bytes + a, b, rest);
    :- p.PackU16(version);
    :- p.PackU32(typeId);
    r := PackStruct(p, tx);
  }

  /** The fields of the base transaction, after the codec version and the type ID. */
  method PackStruct(p: Packer, tx: Tx) returns (r: Outcome)
    requires p.Packing()
    modifies p`bytes, p`offset
    ensures if tx.Legal() then p.Wrote(old(p.bytes), r, Be4(tx.networkId) + (tx.blockchainId + EncBody(tx)))
            else r.Fail?
  {
    Associative(p.bytes, Be4(tx.networkId), tx.blockchainId + EncBody(tx));
    Associative(p.bytes + Be4(tx.networkId), tx.blockchainId, EncBody(tx));
    :- p.PackU32(tx.networkId);
    :- p.PackBytes(tx.blockchainId);
    r := PackBody(p, tx);
  }

  /** Outputs, inputs and memo. */
  method PackBody(p: Packer, tx: Tx) returns (r: Outcome)
    requires p.Packing()
    modifies p`bytes, p`offset
    ensures if tx.Legal() then p.Wrote(old(p.bytes), r, EncBody(tx)) else r.Fail?
  {
    ghost var a, b, c := EncOutputs(Listed(tx.outputs)), EncInputs(Listed(tx.inputs)), EncMemo(tx.Memo());
    Associative(p.bytes, a, b + c);
    Associative(p.bytes + a, b, c);
    :- PackOutputs(p, tx.outputs);
    :- PackInputs(p, tx.inputs);
    Associative(p.bytes, Be4(Cast(4, |tx.Memo()|)), tx.Memo());
    if tx.memo.Some? {
      :- p.PackU32(Cast(4, |tx.memo.value|));
      r := p.PackBytes(tx.memo.value);
    } else {
      assert EncMemo([]) == Be4(0);
      r := p.PackU32(0);
    }
  }
}
