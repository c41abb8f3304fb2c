// src/txs/utxo.rs: unspent outputs.
module Utxos {
  import opened Bytes
  import opened Codecs
  import opened Packers
  import opened Ids
  import opened Transferables
  import opened Hex

  datatype Utxo = Utxo(
    utxoId: UtxoId,
    assetId: Id,
    transferOutput: Option<TransferOutput>,
    stakeableLockOut: Option<StakeableLockOut>)
  {
    predicate HasVariant() {
      transferOutput.Some? || stakeableLockOut.Some?
    }

    /** What the wire keeps: neither the cached id nor the symbol flag, and the transfer variant if both are present. */
    function Normal(): Utxo {
      Utxo(UtxoId(utxoId.txId, utxoId.outputIndex, false, EMPTY_ID), assetId, transferOutput,
           if transferOutput.Some? then None else stakeableLockOut)
    }
  }

  /** utxo::Id::new: one prefix always fits, so it never fails on a transaction id of at most 32 bytes. */
  method NewUtxoId(sha256: Hash, txId: Bytes, outputIndex: u32, symbol: bool) returns (r: Result<UtxoId>)
    requires |txId| <= 32
    ensures r == Ok(UtxoId(FromSlice(txId), outputIndex, symbol, sha256(Be8(outputIndex) + FromSlice(txId))))
  {
    OnePrefix(outputIndex);
    var id := Prefix(sha256, FromSlice(txId), [outputIndex]);
    return Ok(UtxoId(FromSlice(txId), outputIndex, symbol, id.value));
  }

  function BodyOfUtxo(u: Utxo): Bytes {
    EncOutputBody(u.transferOutput, u.stakeableLockOut)
  }

  /** What Utxo::pack writes. An output with neither variant is written without a type ID and a body. */
  function EncUtxo(version: u16, u: Utxo): Bytes {
    BigEndian(2, version) + (u.utxoId.txId + (Be4(u.utxoId.outputIndex) + (u.assetId + BodyOfUtxo(u))))
  }

  // ---- the grammar that Utxo::unpack reads ----

  /** The type ID inside a lock-out is read and ignored. */
  type LooseLockOut = (u64, (u32, TransferOutput))
  type LooseBody = Either<TransferOutput, LooseLockOut>
  type UtxoWire = (u16, (Id, (u32, (Id, LooseBody))))

  function LooseLockOutCodec(): Codec<LooseLockOut> {
    Pair(U64(), Pair(U32(), TransferOutputCodec()))
  }

  function LooseBodyCodec(): Codec<LooseBody> {
    Tagged(TRANSFER_OUTPUT_ID, TransferOutputCodec(), LOCK_OUT_ID, LooseLockOutCodec())
  }

  function UtxoCodec(): Codec<UtxoWire> {
    Pair(U16(), Pair(IdCodec(), Pair(U32(), Pair(IdCodec(), LooseBodyCodec()))))
  }

  lemma LooseBodyExact()
    ensures Exact(LooseBodyCodec())
  {
    TransferOutputExact();
    assert Exact(LooseLockOutCodec()) by {
      U64Exact();
      U32Exact();
      PairExact3(U64(), U32(), TransferOutputCodec());
    }
    TaggedExact(TRANSFER_OUTPUT_ID, TransferOutputCodec(), LOCK_OUT_ID, LooseLockOutCodec());
  }

  lemma UtxoExact()
    ensures Exact(UtxoCodec())
  {
    LooseBodyExact();
    U16Exact();
    U32Exact();
    IdExact();
    PairExact5(U16(), IdCodec(), U32(), IdCodec(), LooseBodyCodec());
  }

  /** The utxo that unpack builds from what it read. */
  function UtxoFrom(w: UtxoWire): Utxo {
    var body := w.1.1.1.1;
    Utxo(UtxoId(w.1.0, w.1.1.0, false, EMPTY_ID), w.1.1.1.0,
         if body.Left? then Some(body.left) else None,
         if body.Right? then Some(StakeableLockOut(body.right.0, body.right.1.1)) else None)
  }

  /** What pack writes, as unpack will read it. */
  function WireOf(version: u16, u: Utxo): UtxoWire
    requires u.HasVariant()
  {
    (version, (u.utxoId.txId, (u.utxoId.outputIndex, (u.assetId,
      if u.transferOutput.Some? then Left(u.transferOutput.value)
      else Right((u.stakeableLockOut.value.locktime, (TRANSFER_OUTPUT_ID, u.stakeableLockOut.value.transferOutput)))))))
  }

  predicate LooseFits(b: LooseBody) {
    OwnersFit(if b.Left? then b.left.owners else b.right.1.1.owners)
  }

  /** The bytes of a body, with the ignored word as it was read. */
  function EncLoose(b: LooseBody): Bytes {
    match b
    case Left(t) => Be4(TRANSFER_OUTPUT_ID) + EncTransferOutput(t)
    case Right(s) => Be4(LOCK_OUT_ID) + (BigEndian(8, s.0) + (Be4(s.1.0) + EncTransferOutput(s.1.1)))
  }

  lemma LooseBodyEnc(b: LooseBody)
    ensures LooseBodyCodec().enc(b) == EncLoose(b)
    ensures LooseBodyCodec().ok(b) <==> LooseFits(b)
  {
    TaggedAt(TRANSFER_OUTPUT_ID, TransferOutputCodec(), LOCK_OUT_ID, LooseLockOutCodec(), b);
    match b
    case Left(t) => TransferOutputEnc(t);
    case Right(s) =>
      PairAt(U64(), Pair(U32(), TransferOutputCodec()), s.0, s.1);
      PairAt(U32(), TransferOutputCodec(), s.1.0, s.1.1);
      TransferOutputEnc(s.1.1);
  }

  function EncWire(w: UtxoWire): Bytes {
    BigEndian(2, w.0) + (w.1.0 + (Be4(w.1.1.0) + (w.1.1.1.0 + EncLoose(w.1.1.1.1))))
  }

  lemma WireEnc(w: UtxoWire)
    ensures UtxoCodec().enc(w) == EncWire(w)
    ensures UtxoCodec().ok(w) <==> LooseFits(w.1.1.1.1)
  {
    PairAt(U16(), Pair(IdCodec(), Pair(U32(), Pair(IdCodec(), LooseBodyCodec()))), w.0, w.1);
    PairAt(IdCodec(), Pair(U32(), Pair(IdCodec(), LooseBodyCodec())), w.1.0, w.1.1);
    PairAt(U32(), Pair(IdCodec(), LooseBodyCodec()), w.1.1.0, w.1.1.1);
    PairAt(IdCodec(), LooseBodyCodec(), w.1.1.1.0, w.1.1.1.1);
    LooseBodyEnc(w.1.1.1.1);
  }

  // ---- round trips ----

  lemma PackedUtxoFits(version: u16, u: Utxo)
    requires u.HasVariant() && |EncUtxo(version, u)| < 0x1_0000_0000
    ensures LooseFits(WireOf(version, u).1.1.1.1)
  {
    var owners := if u.transferOutput.Some? then u.transferOutput.value.owners
                  else u.stakeableLockOut.value.transferOutput.owners;
    EncAllSize(Raw, owners.addresses, 1);
  }

  lemma WireDecodesIff(w: UtxoWire, rest: Bytes)
    ensures UtxoCodec().dec(EncWire(w) + rest) == Some((w, rest)) <==> LooseFits(w.1.1.1.1)
  {
    WireEnc(w);
    UtxoExact();
    DecodesIff(UtxoCodec(), w, rest);
  }

  /** Unpacking a packed utxo gives it back, up to what the wire keeps, whatever follows. */
  lemma UtxoRoundTrip(version: u16, u: Utxo, rest: Bytes)
    requires u.HasVariant() && |EncUtxo(version, u)| < 0x1_0000_0000
    ensures UtxoCodec().dec(EncUtxo(version, u) + rest) == Some((WireOf(version, u), rest))
    ensures UtxoFrom(WireOf(version, u)) == u.Normal()
  {
    PackedUtxoFits(version, u);
    WireDecodesIff(WireOf(version, u), rest);
    assert EncWire(WireOf(version, u)) == EncUtxo(version, u);
  }

  /** A lock-out that was read carried the type ID that pack writes inside it. */
  predicate UsualInner(w: UtxoWire) {
    var body := w.1.1.1.1;
    body.Right? ==> body.right.1.0 == TRANSFER_OUTPUT_ID
  }

  /**
   Conversely, on arbitrary bytes that unpack: the encoding of the utxo with the version that was read
   is the consumed bytes, except that the ignored type ID at offset 82 of a lock-out becomes 7. So it
   is as long, and it is the same exactly if that type ID was 7 already.
   */
  lemma UtxoReencodes(b: Bytes) returns (w: UtxoWire, consumed: Bytes, rest: Bytes)
    requires UtxoCodec().dec(b).Some?
    ensures UtxoCodec().dec(b) == Some((w, rest)) && b == consumed + rest && UtxoFrom(w).HasVariant()
    ensures w.1.1.1.1.Left? ==> EncUtxo(w.0, UtxoFrom(w)) == consumed
    ensures w.1.1.1.1.Right? ==>
              |consumed| >= 86 && EncUtxo(w.0, UtxoFrom(w)) == consumed[..82] + Be4(TRANSFER_OUTPUT_ID) + consumed[86..]
    ensures |EncUtxo(w.0, UtxoFrom(w))| == |consumed|
    ensures EncUtxo(w.0, UtxoFrom(w)) == consumed <==> UsualInner(w)
  {
    w, rest := UtxoCodec().dec(b).value.0, UtxoCodec().dec(b).value.1;
    consumed := EncWire(w);
    UtxoExact();
    WireEnc(w);
    if w.1.1.1.1.Right? {
      InnerWordAt(w);
      Be4Decides(w.1.1.1.1.right.1.0, TRANSFER_OUTPUT_ID);
    }
  }

  lemma Be4Decides(x: u32, y: u32)
    ensures Be4(x) == Be4(y) <==> x == y
  {
    BigEndianInverts(4, x);
    BigEndianInverts(4, y);
  }

  lemma Regroup(a: Bytes, b: Bytes, c: Bytes, d: Bytes, e: Bytes, f: Bytes, rest: Bytes)
    ensures a + (b + (c + (d + (e + (f + rest))))) == (a + b + c + d + e + f) + rest
  {
    Associative(a, b, c + (d + (e + (f + rest))));
    Associative(a + b, c, d + (e + (f + rest)));
    Associative(a + b + c, d, e + (f + rest));
    Associative(a + b + c + d, e, f + rest);
    Associative(a + b + c + d + e, f, rest);
  }

  lemma Splice(head: Bytes, x: Bytes, y: Bytes, tail: Bytes)
    requires |head| == 82 && |x| == |y| == 4
    ensures |head + (x + tail)| >= 86
    ensures head + (y + tail) == (head + (x + tail))[..82] + y + (head + (x + tail))[86..]
    ensures head + (x + tail) == head + (y + tail) <==> x == y
  {
    var e := head + (x + tail);
    assert e[..82] == head && e[86..] == tail && e[82..86] == x;
    assert (head + (y + tail))[82..86] == y;
    Associative(head, y, tail);
  }

  /** The ignored type ID is the four bytes from offset 82. */
  lemma InnerWordAt(w: UtxoWire)
    requires w.1.1.1.1.Right?
    ensures |EncWire(w)| >= 86
    ensures EncUtxo(w.0, UtxoFrom(w)) == EncWire(w)[..82] + Be4(TRANSFER_OUTPUT_ID) + EncWire(w)[86..]
    ensures EncUtxo(w.0, UtxoFrom(w)) == EncWire(w) <==> Be4(w.1.1.1.1.right.1.0) == Be4(TRANSFER_OUTPUT_ID)
  {
    var s := w.1.1.1.1.right;
    var a, b, c, d := BigEndian(2, w.0), w.1.0, Be4(w.1.1.0), w.1.1.1.0;
    var e, f, tail := Be4(LOCK_OUT_ID), BigEndian(8, s.0), EncTransferOutput(s.1.1);
    Regroup(a, b, c, d, e, f, Be4(s.1.0) + tail);
    Regroup(a, b, c, d, e, f, Be4(TRANSFER_OUTPUT_ID) + tail);
    Splice(a + b + c + d + e + f, Be4(s.1.0), Be4(TRANSFER_OUTPUT_ID), tail);
  }

  lemma WireSize(w: UtxoWire)
    ensures |EncWire(w)| >= 74
  {
  }

  /** A utxo with neither variant is packed, but its bytes never unpack. */
  lemma NoVariantNeverUnpacks(version: u16, u: Utxo)
    requires !u.HasVariant()
    ensures UtxoCodec().dec(EncUtxo(version, u)).None?
  {
    assert |EncUtxo(version, u)| == 70;
    if UtxoCodec().dec(EncUtxo(version, u)).Some? {
      var w, rest := ConsumedBytes(EncUtxo(version, u));
      WireSize(w);
    }
  }

  lemma ConsumedBytes(b: Bytes) returns (w: UtxoWire, rest: Bytes)
    requires UtxoCodec().dec(b).Some?
    ensures b == EncWire(w) + rest
  {
    w, rest := UtxoCodec().dec(b).value.0, UtxoCodec().dec(b).value.1;
    UtxoExact();
    WireEnc(w);
  }

  /** What Utxo::unpack makes of some bytes; bytes left over are ignored. */
  function Parse(d: Bytes): Option<Utxo> {
    match UtxoCodec().dec(d)
    case None => None
    case Some((w, _)) => Some(UtxoFrom(w))
  }

  /** Packed bytes parse back exactly when the utxo has a variant, and then to its normal form. */
  lemma ParsePacked(version: u16, u: Utxo)
    requires |EncUtxo(version, u)| < 0x1_0000_0000
    ensures Parse(EncUtxo(version, u)) == if u.HasVariant() then Some(u.Normal()) else None
  {
    assert EncUtxo(version, u) + [] == EncUtxo(version, u);
    if u.HasVariant() {
      UtxoRoundTrip(version, u, []);
    } else {
      NoVariantNeverUnpacks(version, u);
    }
  }

  // ---- packing, unpacking, hex ----

  method PackUtxo(u: Utxo, version: u16) returns (r: Outcome, p: Packer)
    ensures fresh(p) && !p.header
    ensures r.Pass? <==> |EncUtxo(version, u)| <= 0x7FFF_FFFF
    ensures r.Pass? ==> p.bytes == EncUtxo(version, u)
  {
    p := new Packer.New(MAX_PACK);
    r := PackUtxoInto(p, u, version);
    assert [] + EncUtxo(version, u) == EncUtxo(version, u);
  }

  method PackUtxoInto(p: Packer, u: Utxo, version: u16) returns (r: Outcome)
    requires p.Packing()
    modifies p`bytes, p`offset
    ensures p.Wrote(old(p.bytes), r, EncUtxo(version, u))
  {
    ghost var a, b := BigEndian(2, version), u.utxoId.txId;
    ghost var rest := Be4(u.utxoId.outputIndex) + (u.assetId + BodyOfUtxo(u));
    Associative(p.bytes, a, b + rest);
    Associative(p.bytes + a, b, rest);
    :- p.PackU16(version);
    :- p.PackBytes(u.utxoId.txId);
    r := PackUtxoFrom(p, u);
  }

  /** The part from the output index on. */
  method PackUtxoFrom(p: Packer, u: Utxo) returns (r: Outcome)
    requires p.Packing()
    modifies p`bytes, p`offset
    ensures p.Wrote(old(p.bytes), r, Be4(u.utxoId.outputIndex) + (u.assetId + BodyOfUtxo(u)))
  {
    ghost var c, d, body := Be4(u.utxoId.outputIndex), u.assetId, BodyOfUtxo(u);
    Associative(p.bytes, c, d + body);
    Associative(p.bytes + c, d, body);
    :- p.PackU32(u.utxoId.outputIndex);
    :- p.PackBytes(u.assetId);
    if u.transferOutput.Some? || u.stakeableLockOut.Some? {
      r := PackOutputBody(p, u.transferOutput, u.stakeableLockOut);
    } else {
      r := Pass;
    }
  }

  method UnpackEachAddress(p: Packer, n: nat) returns (r: Result<seq<ShortId>>)
    requires p.offset <= |p.bytes|
    modifies p`offset
    ensures p.Read(old(p.offset), r, DecN(ShortIdCodec().dec, n, p.bytes[old(p.offset)..], []))
  {
    r := Ok([]);
    ghost var from, dec := p.offset, ShortIdCodec().dec;
    for i := 0 to n
      invariant from <= p.offset <= |p.bytes| && r.Ok?
      invariant DecN(dec, n, p.bytes[from..], []) == DecN(dec, n - i, p.bytes[p.offset..], r.value)
    {
      UnpackStep(dec, n - i, p.bytes[p.offset..], r.value);
      var b :- p.UnpackBytes(20);
      r := Ok(r.value + [ShortFromSlice(b)]);
    }
  }

  method UnpackAddresses(p: Packer) returns (r: Result<seq<ShortId>>)
    requires p.offset <= |p.bytes|
    modifies p`offset
    ensures p.Read(old(p.offset), r, ListOf(4, ShortIdCodec()).dec(p.bytes[old(p.offset)..]))
  {
    var n :- p.UnpackU32();
    r := UnpackEachAddress(p, n);
  }

  method UnpackOwners(p: Packer) returns (r: Result<OutputOwners>)
    requires p.offset <= |p.bytes|
    modifies p`offset
    ensures p.Read(old(p.offset), r, OwnersCodec().dec(p.bytes[old(p.offset)..]))
  {
    ghost var addressesCodec := ListOf(4, ShortIdCodec());
    PairDec(U64(), Pair(U32(), addressesCodec), p.bytes[p.offset..]);
    var locktime :- p.UnpackU64();
    PairDec(U32(), addressesCodec, p.bytes[p.offset..]);
    var threshold :- p.UnpackU32();
    var addresses :- UnpackAddresses(p);
    return Ok(OutputOwners(locktime, threshold, addresses));
  }

  method UnpackTransferOutput(p: Packer) returns (r: Result<TransferOutput>)
    requires p.offset <= |p.bytes|
    modifies p`offset
    ensures p.Read(old(p.offset), r, TransferOutputCodec().dec(p.bytes[old(p.offset)..]))
  {
    PairDec(U64(), OwnersCodec(), p.bytes[p.offset..]);
    var amount :- p.UnpackU64();
    var owners :- UnpackOwners(p);
    return Ok(TransferOutput(amount, owners));
  }

  method UnpackLockOut(p: Packer) returns (r: Result<LooseLockOut>)
    requires p.offset <= |p.bytes|
    modifies p`offset
    ensures p.Read(old(p.offset), r, LooseLockOutCodec().dec(p.bytes[old(p.offset)..]))
  {
    PairDec(U64(), Pair(U32(), TransferOutputCodec()), p.bytes[p.offset..]);
    var locktime :- p.UnpackU64();
    PairDec(U32(), TransferOutputCodec(), p.bytes[p.offset..]);
    var ignored :- p.UnpackU32();
    var t :- UnpackTransferOutput(p);
    return Ok((locktime, (ignored, t)));
  }

  method UnpackBody(p: Packer) returns (r: Result<LooseBody>)
    requires p.offset <= |p.bytes|
    modifies p`offset
    ensures p.Read(old(p.offset), r, LooseBodyCodec().dec(p.bytes[old(p.offset)..]))
  {
    var typeId :- p.UnpackU32();
    if typeId == TRANSFER_OUTPUT_ID {
      var t :- UnpackTransferOutput(p);
      return Ok(Left(t));
    } else if typeId == LOCK_OUT_ID {
      var s :- UnpackLockOut(p);
      return Ok(Right(s));
    } else {
      return Err(UnknownTypeId(typeId));
    }
  }

  method UnpackAsset(p: Packer) returns (r: Result<(u32, (Id, LooseBody))>)
    requires p.offset <= |p.bytes|
    modifies p`offset
    ensures p.Read(old(p.offset), r, Pair(U32(), Pair(IdCodec(), LooseBodyCodec())).dec(p.bytes[old(p.offset)..]))
  {
    PairDec(U32(), Pair(IdCodec(), LooseBodyCodec()), p.bytes[p.offset..]);
    var outputIndex :- p.UnpackU32();
    PairDec(IdCodec(), LooseBodyCodec(), p.bytes[p.offset..]);
    var assetId :- p.UnpackBytes(32);
    var body :- UnpackBody(p);
    return Ok((outputIndex, (FromSlice(assetId), body)));
  }

  method UnpackFields(p: Packer) returns (r: Result<UtxoWire>)
    requires p.offset <= |p.bytes|
    modifies p`offset
    ensures p.Read(old(p.offset), r, UtxoCodec().dec(p.bytes[old(p.offset)..]))
  {
    ghost var rest := Pair(U32(), Pair(IdCodec(), LooseBodyCodec()));
    PairDec(U16(), Pair(IdCodec(), rest), p.bytes[p.offset..]);
    var version :- p.UnpackU16();
    PairDec(IdCodec(), rest, p.bytes[p.offset..]);
    var txId :- p.UnpackBytes(32);
    var fields :- UnpackAsset(p);
    return Ok((version, (FromSlice(txId), fields)));
  }

  /** Utxo::unpack. */
  method UnpackUtxo(d: Bytes) returns (r: Result<Utxo>)
    ensures if Parse(d).Some? then r == Ok(Parse(d).value) else r.Err?
  {
    var p := new Packer.LoadBytesForUnpack(|d| + 1024, d);
    assert p.bytes[0..] == d;
    var w :- UnpackFields(p);
    return Ok(UtxoFrom(w));
  }

  /**
   Unpack a utxo from arbitrary bytes, then pack it with the version that was read. That succeeds
   exactly if the n bytes that were consumed fit under the cap of pack, which unpack does not have. It
   gives them back but for the ignored type ID of a lock-out, hence unchanged exactly if that was 7.
   */
  method UnpackThenPack(d: Bytes) returns (unpacked: Result<UtxoWire>, n: nat, packed: Outcome, b: Bytes)
    ensures unpacked.Ok? <==> UtxoCodec().dec(d).Some?
    ensures unpacked.Ok? ==>
              && n <= |d| && UtxoCodec().dec(d) == Some((unpacked.value, d[n..]))
              && (unpacked.value.1.1.1.1.Right? ==> n >= 86)
              && (packed.Pass? <==> n <= 0x7FFF_FFFF)
    ensures unpacked.Ok? && packed.Pass? ==>
              && b == (if unpacked.value.1.1.1.1.Left? then d[..n]
                       else d[..82] + Be4(TRANSFER_OUTPUT_ID) + d[86..n])
              && (b == d[..n] <==> UsualInner(unpacked.value))
  {
    var q := new Packer.LoadBytesForUnpack(|d| + 1024, d);
    assert d[0..] == d;
    unpacked := UnpackFields(q);
    n, packed, b := q.offset, Pass, [];
    if unpacked.Ok? {
      ghost var w, consumed, rest := UtxoReencodes(d);
      Consumed(d, consumed, n);
      var p;
      packed, p := PackUtxo(UtxoFrom(unpacked.value), unpacked.value.0);
      b := p.TakeBytes();
    }
  }

  lemma Consumed(d: Bytes, e: Bytes, n: nat)
    requires n <= |d| && d == e + d[n..]
    ensures e == d[..n]
    ensures n >= 86 ==> e[..82] == d[..82] && e[86..] == d[86..n]
  {
    assert |e| == n;
    assert d[..n] == (e + d[n..])[..n];
  }

  method ToHex(sha256: Hash, u: Utxo) returns (r: Result<string>)
    ensures r.Ok? <==> |EncUtxo(CODEC_VERSION, u)| <= 0x7FFF_FFFF
    ensures r.Ok? ==> r.value == "0x" + EncodeWithChecksum(sha256, EncUtxo(CODEC_VERSION, u))
    ensures r.Ok? ==>
              var d := EncUtxo(CODEC_VERSION, u);
              "0x" <= r.value && Decode(r.value[2..]) == Some(d + sha256(d)[28..32])
  {
    CheckedText(sha256, EncUtxo(CODEC_VERSION, u));
    var packed, p := PackUtxo(u, CODEC_VERSION);
    if packed.Fail? {
      return Err(packed.error);
    }
    var b := p.TakeBytes();
    return Ok("0x" + EncodeWithChecksum(sha256, b));
  }

  /** The utxo that a text without prefix stands for: hex, with a verified tail, that parses. */
  function FromText(sha256: Hash, t: string): Option<Utxo> {
    match Decode(t)
    case None => None
    case Some(b) => ParseVerified(Verified(sha256, b))
  }

  function ParseVerified(d: Option<Bytes>): Option<Utxo> {
    if d.Some? then Parse(d.value) else None
  }

  function ParseChecked(d: Result<Bytes>): Option<Utxo> {
    if d.Ok? then Parse(d.value) else None
  }

  lemma FromTextIs(sha256: Hash, t: string)
    requires LongEnough(t)
    ensures FromText(sha256, t) == ParseChecked(DecodeWithChecksum(sha256, t))
  {
    AcceptedIff(sha256, t);
  }

  method UnpackChecked(d: Result<Bytes>) returns (r: Result<Utxo>)
    ensures var u := ParseChecked(d);
            if u.Some? then r == Ok(u.value) else r.Err?
  {
    var b :- d;
    r := UnpackUtxo(b);
  }

  /** Utxo::from_hex: what is left after trimming must be hex, checked, and hold a utxo. */
  method FromHex(sha256: Hash, s: string) returns (r: Result<Utxo>)
    requires LongEnough(TrimPrefixes(s))
    ensures var u := FromText(sha256, TrimPrefixes(s));
            if u.Some? then r == Ok(u.value) else r.Err?
  {
    var t := TrimPrefixes(s);
    FromTextIs(sha256, t);
    r := UnpackChecked(DecodeWithChecksum(sha256, t));
  }

  lemma TextParses(sha256: Hash, d: Bytes, s: string)
    requires s == "0x" + EncodeWithChecksum(sha256, d)
    ensures LongEnough(TrimPrefixes(s)) && FromText(sha256, TrimPrefixes(s)) == Parse(d)
  {
    PrefixedText(sha256, d, s);
  }

  /** The hex form of a utxo that fits decodes and parses to its normal form, or to nothing without a variant. */
  lemma HexParses(sha256: Hash, u: Utxo, s: string)
    requires |EncUtxo(CODEC_VERSION, u)| <= MAX_PACK
    requires s == "0x" + EncodeWithChecksum(sha256, EncUtxo(CODEC_VERSION, u))
    ensures LongEnough(TrimPrefixes(s))
    ensures FromText(sha256, TrimPrefixes(s)) == if u.HasVariant() then Some(u.Normal()) else None
  {
    TextParses(sha256, EncUtxo(CODEC_VERSION, u), s);
    ParsePacked(CODEC_VERSION, u);
  }

  /** The hex round trip: a utxo with a variant that fits comes back, and one without a variant is refused. */
  method HexRoundTrip(sha256: Hash, u: Utxo) returns (s: Result<string>, back: Result<Utxo>)
    ensures s.Ok? <==> |EncUtxo(CODEC_VERSION, u)| <= 0x7FFF_FFFF
    ensures s.Ok? && u.HasVariant() ==> back == Ok(u.Normal())
    ensures s.Ok? && !u.HasVariant() ==> back.Err?
  {
    back := Err(BadHex);
    s := ToHex(sha256, u);
    if s.Ok? {
      HexParses(sha256, u, s.value);
      back := FromHex(sha256, s.value);
    }
  }
}
