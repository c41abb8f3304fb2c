// src/avm/txs/import.rs and src/avm/txs/export.rs: signing import and export transactions.
module Signing {
  import opened Bytes
  import opened Codecs
  import opened Packers
  import opened Ids
  import opened Transferables
  import opened Txs

  const IMPORT_TX_ID: u32 := 3
  const EXPORT_TX_ID: u32 := 4

  type Sig = b: Bytes | |b| == 65 witness Zeros(65)

  /** A signer's answer to a digest, in one run: a 65-byte signature or a failure. */
  type Signer = Bytes -> Option<Sig>

  datatype Credential = Credential(fxId: Id, signatures: seq<Sig>)

  // ---- what the signers answer ----

  function SignRow(keys: seq<Signer>, digest: Bytes): Option<seq<Sig>> {
    if keys == [] then Some([]) else
    match (keys[0](digest), SignRow(keys[1..], digest))
    case (Some(s), Some(ss)) => Some([s] + ss)
    case _ => None
  }

  function SignRows(signers: seq<seq<Signer>>, digest: Bytes): Option<seq<seq<Sig>>> {
    if signers == [] then Some([]) else
    match (SignRow(signers[0], digest), SignRows(signers[1..], digest))
    case (Some(r), Some(rs)) => Some([r] + rs)
    case _ => None
  }

  /** One signature for each signer, in order, each over the digest. */
  lemma {:induction false} SignRowShape(keys: seq<Signer>, digest: Bytes)
    ensures SignRow(keys, digest).Some? <==> forall j :: 0 <= j < |keys| ==> keys[j](digest).Some?
    ensures SignRow(keys, digest).Some? ==>
              && |SignRow(keys, digest).value| == |keys|
              && forall j :: 0 <= j < |keys| ==> Some(SignRow(keys, digest).value[j]) == keys[j](digest)
  {
    if keys != [] {
      SignRowShape(keys[1..], digest);
      assert forall j :: 1 <= j < |keys| ==> keys[j] == keys[1..][j - 1];
    }
  }

  /** The credentials have the shape of the signer matrix and hold every signer's answer at its place. */
  lemma {:induction false} SignRowsShape(signers: seq<seq<Signer>>, digest: Bytes)
    requires SignRows(signers, digest).Some?
    ensures var rows := SignRows(signers, digest).value;
            && |rows| == |signers|
            && forall i :: 0 <= i < |rows| ==>
                 && |rows[i]| == |signers[i]|
                 && forall j :: 0 <= j < |rows[i]| ==> Some(rows[i][j]) == signers[i][j](digest)
  {
    if signers != [] {
      SignRowShape(signers[0], digest);
      SignRowsShape(signers[1..], digest);
      assert forall i :: 1 <= i < |signers| ==> signers[i] == signers[1..][i - 1];
    }
  }

  /** The rows that were answered before the first signer that failed. */
  function Answered(signers: seq<seq<Signer>>, digest: Bytes): seq<seq<Sig>> {
    if signers == [] then [] else
    match SignRow(signers[0], digest)
    case Some(row) => [row] + Answered(signers[1..], digest)
    case None => []
  }

  lemma {:induction false} AllAnswered(signers: seq<seq<Signer>>, digest: Bytes)
    requires SignRows(signers, digest).Some?
    ensures Answered(signers, digest) == SignRows(signers, digest).value
  {
    if signers != [] {
      AllAnswered(signers[1..], digest);
    }
  }

  /** The rows before the first one with a signer that failed, each with all its signers' answers. */
  lemma {:induction false} AnsweredMeans(signers: seq<seq<Signer>>, digest: Bytes)
    ensures var rows := Answered(signers, digest);
            && |rows| <= |signers|
            && (forall i :: 0 <= i < |rows| ==>
                  && |rows[i]| == |signers[i]|
                  && forall j :: 0 <= j < |rows[i]| ==> signers[i][j](digest) == Some(rows[i][j]))
            && (|rows| < |signers| ==> exists j :: 0 <= j < |signers[|rows|]| && signers[|rows|][j](digest).None?)
  {
    if signers != [] {
      SignRowShape(signers[0], digest);
      AnsweredMeans(signers[1..], digest);
      assert forall i :: 1 <= i < |signers| ==> signers[i] == signers[1..][i - 1];
      if SignRow(signers[0], digest).Some? {
        var rows, rest := Answered(signers, digest), Answered(signers[1..], digest);
        assert rows == [SignRow(signers[0], digest).value] + rest;
        assert |rows| < |signers| ==> signers[|rows|] == signers[1..][|rest|];
      }
    }
  }

  // ---- credentials on the wire ----

  function RawSig(s: Sig): Bytes { s }

  function EncCred(row: seq<Sig>): Bytes {
    Be4(CREDENTIAL_ID) + (Be4(Cast(4, |row|)) + EncAll(RawSig, row))
  }

  /** The credentials are only written when their count, after its cast to u32, is not zero. */
  function EncCreds(rows: seq<seq<Sig>>): Bytes {
    Be4(Cast(4, |rows|)) + CredBytes(rows)
  }

  function CredBytes(rows: seq<seq<Sig>>): Bytes {
    if Cast(4, |rows|) > 0 then EncAll(EncCred, rows) else []
  }

  function TakeSig(b: Bytes): Option<(Sig, Bytes)> {
    if |b| < 65 then None else Some((b[..65], b[65..]))
  }

  function SigCodec(): Codec<Sig> {
    Codec((s: Sig) => true, RawSig, TakeSig)
  }

  function CredCodec(): Codec<seq<Sig>> {
    Mapped(Pair(Word(CREDENTIAL_ID), ListOf(4, SigCodec())), Always<seq<Sig>>, CredTo, CredFrom)
  }

  function CredTo(row: seq<Sig>): (u32, seq<Sig>) { (CREDENTIAL_ID, row) }

  function CredFrom(w: (u32, seq<Sig>)): seq<Sig> { w.1 }

  function CredsCodec(): Codec<seq<seq<Sig>>> {
    ListOf(4, CredCodec())
  }

  lemma SigExact()
    ensures Exact(SigCodec())
  {
    forall s: Sig, rest: Bytes
      ensures (s + rest)[..65] == s && (s + rest)[65..] == rest
    {
    }
    forall b: Bytes | |b| >= 65
      ensures b == b[..65] + b[65..]
    {
    }
  }

  lemma CredExact()
    ensures Exact(CredCodec())
  {
    SigExact();
    ListOfExact(4, SigCodec());
    WordExact(CREDENTIAL_ID);
    PairExact(Word(CREDENTIAL_ID), ListOf(4, SigCodec()));
    MappedExact(Pair(Word(CREDENTIAL_ID), ListOf(4, SigCodec())), Always<seq<Sig>>, CredTo, CredFrom);
  }

  lemma CredsExact()
    ensures Exact(CredsCodec())
  {
    CredExact();
    ListOfExact(4, CredCodec());
  }

  predicate RowFits(row: seq<Sig>) {
    |row| < 0x1_0000_0000
  }

  lemma CredEnc(row: seq<Sig>)
    ensures CredCodec().enc(row) == EncCred(row)
    ensures CredCodec().ok(row) <==> RowFits(row)
  {
    MappedAt(Pair(Word(CREDENTIAL_ID), ListOf(4, SigCodec())), Always<seq<Sig>>, CredTo, CredFrom, row);
    PairAt(Word(CREDENTIAL_ID), ListOf(4, SigCodec()), CREDENTIAL_ID, row);
    ListAt(4, SigCodec(), RawSig, (s: Sig) => true, row);
  }

  lemma CredsEnc(rows: seq<seq<Sig>>)
    requires |rows| < 0x1_0000_0000
    ensures CredsCodec().enc(rows) == EncCreds(rows)
    ensures CredsCodec().ok(rows) <==> forall i :: 0 <= i < |rows| ==> RowFits(rows[i])
  {
    forall i | 0 <= i < |rows|
      ensures CredCodec().enc(rows[i]) == EncCred(rows[i]) && (CredCodec().ok(rows[i]) <==> RowFits(rows[i]))
    {
      CredEnc(rows[i]);
    }
    ListAt(4, CredCodec(), EncCred, RowFits, rows);
  }

  /** In fewer than 2^32 bytes no signature count loses bits, and the credential count only at a multiple of 2^32. */
  lemma SmallCredsFit(rows: seq<seq<Sig>>)
    requires |EncCreds(rows)| < 0x1_0000_0000 && Cast(4, |rows|) > 0
    ensures |rows| < 0x1_0000_0000 && forall i :: 0 <= i < |rows| ==> RowFits(rows[i])
  {
    EncAllSize(EncCred, rows, 1);
    forall i | 0 <= i < |rows|
      ensures RowFits(rows[i])
    {
      EncAllContains(EncCred, rows, i);
      EncAllSize(RawSig, rows[i], 1);
    }
  }

  /** The credentials that can be read back: all of them, or none if their number is a multiple of 2^32. */
  function ReadableCreds(rows: seq<seq<Sig>>): (read: seq<seq<Sig>>)
    ensures read == rows <==> rows == [] || |rows| % 0x1_0000_0000 != 0
  {
    if Cast(4, |rows|) == 0 then [] else rows
  }

  lemma CredsDecode(rows: seq<seq<Sig>>, rest: Bytes)
    requires |EncCreds(rows)| < 0x1_0000_0000
    ensures CredsCodec().dec(EncCreds(rows) + rest) == Some((ReadableCreds(rows), rest))
    ensures CredsCodec().ok(ReadableCreds(rows)) && CredsCodec().enc(ReadableCreds(rows)) == EncCreds(rows)
  {
    var read := ReadableCreds(rows);
    if Cast(4, |rows|) > 0 {
      SmallCredsFit(rows);
    }
    CredsEnc(read);
    CredsExact();
    CompleteAt(CredsCodec(), read, rest);
  }

  /** Credentials that the signed bytes do not show: 2^32 empty ones are written like none at all. */
  lemma LostCredentials() returns (rows: seq<seq<Sig>>)
    ensures |rows| == 0x1_0000_0000 && EncCreds(rows) == EncCreds([]) && ReadableCreds(rows) != rows
  {
    rows := seq(0x1_0000_0000, _ => []);
  }

  // ---- the bytes of a signed transaction ----

  function UnsignedImport(base: Tx, chainId: Id, inputs: Option<seq<Input>>): Bytes {
    EncTx(CODEC_VERSION, IMPORT_TX_ID, base) + (chainId + EncInputs(Listed(inputs)))
  }

  function UnsignedExport(base: Tx, chainId: Id, outputs: Option<seq<Output>>): Bytes {
    EncTx(CODEC_VERSION, EXPORT_TX_ID, base) + (chainId + EncOutputs(Listed(outputs)))
  }

  /** The metadata of a transaction whose unsigned bytes were signed with these rows of signatures. */
  function Sealed(sha256: Hash, unsigned: Bytes, rows: seq<seq<Sig>>): Metadata {
    Metadata(sha256(unsigned + EncCreds(rows)), unsigned, unsigned + EncCreds(rows))
  }

  /** Every signer answers to the hash of the unsigned bytes, and the credentials fit behind them. */
  predicate CanSeal(unsigned: Bytes, maxSize: nat, sha256: Hash, signers: seq<seq<Signer>>) {
    var answers := SignRows(signers, sha256(unsigned));
    answers.Some? && |unsigned| + |EncCreds(answers.value)| <= maxSize
  }

  /** Credentials as the transaction holds them; the fx id is not serialized. */
  function Wrapped(rows: seq<seq<Sig>>): seq<Credential> {
    MapSeq((row: seq<Sig>) => Credential(EMPTY_ID, row), rows)
  }

  /** What a sign call leaves behind. */
  datatype Signed = Signed(ok: bool, metadata: Option<Metadata>, creds: seq<Credential>)

  /**
   Signing succeeds exactly when the transaction is packable, every signer answers and the signed
   bytes fit. It then sets the metadata and the credentials from the unsigned bytes and the answers
   over their hash. On any failure the metadata stays as it was; the credentials start anew once
   the unsigned bytes and the count fit, and keep the rows that were answered.
   */
  function SignedAs(legal: bool, unsigned: Bytes, sha256: Hash, signers: seq<seq<Signer>>,
                    metadata: Option<Metadata>, creds: seq<Credential>): Signed
  {
    var digest := sha256(unsigned);
    if legal && CanSeal(unsigned, MAX_PACK, sha256, signers) then
      var rows := SignRows(signers, digest).value;
      Signed(true, Some(Sealed(sha256, unsigned, rows)), Wrapped(rows))
    else
      Signed(false, metadata,
             if legal && |unsigned| + 4 <= MAX_PACK then Wrapped(Answered(signers, digest)) else creds)
  }

  /**
   The credentials are the answers of the signers' rows, in order: all of them, or those before the
   first row with a signer that failed.
   */
  predicate Collected(creds: seq<Credential>, signers: seq<seq<Signer>>, digest: Bytes) {
    && |creds| <= |signers|
    && (forall i :: 0 <= i < |creds| ==>
          && |creds[i].signatures| == |signers[i]|
          && forall j :: 0 <= j < |creds[i].signatures| ==> signers[i][j](digest) == Some(creds[i].signatures[j]))
    && (|creds| < |signers| ==> exists j :: 0 <= j < |signers[|creds|]| && signers[|creds|][j](digest).None?)
  }

  /** The metadata holds the unsigned bytes, signed bytes that start with them, and the hash of those as the id. */
  predicate SealedOver(m: Metadata, unsigned: Bytes, sha256: Hash) {
    && m.bytesWithNoSignature == unsigned && unsigned <= m.bytesWithSignatures
    && m.id == sha256(m.bytesWithSignatures)
  }

  predicate AllAnswer(signers: seq<seq<Signer>>, digest: Bytes) {
    forall i :: 0 <= i < |signers| ==> forall j :: 0 <= j < |signers[i]| ==> signers[i][j](digest).Some?
  }

  lemma {:induction false} SignRowsIff(signers: seq<seq<Signer>>, digest: Bytes)
    ensures SignRows(signers, digest).Some? <==> AllAnswer(signers, digest)
  {
    if signers != [] {
      SignRowShape(signers[0], digest);
      SignRowsIff(signers[1..], digest);
      assert forall i :: 1 <= i < |signers| ==> signers[i] == signers[1..][i - 1];
      if AllAnswer(signers[1..], digest) && SignRow(signers[0], digest).Some? {
        forall i, j | 0 <= i < |signers| && 0 <= j < |signers[i]|
          ensures signers[i][j](digest).Some?
        {
          assert i > 0 ==> signers[1..][i - 1][j](digest).Some?;
        }
      }
    }
  }

  /** 8 bytes a credential and 65 a signature. */
  function RowsSize(signers: seq<seq<Signer>>): nat {
    if signers == [] then 0 else 8 + 65 * |signers[0]| + RowsSize(signers[1..])
  }

  lemma {:induction false} SignaturesSize(row: seq<Sig>)
    ensures |EncAll(RawSig, row)| == 65 * |row|
  {
    if row != [] {
      SignaturesSize(row[1..]);
    }
  }

  lemma {:induction false} SignedSize(signers: seq<seq<Signer>>, digest: Bytes)
    requires SignRows(signers, digest).Some?
    ensures |EncAll(EncCred, SignRows(signers, digest).value)| == RowsSize(signers)
  {
    if signers != [] {
      var row, rows := SignRow(signers[0], digest).value, SignRows(signers[1..], digest).value;
      SignRowShape(signers[0], digest);
      SignaturesSize(row);
      SignedSize(signers[1..], digest);
      assert ([row] + rows)[1..] == rows;
    }
  }

  /** A sign call succeeds exactly if the transaction is legal, all signers answer and the result fits 2^31-1 bytes. */
  lemma SignedAsOk(legal: bool, unsigned: Bytes, sha256: Hash, signers: seq<seq<Signer>>,
                   metadata: Option<Metadata>, creds: seq<Credential>)
    ensures SignedAs(legal, unsigned, sha256, signers, metadata, creds).ok <==>
            && legal && AllAnswer(signers, sha256(unsigned))
            && |unsigned| + 4 + (if |signers| % 0x1_0000_0000 > 0 then RowsSize(signers) else 0) <= 0x7FFF_FFFF
  {
    SignRowsIff(signers, sha256(unsigned));
    if SignRows(signers, sha256(unsigned)).Some? {
      CredsSize(signers, sha256(unsigned));
    }
  }

  lemma CredsSize(signers: seq<seq<Signer>>, digest: Bytes)
    requires SignRows(signers, digest).Some?
    ensures |EncCreds(SignRows(signers, digest).value)| ==
            4 + (if |signers| % 0x1_0000_0000 > 0 then RowsSize(signers) else 0)
  {
    var rows := SignRows(signers, digest).value;
    assert |rows| == |signers| by {
      SignRowsShape(signers, digest);
    }
    SignedSize(signers, digest);
    CastIs(4, |rows|);
  }

  /** What a sign call leaves behind, success or failure, spelled out. */
  lemma SignedAsMeans(legal: bool, unsigned: Bytes, sha256: Hash, signers: seq<seq<Signer>>,
                      metadata: Option<Metadata>, creds: seq<Credential>)
    ensures var done := SignedAs(legal, unsigned, sha256, signers, metadata, creds);
            && (!done.ok ==> done.metadata == metadata)
            && (done.ok ==> done.metadata.Some? && SealedOver(done.metadata.value, unsigned, sha256))
            && (done.ok ==> |done.creds| == |signers|)
            && (if legal && |unsigned| + 4 <= 0x7FFF_FFFF then Collected(done.creds, signers, sha256(unsigned))
                else !done.ok && done.creds == creds)
  {
    AnsweredMeans(signers, sha256(unsigned));
    if SignRows(signers, sha256(unsigned)).Some? {
      AllAnswered(signers, sha256(unsigned));
      SignRowsShape(signers, sha256(unsigned));
    }
  }

  /** Everything a signed transaction carries, in order: the base transaction, a chain, a list and the credentials. */
  function SignedCodec<T>(list: Codec<T>): Codec<(Unsigned, (Id, (T, seq<seq<Sig>>)))> {
    Pair(TxCodec(), Pair(IdCodec(), Pair(list, CredsCodec())))
  }

  lemma SignedExact<T(!new)>(list: Codec<T>)
    requires Exact(list)
    ensures Exact(SignedCodec(list))
  {
    TxExact();
    IdExact();
    CredsExact();
    PairExact4(TxCodec(), IdCodec(), list, CredsCodec());
  }

  lemma SignedEnc<T>(list: Codec<T>, u: Unsigned, chainId: Id, t: T, rows: seq<seq<Sig>>)
    ensures SignedCodec(list).enc((u, (chainId, (t, rows))))
         == TxCodec().enc(u) + (chainId + (list.enc(t) + CredsCodec().enc(rows)))
    ensures SignedCodec(list).ok((u, (chainId, (t, rows)))) <==>
            TxCodec().ok(u) && list.ok(t) && CredsCodec().ok(rows)
  {
    PairAt4(TxCodec(), IdCodec(), list, CredsCodec(), u, chainId, t, rows);
  }

  lemma SignedBytes<T>(list: Codec<T>, u: Unsigned, chainId: Id, t: T, rows: seq<seq<Sig>>)
    requires u.tx.Legal() && Writable(u.tx) && list.ok(t) && |EncCreds(rows)| < 0x1_0000_0000
    ensures SignedCodec(list).ok((u, (chainId, (t, ReadableCreds(rows)))))
    ensures SignedCodec(list).enc((u, (chainId, (t, ReadableCreds(rows)))))
         == (EncTx(u.version, u.typeId, u.tx) + (chainId + list.enc(t))) + EncCreds(rows)
  {
    CredsDecode(rows, []);
    TxEnc(u);
    SignedEnc(list, u, chainId, t, ReadableCreds(rows));
    Associative(EncTx(u.version, u.typeId, u.tx), chainId + list.enc(t), EncCreds(rows));
    Associative(chainId, list.enc(t), EncCreds(rows));
  }

  lemma SignedComplete<T(!new)>(list: Codec<T>, v: (Unsigned, (Id, (T, seq<seq<Sig>>))))
    requires Exact(list) && SignedCodec(list).ok(v)
    ensures SignedCodec(list).dec(SignedCodec(list).enc(v)) == Some((v, []))
  {
    SignedExact(list);
    CompleteAt(SignedCodec(list), v, []);
    assert SignedCodec(list).enc(v) + [] == SignedCodec(list).enc(v);
  }

  lemma SignedDecodes<T(!new)>(list: Codec<T>, u: Unsigned, chainId: Id, t: T, rows: seq<seq<Sig>>)
    requires Exact(list) && list.ok(t) && u.tx.Legal() && Writable(u.tx) && |EncCreds(rows)| < 0x1_0000_0000
    ensures SignedCodec(list).dec((EncTx(u.version, u.typeId, u.tx) + (chainId + list.enc(t))) + EncCreds(rows))
         == Some(((u, (chainId, (t, ReadableCreds(rows)))), []))
  {
    SignedBytes(list, u, chainId, t, rows);
    SignedComplete(list, (u, (chainId, (t, ReadableCreds(rows)))));
  }

  /** The same for any legal base transaction, whose normal form is what is read. */
  lemma SignedDecodesNormal<T(!new)>(
    list: Codec<T>, base: Tx, typeId: u32, chainId: Id, t: T, rows: seq<seq<Sig>>)
    requires Exact(list) && list.ok(t) && base.Legal() && |EncTx(CODEC_VERSION, typeId, base)| <= MAX_PACK
    requires |EncCreds(rows)| < 0x1_0000_0000
    ensures SignedCodec(list).dec((EncTx(CODEC_VERSION, typeId, base) + (chainId + list.enc(t))) + EncCreds(rows))
         == Some(((Unsigned(CODEC_VERSION, typeId, base.Normal()), (chainId, (t, ReadableCreds(rows)))), []))
  {
    PackedCastsFit(CODEC_VERSION, typeId, base);
    NormalSameBytes(CODEC_VERSION, typeId, base);
    SignedDecodes(list, Unsigned(CODEC_VERSION, typeId, base.Normal()), chainId, t, rows);
  }

  /**
   The signed bytes of an import decode, in one way only, to the normal form of what was signed and
   to the credentials in the signers' order and shape.
   */
  lemma SignedImportDecodes(base: Tx, chainId: Id, inputs: Option<seq<Input>>, rows: seq<seq<Sig>>)
    requires base.Legal() && AllInputs(Listed(inputs))
    requires |UnsignedImport(base, chainId, inputs) + EncCreds(rows)| <= MAX_PACK
    ensures SignedCodec(InputsCodec()).dec(UnsignedImport(base, chainId, inputs) + EncCreds(rows))
         == Some(((Unsigned(CODEC_VERSION, IMPORT_TX_ID, base.Normal()),
                   (chainId, (NormalInputs(Listed(inputs)), ReadableCreds(rows)))), []))
  {
    var xs := Listed(inputs);
    InputsNormal(xs);
    InputsExact();
    SignedDecodesNormal(InputsCodec(), base, IMPORT_TX_ID, chainId, NormalInputs(xs), rows);
  }

  /** The same for an export. */
  lemma SignedExportDecodes(base: Tx, chainId: Id, outputs: Option<seq<Output>>, rows: seq<seq<Sig>>)
    requires base.Legal() && AllOutputs(Listed(outputs))
    requires |UnsignedExport(base, chainId, outputs) + EncCreds(rows)| <= MAX_PACK
    ensures SignedCodec(OutputsCodec()).dec(UnsignedExport(base, chainId, outputs) + EncCreds(rows))
         == Some(((Unsigned(CODEC_VERSION, EXPORT_TX_ID, base.Normal()),
                   (chainId, (NormalOutputs(Listed(outputs)), ReadableCreds(rows)))), []))
  {
    var os := Listed(outputs);
    OutputsNormal(os);
    OutputsExact();
    SignedDecodesNormal(OutputsCodec(), base, EXPORT_TX_ID, chainId, NormalOutputs(os), rows);
  }

  // ---- the loops both transactions share ----

  /** Asks every signer in order; stops at the first failure with the rows completed so far. */
  method SignAll(signers: seq<seq<Signer>>, digest: Bytes) returns (r: Outcome, rows: seq<seq<Sig>>)
    ensures r == if SignRows(signers, digest).Some? then Pass else Fail(SignerFailed)
    ensures rows == Answered(signers, digest)
  {
    rows := [];
    assert signers[0..] == signers;
    PrependNothing(SignRows(signers, digest));
    for i := 0 to |signers|
      invariant SignRows(signers, digest) == Prepend(rows, SignRows(signers[i..], digest))
      invariant Answered(signers, digest) == rows + Answered(signers[i..], digest)
    {
      var sigs := [];
      assert signers[i][0..] == signers[i];
      PrependNothing(SignRow(signers[i], digest));
      for j := 0 to |signers[i]|
        invariant SignRow(signers[i], digest) == Prepend(sigs, SignRow(signers[i][j..], digest))
      {
        assert signers[i][j..][1..] == signers[i][j + 1..];
        var answer := signers[i][j](digest);
        if answer.None? {
          assert SignRow(signers[i][j..], digest) == None;
          assert signers[i..][0] == signers[i];
          assert rows + [] == rows;
          return Fail(SignerFailed), rows;
        }
        PrependStep(sigs, answer.value, SignRow(signers[i][j + 1..], digest));
        sigs := sigs + [answer.value];
      }
      assert signers[i..][1..] == signers[i + 1..];
      assert sigs + [] == sigs;
      PrependStep(rows, sigs, SignRows(signers[i + 1..], digest));
      ghost var later := Answered(signers[i + 1..], digest);
      assert rows + ([sigs] + later) == (rows + [sigs]) + later;
      rows := rows + [sigs];
    }
    assert rows + [] == rows;
    r := Pass;
  }

  function Prepend<T>(xs: seq<T>, o: Option<seq<T>>): Option<seq<T>> {
    if o.None? then None else Some(xs + o.value)
  }

  lemma PrependNothing<T>(o: Option<seq<T>>)
    ensures Prepend([], o) == o
  {
    if o.Some? {
      assert [] + o.value == o.value;
    }
  }

  lemma PrependStep<T>(xs: seq<T>, x: T, o: Option<seq<T>>)
    ensures Prepend(xs, if o.None? then None else Some([x] + o.value)) == Prepend(xs + [x], o)
  {
    if o.Some? {
      assert xs + ([x] + o.value) == (xs + [x]) + o.value;
    }
  }

  method PackCred(p: Packer, sigs: seq<Sig>) returns (r: Outcome)
    requires p.Packing()
    modifies p`bytes, p`offset
    ensures p.Wrote(old(p.bytes), r, EncCred(sigs))
  {
    ghost var a, b := Be4(CREDENTIAL_ID), Be4(Cast(4, |sigs|));
    Associative(p.bytes, a, b + EncAll(RawSig, sigs));
    Associative(p.bytes + a, b, EncAll(RawSig, sigs));
    :- p.PackU32(CREDENTIAL_ID);
    :- p.PackU32(Cast(4, |sigs|));
    r := PackEachSig(p, sigs);
  }

  method PackEachSig(p: Packer, sigs: seq<Sig>) returns (r: Outcome)
    requires p.Packing()
    modifies p`bytes, p`offset
    ensures p.Wrote(old(p.bytes), r, EncAll(RawSig, sigs))
  {
    ghost var before, enc := p.bytes, RawSig;
    assert sigs[0..] == sigs;
    for i := 0 to |sigs|
      invariant p.Packing() && before <= p.bytes
      invariant p.bytes + EncAll(enc, sigs[i..]) == before + EncAll(enc, sigs)
    {
      PackStep(p.bytes, enc, sigs, i, before + EncAll(enc, sigs));
      :- p.PackBytes(sigs[i]);
    }
    return Pass;
  }

  method PackEachCred(p: Packer, rows: seq<seq<Sig>>) returns (r: Outcome)
    requires p.Packing()
    modifies p`bytes, p`offset
    ensures p.Wrote(old(p.bytes), r, EncAll(EncCred, rows))
  {
    ghost var before, enc := p.bytes, EncCred;
    assert rows[0..] == rows;
    for i := 0 to |rows|
      invariant p.Packing() && before <= p.bytes
      invariant p.bytes + EncAll(enc, rows[i..]) == before + EncAll(enc, rows)
    {
      PackStep(p.bytes, enc, rows, i, before + EncAll(enc, rows));
      :- PackCred(p, rows[i]);
    }
    return Pass;
  }

  method PackCounted(p: Packer, rows: seq<seq<Sig>>) returns (r: Outcome)
    requires p.Packing()
    modifies p`bytes, p`offset
    ensures p.Wrote(old(p.bytes), r, CredBytes(rows))
  {
    if Cast(4, |rows|) > 0 {
      r := PackEachCred(p, rows);
    } else {
      r := Pass;
    }
  }

  /** The credential count, then the signatures, then the credentials. */
  method SignAndPack(p: Packer, digest: Bytes, signers: seq<seq<Signer>>)
    returns (r: Outcome, rows: seq<seq<Sig>>, touched: bool)
    requires p.Packing()
    modifies p`bytes, p`offset
    ensures r.Pass? <==>
            && SignRows(signers, digest).Some?
            && |old(p.bytes)| + |EncCreds(SignRows(signers, digest).value)| <= p.maxSize
    ensures r.Pass? ==> touched && p.bytes == old(p.bytes) + EncCreds(rows)
    ensures touched <==> |old(p.bytes)| + 4 <= p.maxSize
    ensures touched ==> rows == Answered(signers, digest)
  {
    rows, touched := [], false;
    if SignRows(signers, digest).Some? {
      SignRowsShape(signers, digest);
      AllAnswered(signers, digest);
      ghost var all := SignRows(signers, digest).value;
      Associative(p.bytes, Be4(Cast(4, |all|)), CredBytes(all));
    }
    :- p.PackU32(Cast(4, |signers|));
    touched := true;
    r, rows := SignAll(signers, digest);
    if r.Pass? {
      r := PackCounted(p, rows);
    }
  }

  /**
   Everything both transactions do after their unsigned bytes are in the packer: hash them, collect
   the signatures, append the credentials.
   */
  method Seal(p: Packer, sha256: Hash, signers: seq<seq<Signer>>)
    returns (r: Outcome, rows: seq<seq<Sig>>, touched: bool, metadata: Metadata)
    requires p.Packing() && !p.header
    modifies p`bytes, p`offset
    ensures r.Pass? <==> CanSeal(old(p.bytes), p.maxSize, sha256, signers)
    ensures r.Pass? ==>
            && touched && rows == SignRows(signers, sha256(old(p.bytes))).value
            && metadata == Sealed(sha256, old(p.bytes), rows)
    ensures touched <==> |old(p.bytes)| + 4 <= p.maxSize
    ensures touched ==> rows == Answered(signers, sha256(old(p.bytes)))
  {
    metadata := Metadata(EMPTY_ID, [], []);
    var unsigned := p.TakeBytes();
    p.SetBytes(unsigned);
    r, rows, touched := SignAndPack(p, sha256(unsigned), signers);
    if r.Pass? {
      AllAnswered(signers, sha256(unsigned));
      var signed := p.TakeBytes();
      metadata := Metadata(FromSlice(sha256(signed)), unsigned, signed);
    }
  }

  // ---- import ----

  /** Packs the base transaction, hands its bytes out and back, and appends the fields of the import. */
  method PackImport(base: Tx, chainId: Id, list: Option<seq<Input>>) returns (r: Outcome, p: Packer)
    ensures fresh(p) && p.maxSize == MAX_PACK && !p.header
    ensures r.Pass? <==>
            base.Legal() && AllInputs(Listed(list)) && |UnsignedImport(base, chainId, list)| <= 0x7FFF_FFFF
    ensures r.Pass? ==> p.Packing() && p.bytes == UnsignedImport(base, chainId, list)
  {
    r, p := Pack(base, CODEC_VERSION, IMPORT_TX_ID);
    if r.Fail? {
      return;
    }
    var b := p.TakeBytes();
    p.SetBytes(b);
    r := PackImportFields(p, chainId, list);
  }

  method PackImportFields(p: Packer, chainId: Id, list: Option<seq<Input>>) returns (r: Outcome)
    requires p.Packing()
    modifies p`bytes, p`offset
    ensures if AllInputs(Listed(list)) then p.Wrote(old(p.bytes), r, chainId + EncInputs(Listed(list))) else r.Fail?
  {
    Associative(p.bytes, chainId, EncInputs(Listed(list)));
    :- p.PackBytes(chainId);
    r := PackInputs(p, list);
  }

  method SignImport(base: Tx, chainId: Id, list: Option<seq<Input>>, sha256: Hash, signers: seq<seq<Signer>>,
                    before: seq<Credential>)
    returns (r: Outcome, metadata: Option<Metadata>, creds: seq<Credential>)
    ensures Signed(r.Pass?, metadata, creds) ==
            SignedAs(base.Legal() && AllInputs(Listed(list)), UnsignedImport(base, chainId, list),
                     sha256, signers, base.metadata, before)
  {
    metadata, creds := base.metadata, before;
    var p: Packer;
    r, p := PackImport(base, chainId, list);
    if r.Pass? {
      var rows, touched, m;
      r, rows, touched, m := Seal(p, sha256, signers);
      if touched {
        creds := Wrapped(rows);
      }
      if r.Pass? {
        metadata := Some(m);
      }
    }
  }

  lemma ImportIgnoresMetadata(base: Tx, m: Option<Metadata>, chainId: Id, list: Option<seq<Input>>)
    ensures UnsignedImport(base.(metadata := m), chainId, list) == UnsignedImport(base, chainId, list)
    ensures base.(metadata := m).Legal() == base.Legal()
  {
    EncTxIgnoresMetadata(CODEC_VERSION, IMPORT_TX_ID, base, m);
  }

  class ImportTx {
    var baseTx: Tx
    var sourceChainId: Id
    var sourceInputs: Option<seq<Input>>
    var fxCreds: seq<Credential>

    constructor (baseTx: Tx, sourceChainId: Id, sourceInputs: Option<seq<Input>>)
      ensures this.baseTx == baseTx && this.sourceChainId == sourceChainId && this.sourceInputs == sourceInputs
      ensures fxCreds == []
    {
      this.baseTx, this.sourceChainId, this.sourceInputs, fxCreds := baseTx, sourceChainId, sourceInputs, [];
    }

    function UnsignedBytes(): Bytes
      reads this
    {
      UnsignedImport(baseTx, sourceChainId, sourceInputs)
    }

    predicate Legal()
      reads this
    {
      baseTx.Legal() && AllInputs(Listed(sourceInputs))
    }

    function TxId(): (id: Id)
      reads this
      ensures baseTx.metadata.None? ==> id == Zeros(32)
    {
      if baseTx.metadata.Some? then baseTx.metadata.value.id else EMPTY_ID
    }

    method Sign(sha256: Hash, signers: seq<seq<Signer>>) returns (r: Outcome)
      modifies this
      ensures unchanged(`sourceChainId) && unchanged(`sourceInputs)
      ensures baseTx == old(baseTx).(metadata := baseTx.metadata)
      ensures Legal() == old(Legal()) && UnsignedBytes() == old(UnsignedBytes())
      ensures Signed(r.Pass?, baseTx.metadata, fxCreds) ==
              old(SignedAs(Legal(), UnsignedBytes(), sha256, signers, baseTx.metadata, fxCreds))
      ensures r.Fail? ==> baseTx == old(baseTx)
      ensures r.Pass? ==>
                && baseTx.metadata.Some? && SealedOver(baseTx.metadata.value, old(UnsignedBytes()), sha256)
                && TxId() == sha256(baseTx.metadata.value.bytesWithSignatures) && |fxCreds| == |signers|
      ensures if old(Legal()) && |old(UnsignedBytes())| + 4 <= 0x7FFF_FFFF
              then Collected(fxCreds, signers, sha256(old(UnsignedBytes())))
              else r.Fail? && fxCreds == old(fxCreds)
    {
      SignedAsMeans(Legal(), UnsignedBytes(), sha256, signers, baseTx.metadata, fxCreds);
      var metadata;
      r, metadata, fxCreds := SignImport(baseTx, sourceChainId, sourceInputs, sha256, signers, fxCreds);
      ImportIgnoresMetadata(baseTx, metadata, sourceChainId, sourceInputs);
      baseTx := baseTx.(metadata := metadata);
    }
  }

  // ---- export ----

  /** Packs the base transaction, hands its bytes out and back, and appends the fields of the export. */
  method PackExport(base: Tx, chainId: Id, list: Option<seq<Output>>) returns (r: Outcome, p: Packer)
    ensures fresh(p) && p.maxSize == MAX_PACK && !p.header
    ensures r.Pass? <==>
            base.Legal() && AllOutputs(Listed(list)) && |UnsignedExport(base, chainId, list)| <= 0x7FFF_FFFF
    ensures r.Pass? ==> p.Packing() && p.bytes == UnsignedExport(base, chainId, list)
  {
    r, p := Pack(base, CODEC_VERSION, EXPORT_TX_ID);
    if r.Fail? {
      return;
    }
    var b := p.TakeBytes();
    p.SetBytes(b);
    r := PackExportFields(p, chainId, list);
  }

  method PackExportFields(p: Packer, chainId: Id, list: Option<seq<Output>>) returns (r: Outcome)
    requires p.Packing()
    modifies p`bytes, p`offset
    ensures if AllOutputs(Listed(list)) then p.Wrote(old(p.bytes), r, chainId + EncOutputs(Listed(list))) else r.Fail?
  {
    Associative(p.bytes, chainId, EncOutputs(Listed(list)));
    :- p.PackBytes(chainId);
    r := PackOutputs(p, list);
  }

  method SignExport(base: Tx, chainId: Id, list: Option<seq<Output>>, sha256: Hash, signers: seq<seq<Signer>>,
                    before: seq<Credential>)
    returns (r: Outcome, metadata: Option<Metadata>, creds: seq<Credential>)
    ensures Signed(r.Pass?, metadata, creds) ==
            SignedAs(base.Legal() && AllOutputs(Listed(list)), UnsignedExport(base, chainId, list),
                     sha256, signers, base.metadata, before)
  {
    metadata, creds := base.metadata, before;
    var p: Packer;
    r, p := PackExport(base, chainId, list);
    if r.Pass? {
      var rows, touched, m;
      r, rows, touched, m := Seal(p, sha256, signers);
      if touched {
        creds := Wrapped(rows);
      }
      if r.Pass? {
        metadata := Some(m);
      }
    }
  }

  lemma ExportIgnoresMetadata(base: Tx, m: Option<Metadata>, chainId: Id, list: Option<seq<Output>>)
    ensures UnsignedExport(base.(metadata := m), chainId, list) == UnsignedExport(base, chainId, list)
    ensures base.(metadata := m).Legal() == base.Legal()
  {
    EncTxIgnoresMetadata(CODEC_VERSION, EXPORT_TX_ID, base, m);
  }

  class ExportTx {
    var baseTx: Tx
    var destinationChainId: Id
    var destinationOutputs: Option<seq<Output>>
    var fxCreds: seq<Credential>

    constructor (baseTx: Tx, destinationChainId: Id, destinationOutputs: Option<seq<Output>>)
      ensures this.baseTx == baseTx && this.destinationChainId == destinationChainId
      ensures this.destinationOutputs == destinationOutputs && fxCreds == []
    {
      this.baseTx, this.destinationChainId, this.destinationOutputs := baseTx, destinationChainId, destinationOutputs;
      fxCreds := [];
    }

    function UnsignedBytes(): Bytes
      reads this
    {
      UnsignedExport(baseTx, destinationChainId, destinationOutputs)
    }

    predicate Legal()
      reads this
    {
      baseTx.Legal() && AllOutputs(Listed(destinationOutputs))
    }

    function TxId(): (id: Id)
      reads this
      ensures baseTx.metadata.None? ==> id == Zeros(32)
    {
      if baseTx.metadata.Some? then baseTx.metadata.value.id else EMPTY_ID
    }

    method Sign(sha256: Hash, signers: seq<seq<Signer>>) returns (r: Outcome)
      modifies this
      ensures unchanged(`destinationChainId) && unchanged(`destinationOutputs)
      ensures baseTx == old(baseTx).(metadata := baseTx.metadata)
      ensures Legal() == old(Legal()) && UnsignedBytes() == old(UnsignedBytes())
      ensures Signed(r.Pass?, baseTx.metadata, fxCreds) ==
              old(SignedAs(Legal(), UnsignedBytes(), sha256, signers, baseTx.metadata, fxCreds))
      ensures r.Fail? ==> baseTx == old(baseTx)
      ensures r.Pass? ==>
                && baseTx.metadata.Some? && SealedOver(baseTx.metadata.value, old(UnsignedBytes()), sha256)
                && TxId() == sha256(baseTx.metadata.value.bytesWithSignatures) && |fxCreds| == |signers|
      ensures if old(Legal()) && |old(UnsignedBytes())| + 4 <= 0x7FFF_FFFF
              then Collected(fxCreds, signers, sha256(old(UnsignedBytes())))
              else r.Fail? && fxCreds == old(fxCreds)
    {
      SignedAsMeans(Legal(), UnsignedBytes(), sha256, signers, baseTx.metadata, fxCreds);
      var metadata;
      r, metadata, fxCreds := SignExport(baseTx, destinationChainId, destinationOutputs, sha256, signers, fxCreds);
      ExportIgnoresMetadata(baseTx, metadata, destinationChainId, destinationOutputs);
      baseTx := baseTx.(metadata := metadata);
    }
  }

  /** Signing again with signers that answer the same way gives the same metadata and credentials. */
  method SignImportTwice(tx: ImportTx, sha256: Hash, signers: seq<seq<Signer>>)
    returns (first: Outcome, second: Outcome)
    modifies tx
    ensures first.Pass? ==> second.Pass?
    ensures first.Pass? ==>
            Signed(true, tx.baseTx.metadata, tx.fxCreds) ==
            old(SignedAs(tx.Legal(), tx.UnsignedBytes(), sha256, signers, tx.baseTx.metadata, tx.fxCreds))
  {
    first := tx.Sign(sha256, signers);
    second := tx.Sign(sha256, signers);
  }

  method SignExportTwice(tx: ExportTx, sha256: Hash, signers: seq<seq<Signer>>)
    returns (first: Outcome, second: Outcome)
    modifies tx
    ensures first.Pass? ==> second.Pass?
    ensures first.Pass? ==>
            Signed(true, tx.baseTx.metadata, tx.fxCreds) ==
            old(SignedAs(tx.Legal(), tx.UnsignedBytes(), sha256, signers, tx.baseTx.metadata, tx.fxCreds))
  {
    first := tx.Sign(sha256, signers);
    second := tx.Sign(sha256, signers);
  }
}
