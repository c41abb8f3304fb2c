// src/avm/txs/vertex.rs: the X-chain vertex.
module Vertices {
  import opened Bytes
  import opened Codecs
  import opened Packers
  import opened Ids
  import opened Orders
  import opened Sorting

  datatype VertexData = VertexData(
    codecVersion: u16, chainId: Id, height: u64, epoch: u32, parentIds: seq<Id>, txs: seq<Bytes>)

  class Vertex {
    var codecVersion: u16
    var chainId: Id
    var height: u64
    var epoch: u32
    var parentIds: seq<Id>
    var txs: seq<Bytes>

    constructor (v: VertexData)
      ensures Data() == v
    {
      codecVersion, chainId, height, epoch := v.codecVersion, v.chainId, v.height, v.epoch;
      parentIds, txs := v.parentIds, v.txs;
    }

    function Data(): VertexData
      reads this
    {
      VertexData(codecVersion, chainId, height, epoch, parentIds, txs)
    }
  }

  function EncTxBytes(tx: Bytes): Bytes { Be4(Cast(4, |tx|)) + tx }

  function EncParents(ids: seq<Id>): Bytes { Be4(Cast(4, |ids|)) + EncAll(RawId, ids) }

  function EncTxs(txs: seq<Bytes>): Bytes { Be4(Cast(4, |txs|)) + EncAll(EncTxBytes, txs) }

  /** What pack_vertex writes, field by field, once the lists are sorted. */
  function EncVertex(v: VertexData): Bytes {
    BigEndian(2, v.codecVersion) + (v.chainId + (Be8(v.height) + (Be4(v.epoch) +
      (EncParents(v.parentIds) + EncTxs(v.txs)))))
  }

  /** The vertex as pack_vertex leaves it: parents in byte order, transactions in the order of their hashes. */
  function SortedVertex(sha256: Hash, v: VertexData): VertexData {
    v.(parentIds := SortBy(RawId, v.parentIds), txs := SortBy(sha256, v.txs))
  }

  /** Every length survives its cast to u32. */
  predicate VertexFits(v: VertexData) {
    && |v.parentIds| < 0x1_0000_0000 && |v.txs| < 0x1_0000_0000
    && forall i :: 0 <= i < |v.txs| ==> |v.txs[i]| < 0x1_0000_0000
  }

  // ---- the grammar ----

  type VertexWire = (u16, (Id, (u64, (u32, (seq<Id>, seq<Bytes>)))))

  function BodyCodec(): Codec<(seq<Id>, seq<Bytes>)> {
    Pair(ListOf(4, IdCodec()), ListOf(4, Headed(4)))
  }

  function WireCodec(): Codec<VertexWire> {
    Pair(U16(), Pair(IdCodec(), Pair(U64(), Pair(U32(), BodyCodec()))))
  }

  function VertexCodec(): Codec<VertexData> {
    Mapped(WireCodec(), Always<VertexData>, VertexTo, VertexFrom)
  }

  function VertexTo(v: VertexData): VertexWire {
    (v.codecVersion, (v.chainId, (v.height, (v.epoch, (v.parentIds, v.txs)))))
  }

  function VertexFrom(w: VertexWire): VertexData {
    VertexData(w.0, w.1.0, w.1.1.0, w.1.1.1.0, w.1.1.1.1.0, w.1.1.1.1.1)
  }

  lemma BodyExact()
    ensures Exact(BodyCodec())
  {
    IdExact();
    ListOfExact(4, IdCodec());
    HeadedExact(4);
    ListOfExact(4, Headed(4));
    PairExact(ListOf(4, IdCodec()), ListOf(4, Headed(4)));
  }

  lemma WireExact()
    ensures Exact(WireCodec())
  {
    U16Exact();
    IdExact();
    U64Exact();
    U32Exact();
    BodyExact();
    PairExact5(U16(), IdCodec(), U64(), U32(), BodyCodec());
  }

  lemma VertexInverse()
    ensures forall w :: VertexTo(VertexFrom(w)) == w
    ensures forall v :: VertexFrom(VertexTo(v)) == v
  {
  }

  lemma VertexExact()
    ensures Exact(VertexCodec())
  {
    WireExact();
    VertexInverse();
    MappedExact(WireCodec(), Always<VertexData>, VertexTo, VertexFrom);
  }

  lemma BodyEnc(parentIds: seq<Id>, txs: seq<Bytes>)
    ensures BodyCodec().enc((parentIds, txs)) == EncParents(parentIds) + EncTxs(txs)
    ensures BodyCodec().ok((parentIds, txs)) <==>
            && |parentIds| < 0x1_0000_0000 && |txs| < 0x1_0000_0000
            && forall i :: 0 <= i < |txs| ==> |txs[i]| < 0x1_0000_0000
  {
    PairAt(ListOf(4, IdCodec()), ListOf(4, Headed(4)), parentIds, txs);
    ListAt(4, IdCodec(), RawId, (x: Id) => true, parentIds);
    ListAt(4, Headed(4), EncTxBytes, (tx: Bytes) => |tx| < 0x1_0000_0000, txs);
  }

  lemma VertexEnc(v: VertexData)
    ensures VertexCodec().enc(v) == EncVertex(v)
    ensures VertexCodec().ok(v) <==> VertexFits(v)
  {
    MappedAt(WireCodec(), Always<VertexData>, VertexTo, VertexFrom, v);
    var body := (v.parentIds, v.txs);
    PairAt(U16(), Pair(IdCodec(), Pair(U64(), Pair(U32(), BodyCodec()))), v.codecVersion,
           (v.chainId, (v.height, (v.epoch, body))));
    PairAt(IdCodec(), Pair(U64(), Pair(U32(), BodyCodec())), v.chainId, (v.height, (v.epoch, body)));
    PairAt(U64(), Pair(U32(), BodyCodec()), v.height, (v.epoch, body));
    PairAt(U32(), BodyCodec(), v.epoch, body);
    BodyEnc(v.parentIds, v.txs);
  }

  lemma VertexDecodesIff(v: VertexData, rest: Bytes)
    ensures VertexCodec().dec(VertexCodec().enc(v) + rest) == Some((v, rest)) <==> VertexCodec().ok(v)
  {
    VertexExact();
    DecodesIff(VertexCodec(), v, rest);
  }

  /** A packed vertex unpacks to itself, whatever follows, if and only if no length lost bits. */
  lemma VertexRoundTrip(v: VertexData, rest: Bytes)
    ensures VertexCodec().dec(EncVertex(v) + rest) == Some((v, rest)) <==> VertexFits(v)
  {
    VertexEnc(v);
    VertexDecodesIff(v, rest);
  }

  /**
   On arbitrary bytes, writing the vertex that unpacks in the order it has gives the bytes that were
   read. pack_vertex sorts before it writes: what it makes of those bytes is VertexRepacksIff.
   */
  lemma VertexReencodes(b: Bytes)
    ensures VertexCodec().dec(b).Some? ==>
              var (v, rest) := VertexCodec().dec(b).value;
              VertexFits(v) && b == EncVertex(v) + rest
  {
    if VertexCodec().dec(b).Some? {
      VertexExact();
      VertexEnc(VertexCodec().dec(b).value.0);
    }
  }

  // ---- canonical form ----

  /** The same vertex up to the order of parents and transactions. */
  ghost predicate SameUpToOrder(v: VertexData, w: VertexData) {
    && v.(parentIds := [], txs := []) == w.(parentIds := [], txs := [])
    && multiset(v.parentIds) == multiset(w.parentIds) && multiset(v.txs) == multiset(w.txs)
  }

  /** No two transactions of the vertex share a hash. */
  ghost predicate HashesApart(sha256: Hash, txs: seq<Bytes>) {
    forall t, u :: t in txs && u in txs && sha256(t) == sha256(u) ==> t == u
  }

  /** Both lists are as pack_vertex leaves them. */
  ghost predicate InOrder(sha256: Hash, v: VertexData) {
    Sorted(RawId, v.parentIds) && Sorted(sha256, v.txs)
  }

  /** Sorting only permutes, and it changes nothing exactly if the lists were in order. */
  lemma SortedPermutes(sha256: Hash, v: VertexData)
    ensures SameUpToOrder(SortedVertex(sha256, v), v)
    ensures SortedVertex(sha256, v) == v <==> InOrder(sha256, v)
  {
    SortBySorts(RawId, v.parentIds);
    SortBySorts(sha256, v.txs);
    if InOrder(sha256, v) {
      SortByFixes(RawId, v.parentIds);
      SortByFixes(sha256, v.txs);
    }
  }

  lemma PermutedFits(v: VertexData, w: VertexData)
    requires SameUpToOrder(v, w) && VertexFits(v)
    ensures VertexFits(w)
  {
    assert |w.txs| == |multiset(w.txs)| == |multiset(v.txs)| == |v.txs|;
    assert |w.parentIds| == |multiset(w.parentIds)| == |multiset(v.parentIds)| == |v.parentIds|;
    forall i | 0 <= i < |w.txs|
      ensures |w.txs[i]| < 0x1_0000_0000
    {
      assert w.txs[i] in multiset(v.txs);
    }
  }

  lemma SortedFits(sha256: Hash, v: VertexData)
    ensures VertexFits(SortedVertex(sha256, v)) <==> VertexFits(v)
  {
    SortedPermutes(sha256, v);
    if VertexFits(v) {
      PermutedFits(v, SortedVertex(sha256, v));
    }
    if VertexFits(SortedVertex(sha256, v)) {
      PermutedFits(SortedVertex(sha256, v), v);
    }
  }

  /** Two vertices sort alike exactly if they are permuted, and transactions that share a hash keep their order. */
  lemma SortedAlikeIff(sha256: Hash, v: VertexData, w: VertexData)
    ensures SortedVertex(sha256, v) == SortedVertex(sha256, w) <==>
            SameUpToOrder(v, w) && SameClasses(sha256, v.txs, w.txs)
  {
    SortAlikeIff(sha256, v.txs, w.txs);
    if SortedVertex(sha256, v) == SortedVertex(sha256, w) {
      SortedPermutes(sha256, v);
      SortedPermutes(sha256, w);
    } else if SameUpToOrder(v, w) {
      SortAlike(RawId, v.parentIds, w.parentIds);
    }
  }

  /** Where no two transactions share a hash, permuted transactions have the same ones with every hash. */
  lemma ApartSameClasses(sha256: Hash, xs: seq<Bytes>, ys: seq<Bytes>)
    requires HashesApart(sha256, xs) && multiset(xs) == multiset(ys)
    ensures SameClasses(sha256, xs, ys)
  {
    SortAlike(sha256, xs, ys);
    SortAlikeIff(sha256, xs, ys);
  }

  lemma VertexBytesInjective(v: VertexData, w: VertexData)
    requires VertexFits(v) && VertexFits(w)
    ensures EncVertex(v) == EncVertex(w) <==> v == w
  {
    VertexRoundTrip(v, []);
    VertexRoundTrip(w, []);
  }

  lemma SortedBytes(sha256: Hash, v: VertexData, w: VertexData)
    requires VertexFits(v) && VertexFits(w)
    ensures EncVertex(SortedVertex(sha256, v)) == EncVertex(SortedVertex(sha256, w)) <==>
            SortedVertex(sha256, v) == SortedVertex(sha256, w)
  {
    SortedFits(sha256, v);
    SortedFits(sha256, w);
    VertexBytesInjective(SortedVertex(sha256, v), SortedVertex(sha256, w));
  }

  /**
   The packed form is canonical: two vertices get the same bytes exactly when they differ only in the
   order of parents and transactions, and transactions that share a hash have the same order in both.
   With a hash that tells the transactions of a vertex apart, the order does not matter at all.
   */
  lemma PackedVertexCanonical(sha256: Hash, v: VertexData, w: VertexData)
    requires VertexFits(v) && VertexFits(w)
    ensures EncVertex(SortedVertex(sha256, v)) == EncVertex(SortedVertex(sha256, w)) <==>
            SameUpToOrder(v, w) && SameClasses(sha256, v.txs, w.txs)
    ensures HashesApart(sha256, v.txs) ==>
              (EncVertex(SortedVertex(sha256, v)) == EncVertex(SortedVertex(sha256, w)) <==> SameUpToOrder(v, w))
  {
    SortedBytes(sha256, v, w);
    SortedAlikeIff(sha256, v, w);
    if HashesApart(sha256, v.txs) && SameUpToOrder(v, w) {
      ApartSameClasses(sha256, v.txs, w.txs);
    }
  }

  // ---- packing what was unpacked ----

  lemma SortingKeeps(sha256: Hash, v: VertexData)
    requires VertexFits(v)
    ensures EncVertex(SortedVertex(sha256, v)) == EncVertex(v) <==> InOrder(sha256, v)
  {
    SortedPermutes(sha256, v);
    SortedFits(sha256, v);
    VertexBytesInjective(SortedVertex(sha256, v), v);
  }

  /** Packing the vertex that unpacks gives the bytes that were read back exactly if its lists were in order. */
  lemma VertexRepacksIff(sha256: Hash, b: Bytes)
    ensures VertexCodec().dec(b).Some? ==>
              var (v, rest) := VertexCodec().dec(b).value;
              b == EncVertex(SortedVertex(sha256, v)) + rest <==> InOrder(sha256, v)
  {
    if VertexCodec().dec(b).Some? {
      var (v, rest) := VertexCodec().dec(b).value;
      VertexReencodes(b);
      SortingKeeps(sha256, v);
      SameRest(EncVertex(SortedVertex(sha256, v)), EncVertex(v), rest);
    }
  }

  lemma SameRest(a: Bytes, b: Bytes, rest: Bytes)
    ensures a + rest == b + rest <==> a == b
  {
    if a + rest == b + rest {
      assert |a| == |b|;
      assert a == (a + rest)[..|a|] && b == (b + rest)[..|b|];
    }
  }

  lemma Descending(a: Id, b: Id)
    requires a[0] > b[0]
    ensures !Sorted(RawId, [a, b])
  {
    var s := [a, b];
    assert Compare(RawId(s[0]), RawId(s[1])) == Greater;
  }

  lemma VertexDecodes(v: VertexData)
    requires VertexFits(v)
    ensures VertexCodec().dec(EncVertex(v)) == Some((v, []))
  {
    VertexRoundTrip(v, []);
    assert EncVertex(v) + [] == EncVertex(v);
  }

  lemma OutOfOrder(sha256: Hash, v: VertexData) returns (b: Bytes)
    requires VertexFits(v) && !InOrder(sha256, v)
    ensures VertexCodec().dec(b) == Some((v, [])) && b != EncVertex(SortedVertex(sha256, v))
  {
    b := EncVertex(v);
    VertexDecodes(v);
    SortingKeeps(sha256, v);
  }

  lemma DescendingParents(sha256: Hash, x: Id, y: Id) returns (b: Bytes, v: VertexData)
    requires x[0] > y[0]
    ensures v.parentIds == [x, y] && v.txs == []
    ensures VertexCodec().dec(b) == Some((v, [])) && b != EncVertex(SortedVertex(sha256, v))
  {
    Descending(x, y);
    v := VertexData(0, y, 0, 0, [x, y], []);
    b := OutOfOrder(sha256, v);
  }

  /** Bytes that unpack and are packed differently: two parents in descending order. */
  lemma VertexNotRepackable(sha256: Hash) returns (b: Bytes, v: VertexData)
    ensures v.parentIds == [[1] + Zeros(31), Zeros(32)] && v.txs == []
    ensures VertexCodec().dec(b) == Some((v, [])) && b != EncVertex(SortedVertex(sha256, v))
  {
    b, v := DescendingParents(sha256, [1] + Zeros(31), Zeros(32));
  }

  lemma {:induction false} InsertSize<T>(enc: T -> Bytes, key: T -> Bytes, x: T, s: seq<T>)
    ensures |EncAll(enc, Insert(key, x, s))| == |enc(x)| + |EncAll(enc, s)|
  {
    if s == [] || Compare(key(x), key(s[0])) != Greater {
      assert ([x] + s)[1..] == s;
    } else {
      InsertSize(enc, key, x, s[1..]);
      assert Insert(key, x, s)[1..] == Insert(key, x, s[1..]);
    }
  }

  /** Sorting does not change the size of an encoded list. */
  lemma {:induction false} SortedSize<T>(enc: T -> Bytes, key: T -> Bytes, xs: seq<T>)
    ensures |EncAll(enc, SortBy(key, xs))| == |EncAll(enc, xs)|
  {
    if xs != [] {
      SortedSize(enc, key, xs[1..]);
      InsertSize(enc, key, xs[0], SortBy(key, xs[1..]));
    }
  }

  lemma SortedVertexSize(sha256: Hash, v: VertexData)
    ensures |EncVertex(SortedVertex(sha256, v))| == |EncVertex(v)|
  {
    SortedSize(RawId, RawId, v.parentIds);
    SortedSize(EncTxBytes, sha256, v.txs);
  }

  // ---- packing and unpacking ----

  method PackEachParent(p: Packer, ids: seq<Id>) returns (r: Outcome)
    requires p.Packing()
    modifies p`bytes, p`offset
    ensures p.Wrote(old(p.bytes), r, EncAll(RawId, ids))
  {
    ghost var before, enc := p.bytes, RawId;
    assert ids[0..] == ids;
    for i := 0 to |ids|
      invariant p.Packing() && before <= p.bytes
      invariant p.bytes + EncAll(enc, ids[i..]) == before + EncAll(enc, ids)
    {
      PackStep(p.bytes, enc, ids, i, before + EncAll(enc, ids));
      :- p.PackBytes(ids[i]);
    }
    return Pass;
  }

  method PackEachTx(p: Packer, txs: seq<Bytes>) returns (r: Outcome)
    requires p.Packing()
    modifies p`bytes, p`offset
    ensures p.Wrote(old(p.bytes), r, EncAll(EncTxBytes, txs))
  {
    ghost var before, enc := p.bytes, EncTxBytes;
    assert txs[0..] == txs;
    for i := 0 to |txs|
      invariant p.Packing() && before <= p.bytes
      invariant p.bytes + EncAll(enc, txs[i..]) == before + EncAll(enc, txs)
    {
      PackStep(p.bytes, enc, txs, i, before + EncAll(enc, txs));
      :- p.PackBytesWithHeader(txs[i]);
    }
    return Pass;
  }

  method PackLists(p: Packer, v: VertexData) returns (r: Outcome)
    requires p.Packing()
    modifies p`bytes, p`offset
    ensures p.Wrote(old(p.bytes), r, EncParents(v.parentIds) + EncTxs(v.txs))
  {
    ghost var a, b, d := Be4(Cast(4, |v.parentIds|)), EncAll(RawId, v.parentIds), EncTxs(v.txs);
    Associative(a, b, d);
    Associative(p.bytes, a, b + d);
    Associative(p.bytes + a, b, d);
    Associative(p.bytes + a + b, Be4(Cast(4, |v.txs|)), EncAll(EncTxBytes, v.txs));
    :- p.PackU32(Cast(4, |v.parentIds|));
    :- PackEachParent(p, v.parentIds);
    :- p.PackU32(Cast(4, |v.txs|));
    r := PackEachTx(p, v.txs);
  }

  /** Sorts the vertex in place, then packs it; the vertex stays sorted even if it does not fit. */
  method PackVertex(p: Packer, vtx: Vertex, sha256: Hash) returns (r: Outcome)
    requires p.Packing()
    modifies p`bytes, p`offset, vtx`parentIds, vtx`txs
    ensures vtx.Data() == SortedVertex(sha256, old(vtx.Data()))
    ensures p.Wrote(old(p.bytes), r, EncVertex(vtx.Data()))
  {
    vtx.parentIds := SortBy(RawId, vtx.parentIds);
    vtx.txs := SortBy(sha256, vtx.txs);
    r := PackSorted(p, vtx.Data());
  }

  method PackSorted(p: Packer, v: VertexData) returns (r: Outcome)
    requires p.Packing()
    modifies p`bytes, p`offset
    ensures p.Wrote(old(p.bytes), r, EncVertex(v))
  {
    ghost var a, b := BigEndian(2, v.codecVersion), v.chainId;
    ghost var rest := Be8(v.height) + (Be4(v.epoch) + (EncParents(v.parentIds) + EncTxs(v.txs)));
    Associative(p.bytes, a, b + rest);
    Associative(p.bytes + a, b, rest);
    :- p.PackU16(v.codecVersion);
    :- p.PackBytes(v.chainId);
    r := PackFrom(p, v);
  }

  /** The part from the height on. */
  method PackFrom(p: Packer, v: VertexData) returns (r: Outcome)
    requires p.Packing()
    modifies p`bytes, p`offset
    ensures p.Wrote(old(p.bytes), r, Be8(v.height) + (Be4(v.epoch) + (EncParents(v.parentIds) + EncTxs(v.txs))))
  {
    ghost var c, d, lists := Be8(v.height), Be4(v.epoch), EncParents(v.parentIds) + EncTxs(v.txs);
    Associative(p.bytes, c, d + lists);
    Associative(p.bytes + c, d, lists);
    :- p.PackU64(v.height);
    :- p.PackU32(v.epoch);
    r := PackLists(p, v);
  }

  method UnpackEachParent(p: Packer, n: nat) returns (r: Result<seq<Id>>)
    requires p.offset <= |p.bytes|
    modifies p`offset
    ensures p.Read(old(p.offset), r, DecN(IdCodec().dec, n, p.bytes[old(p.offset)..], []))
  {
    r := Ok([]);
    ghost var from, dec := p.offset, IdCodec().dec;
    for i := 0 to n
      invariant from <= p.offset <= |p.bytes| && r.Ok?
      invariant DecN(dec, n, p.bytes[from..], []) == DecN(dec, n - i, p.bytes[p.offset..], r.value)
    {
      UnpackStep(dec, n - i, p.bytes[p.offset..], r.value);
      var id :- p.UnpackBytes(32);
      r := Ok(r.value + [FromSlice(id)]);
    }
  }

  method UnpackTx(p: Packer) returns (r: Result<Bytes>)
    requires p.offset <= |p.bytes|
    modifies p`offset
    ensures p.Read(old(p.offset), r, Headed(4).dec(p.bytes[old(p.offset)..]))
  {
    var n :- p.UnpackU32();
    r := p.UnpackBytes(n);
  }

  method UnpackEachTx(p: Packer, n: nat) returns (r: Result<seq<Bytes>>)
    requires p.offset <= |p.bytes|
    modifies p`offset
    ensures p.Read(old(p.offset), r, DecN(Headed(4).dec, n, p.bytes[old(p.offset)..], []))
  {
    r := Ok([]);
    ghost var from, dec := p.offset, Headed(4).dec;
    for i := 0 to n
      invariant from <= p.offset <= |p.bytes| && r.Ok?
      invariant DecN(dec, n, p.bytes[from..], []) == DecN(dec, n - i, p.bytes[p.offset..], r.value)
    {
      UnpackStep(dec, n - i, p.bytes[p.offset..], r.value);
      var tx :- UnpackTx(p);
      r := Ok(r.value + [tx]);
    }
  }

  method UnpackParents(p: Packer) returns (r: Result<seq<Id>>)
    requires p.offset <= |p.bytes|
    modifies p`offset
    ensures p.Read(old(p.offset), r, ListOf(4, IdCodec()).dec(p.bytes[old(p.offset)..]))
  {
    var n :- p.UnpackU32();
    r := UnpackEachParent(p, n);
  }

  method UnpackTxs(p: Packer) returns (r: Result<seq<Bytes>>)
    requires p.offset <= |p.bytes|
    modifies p`offset
    ensures p.Read(old(p.offset), r, ListOf(4, Headed(4)).dec(p.bytes[old(p.offset)..]))
  {
    var n :- p.UnpackU32();
    r := UnpackEachTx(p, n);
  }

  method UnpackLists(p: Packer) returns (r: Result<(seq<Id>, seq<Bytes>)>)
    requires p.offset <= |p.bytes|
    modifies p`offset
    ensures p.Read(old(p.offset), r, BodyCodec().dec(p.bytes[old(p.offset)..]))
  {
    var parentIds :- UnpackParents(p);
    var txs :- UnpackTxs(p);
    return Ok((parentIds, txs));
  }

  method UnpackTail(p: Packer) returns (r: Result<(u64, (u32, (seq<Id>, seq<Bytes>)))>)
    requires p.offset <= |p.bytes|
    modifies p`offset
    ensures p.Read(old(p.offset), r, Pair(U64(), Pair(U32(), BodyCodec())).dec(p.bytes[old(p.offset)..]))
  {
    PairDec(U64(), Pair(U32(), BodyCodec()), p.bytes[p.offset..]);
    var height :- p.UnpackU64();
    PairDec(U32(), BodyCodec(), p.bytes[p.offset..]);
    var epoch :- p.UnpackU32();
    var lists :- UnpackLists(p);
    return Ok((height, (epoch, lists)));
  }

  method UnpackVertex(p: Packer) returns (r: Result<VertexData>)
    requires p.offset <= |p.bytes|
    modifies p`offset
    ensures p.Read(old(p.offset), r, VertexCodec().dec(p.bytes[old(p.offset)..]))
  {
    ghost var tail := Pair(U64(), Pair(U32(), BodyCodec()));
    PairDec(U16(), Pair(IdCodec(), tail), p.bytes[p.offset..]);
    var codecVersion :- p.UnpackU16();
    PairDec(IdCodec(), tail, p.bytes[p.offset..]);
    var chainId :- p.UnpackBytes(32);
    var fields :- UnpackTail(p);
    return Ok(VertexFrom((codecVersion, (FromSlice(chainId), fields))));
  }

  method PackFresh(sha256: Hash, maxSize: nat, v: VertexData) returns (r: Outcome, b: Bytes)
    ensures r.Pass? <==> |EncVertex(v)| <= maxSize
    ensures r.Pass? ==> b == EncVertex(SortedVertex(sha256, v)) && |b| == |EncVertex(v)|
  {
    SortedVertexSize(sha256, v);
    var p := new Packer.New(maxSize);
    var vtx := new Vertex(v);
    r := PackVertex(p, vtx, sha256);
    b := p.TakeBytes();
  }

  /**
   Unpack a vertex from arbitrary bytes, then pack it with a fresh packer. That succeeds exactly if the
   n bytes that were consumed fit under the cap. It gives n bytes again, and the same ones exactly if
   the lists that were read were in order.
   */
  method UnpackThenPack(sha256: Hash, maxSize: nat, d: Bytes)
    returns (unpacked: Result<VertexData>, n: nat, packed: Outcome, b: Bytes)
    ensures unpacked.Ok? <==> VertexCodec().dec(d).Some?
    ensures unpacked.Ok? ==>
              && VertexCodec().dec(d).value.0 == unpacked.value && n <= |d|
              && (packed.Pass? <==> n <= maxSize)
    ensures unpacked.Ok? && packed.Pass? ==>
              && |b| == n && b == EncVertex(SortedVertex(sha256, unpacked.value))
              && (b == d[..n] <==> InOrder(sha256, unpacked.value))
  {
    var q := new Packer.LoadBytesForUnpack(|d|, d);
    assert d[0..] == d;
    unpacked := UnpackVertex(q);
    n, packed, b := q.offset, Pass, [];
    if unpacked.Ok? {
      VertexReencodes(d);
      VertexRepacksIff(sha256, d);
      SplitAt(d, n, EncVertex(unpacked.value));
      packed, b := PackFresh(sha256, maxSize, unpacked.value);
      SameRest(b, d[..n], d[n..]);
    }
  }

  lemma SplitAt(d: Bytes, n: nat, e: Bytes)
    requires n <= |d| && d == e + d[n..]
    ensures e == d[..n] && d == d[..n] + d[n..]
  {
    assert d == d[..n] + d[n..];
    SameRest(e, d[..n], d[n..]);
  }
}
