// src/ids/mod.rs and src/ids/short.rs: 32-byte and 20-byte identifiers.
module Ids {
  import opened Bytes
  import opened Codecs
  import opened Packers

  type Id = b: Bytes | |b| == 32 witness Zeros(32)
  type ShortId = b: Bytes | |b| == 20 witness Zeros(20)

  /** SHA-256 is not modelled: any function to 32 bytes. */
  type Hash = h: Bytes -> Bytes | forall b :: |h(b)| == 32 ghost witness (b: Bytes) => Zeros(32)

  const EMPTY_ID: Id := Zeros(32)

  function RawId(x: Id): Bytes { x }

  function IdCodec(): Codec<Id> {
    Codec((v: Id) => true,
          (v: Id) => v,
          (b: Bytes) => if |b| < 32 then None else Some((b[..32], b[32..])))
  }

  function ShortIdCodec(): Codec<ShortId> {
    Codec((v: ShortId) => true,
          (v: ShortId) => v,
          (b: Bytes) => if |b| < 20 then None else Some((b[..20], b[20..])))
  }

  lemma IdExact()
    ensures Exact(IdCodec())
  {
    forall v: Id, rest: Bytes
      ensures (v + rest)[..32] == v && (v + rest)[32..] == rest
    {
    }
    forall b: Bytes | |b| >= 32
      ensures b == b[..32] + b[32..]
    {
    }
  }

  lemma ShortIdExact()
    ensures Exact(ShortIdCodec())
  {
    forall v: ShortId, rest: Bytes
      ensures (v + rest)[..20] == v && (v + rest)[20..] == rest
    {
    }
    forall b: Bytes | |b| >= 20
      ensures b == b[..20] + b[20..]
    {
    }
  }

  /** Shorter slices are filled up with zeros. */
  function FromSlice(d: Bytes): (id: Id)
    requires |d| <= 32
    ensures id[..|d|] == d && forall i :: |d| <= i < 32 ==> id[i] == 0
    ensures |d| == 32 ==> id == d
  {
    d + Zeros(32 - |d|)
  }

  function ShortFromSlice(d: Bytes): (id: ShortId)
    requires |d| <= 20
    ensures id[..|d|] == d && forall i :: |d| <= i < 20 ==> id[i] == 0
    ensures |d| == 20 ==> id == d
  {
    d + Zeros(20 - |d|)
  }

  /**
   The hash of the prefixes followed by the id. The packer is given one byte for each prefix
   although each takes eight, so it has room for at most one.
   */
  method Prefix(sha256: Hash, id: Id, prefixes: seq<u64>) returns (r: Result<Id>)
    ensures r == if |prefixes| <= 1 then Ok(sha256(EncAll(Be8, prefixes) + id)) else Err(TooLarge)
  {
    var p := new Packer.New(|prefixes| + 8 + 32);
    PrefixSize(prefixes);
    var o := PackPrefixed(p, prefixes, id);
    if o.Fail? {
      return Err(o.error);
    }
    assert [] + (EncAll(Be8, prefixes) + id) == EncAll(Be8, prefixes) + id;
    var b := p.TakeBytes();
    return Ok(FromSlice(sha256(b)));
  }

  method PackPrefixed(p: Packer, prefixes: seq<u64>, id: Id) returns (r: Outcome)
    requires p.Packing()
    modifies p`bytes, p`offset
    ensures p.Wrote(old(p.bytes), r, EncAll(Be8, prefixes) + id)
  {
    Associative(p.bytes, EncAll(Be8, prefixes), id);
    :- PackPrefixes(p, prefixes);
    r := p.PackBytes(id);
  }

  /** The loop of Prefix. */
  method PackPrefixes(p: Packer, prefixes: seq<u64>) returns (r: Outcome)
    requires p.Packing()
    modifies p`bytes, p`offset
    ensures p.Wrote(old(p.bytes), r, EncAll(Be8, prefixes))
  {
    ghost var before, enc := p.bytes, Be8;
    assert prefixes[0..] == prefixes;
    for i := 0 to |prefixes|
      invariant p.Packing() && before <= p.bytes
      invariant p.bytes + EncAll(enc, prefixes[i..]) == before + EncAll(enc, prefixes)
    {
      PackStep(p.bytes, enc, prefixes, i, before + EncAll(enc, prefixes));
      :- p.PackU64(prefixes[i]);
    }
    return Pass;
  }

  lemma OnePrefix(x: u64)
    ensures EncAll(Be8, [x]) == Be8(x)
  {
    assert [x][1..] == [];
    assert EncAll(Be8, [x]) == Be8(x) + [];
  }

  lemma {:induction false} PrefixSize(prefixes: seq<u64>)
    ensures |EncAll(Be8, prefixes)| == 8 * |prefixes|
  {
    if prefixes != [] {
      PrefixSize(prefixes[1..]);
    }
  }
}
