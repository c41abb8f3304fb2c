/**
 Whole runs of src/packer/mod.rs: any list of typed fields, packed one after another and unpacked
 by the same list of types.
 */
module Fields {
  import opened Bytes
  import opened Codecs
  import opened Packers
  import opened Texts

  datatype Kind =
    | Byte | U16 | U32 | U64 | Boolean
    | FixedBytes(n: nat) | HeadedBytes | Fixed2D(n: nat) | Headed2D | String

  datatype Field =
    | Number(x: nat)
    | Flag(v: bool)
    | Blob(b: Bytes)
    | Blobs(bs: seq<Bytes>)

  function Numbers(n: nat): Codec<Field> {
    Mapped(UInt(n), (f: Field) => f.Number?, (f: Field) => if f.Number? then f.x else 0, x => Number(x))
  }

  function Flags(): Codec<Field> {
    Mapped(Bool(), (f: Field) => f.Flag?, (f: Field) => f.Flag? && f.v, v => Flag(v))
  }

  function BlobOf(c: Codec<Bytes>): Codec<Field> {
    Mapped(c, (f: Field) => f.Blob?, (f: Field) => if f.Blob? then f.b else [], b => Blob(b))
  }

  function BlobsOf(c: Codec<seq<Bytes>>): Codec<Field> {
    Mapped(c, (f: Field) => f.Blobs?, (f: Field) => if f.Blobs? then f.bs else [], bs => Blobs(bs))
  }

  /** The wire form of one field of a given kind. */
  function FieldOf(k: Kind): Codec<Field> {
    match k
    case Byte => Numbers(1)
    case U16 => Numbers(2)
    case U32 => Numbers(4)
    case U64 => Numbers(8)
    case Boolean => Flags()
    case FixedBytes(n) => BlobOf(Fixed(n))
    case HeadedBytes => BlobOf(Headed(4))
    case Fixed2D(n) => BlobsOf(ListOf(4, Fixed(n)))
    case Headed2D => BlobsOf(ListOf(4, Headed(4)))
    case String => BlobOf(Str())
  }

  /** A value of the type that the pack call of this kind takes. Strings are UTF-8; lengths are not limited. */
  predicate Typed(k: Kind, f: Field) {
    match k
    case Byte => f.Number? && f.x < 0x100
    case U16 => f.Number? && f.x < 0x1_0000
    case U32 => f.Number? && f.x < 0x1_0000_0000
    case U64 => f.Number? && f.x < 0x1_0000_0000_0000_0000
    case Boolean => f.Flag?
    case FixedBytes(n) => f.Blob? && |f.b| == n
    case HeadedBytes => f.Blob?
    case Fixed2D(n) => f.Blobs? && forall i :: 0 <= i < |f.bs| ==> |f.bs[i]| == n
    case Headed2D => f.Blobs?
    case String => f.Blob? && Utf8(f.b)
  }

  /** The values that pack_str refuses: strings whose length is 65535 modulo 65536. */
  predicate Refused(k: Kind, f: Field)
    requires Typed(k, f)
  {
    k.String? && |f.b| % 0x1_0000 == 0xFFFF
  }

  /** Every field has the type of its kind. */
  predicate RunTyped(ks: seq<Kind>, fs: seq<Field>) {
    |ks| == |fs| && forall i :: 0 <= i < |ks| ==> Typed(ks[i], fs[i])
  }

  predicate NoneRefused(ks: seq<Kind>, fs: seq<Field>)
    requires RunTyped(ks, fs)
  {
    forall i :: 0 <= i < |ks| ==> !Refused(ks[i], fs[i])
  }

  /** Every string is at most 65534 bytes long. */
  predicate ShortStrings(ks: seq<Kind>, fs: seq<Field>)
    requires RunTyped(ks, fs)
  {
    forall i :: 0 <= i < |ks| && ks[i].String? ==> |fs[i].b| <= 65534
  }

  lemma NumbersExact(n: nat)
    ensures Exact(Numbers(n))
  {
    UIntExact(n);
  }

  lemma FlagsExact()
    ensures Exact(Flags())
  {
    BoolExact();
  }

  lemma BlobExact(c: Codec<Bytes>)
    requires Exact(c)
    ensures Exact(BlobOf(c))
  {
  }

  lemma BlobsExact(c: Codec<Bytes>)
    requires Exact(c)
    ensures Exact(BlobsOf(ListOf(4, c)))
  {
    ListOfExact(4, c);
    MappedExact(ListOf(4, c), (f: Field) => f.Blobs?, (f: Field) => if f.Blobs? then f.bs else [], bs => Blobs(bs));
  }

  lemma FieldExact(k: Kind)
    ensures Exact(FieldOf(k))
  {
    match k
    case Byte => NumbersExact(1);
    case U16 => NumbersExact(2);
    case U32 => NumbersExact(4);
    case U64 => NumbersExact(8);
    case Boolean => FlagsExact();
    case FixedBytes(n) => FixedExact(n); BlobExact(Fixed(n));
    case HeadedBytes => HeadedExact(4); BlobExact(Headed(4));
    case Fixed2D(n) => FixedExact(n); BlobsExact(Fixed(n));
    case Headed2D => HeadedExact(4); BlobsExact(Headed(4));
    case String => StrExact(); BlobExact(Str());
  }

  /** One codec per field of a run. */
  function Layout(ks: seq<Kind>): (cs: seq<Codec<Field>>)
    ensures |cs| == |ks|
  {
    seq(|ks|, i requires 0 <= i < |ks| => FieldOf(ks[i]))
  }

  function EncodeRun(cs: seq<Codec<Field>>, fs: seq<Field>): Bytes
    requires |cs| == |fs|
  {
    if cs == [] then [] else cs[0].enc(fs[0]) + EncodeRun(cs[1..], fs[1..])
  }

  function DecodeRun(cs: seq<Codec<Field>>, b: Bytes): Option<(seq<Field>, Bytes)> {
    if cs == [] then Some(([], b)) else
    match cs[0].dec(b)
    case None => None
    case Some((f, r)) =>
      match DecodeRun(cs[1..], r)
      case None => None
      case Some((fs, q)) => Some(([f] + fs, q))
  }

  ghost predicate RunOk(cs: seq<Codec<Field>>, fs: seq<Field>) {
    |cs| == |fs| && forall i :: 0 <= i < |cs| ==> cs[i].ok(fs[i])
  }

  lemma {:induction false} RunComplete(cs: seq<Codec<Field>>, fs: seq<Field>, rest: Bytes)
    requires forall i :: 0 <= i < |cs| ==> Complete(cs[i])
    requires RunOk(cs, fs)
    ensures DecodeRun(cs, EncodeRun(cs, fs) + rest) == Some((fs, rest))
  {
    if cs != [] {
      var head, tail := cs[0].enc(fs[0]), EncodeRun(cs[1..], fs[1..]);
      Associative(head, tail, rest);
      assert Complete(cs[0]);
      RunComplete(cs[1..], fs[1..], rest);
      assert fs == [fs[0]] + fs[1..];
    } else {
      assert EncodeRun(cs, fs) + rest == rest;
    }
  }

  lemma {:induction false} RunSound(cs: seq<Codec<Field>>, b: Bytes)
    requires forall i :: 0 <= i < |cs| ==> Sound(cs[i])
    requires DecodeRun(cs, b).Some?
    ensures RunOk(cs, DecodeRun(cs, b).value.0)
    ensures b == EncodeRun(cs, DecodeRun(cs, b).value.0) + DecodeRun(cs, b).value.1
  {
    if cs != [] {
      assert Sound(cs[0]);
      var (f, r) := cs[0].dec(b).value;
      RunSound(cs[1..], r);
      var (fs, q) := DecodeRun(cs[1..], r).value;
      assert ([f] + fs)[1..] == fs;
      Associative(cs[0].enc(f), EncodeRun(cs[1..], fs), q);
    }
  }

  /** An encoded run decodes to itself and leaves what follows, exactly if no length lost bits in its cast. */
  lemma RunRoundTripIff(ks: seq<Kind>, fs: seq<Field>, rest: Bytes)
    requires |ks| == |fs|
    ensures DecodeRun(Layout(ks), EncodeRun(Layout(ks), fs) + rest) == Some((fs, rest)) <==> RunOk(Layout(ks), fs)
  {
    forall i | 0 <= i < |ks|
      ensures Complete(Layout(ks)[i]) && Sound(Layout(ks)[i])
    {
      FieldExact(ks[i]);
    }
    if RunOk(Layout(ks), fs) {
      RunComplete(Layout(ks), fs, rest);
    } else if DecodeRun(Layout(ks), EncodeRun(Layout(ks), fs) + rest) == Some((fs, rest)) {
      RunSound(Layout(ks), EncodeRun(Layout(ks), fs) + rest);
    }
  }

  /**
   On arbitrary bytes: what a run of unpack calls returns is typed, and its encoding is exactly what
   was consumed. Whether the packer writes that encoding is the matter of UnpackThenPack.
   */
  lemma RunReencodes(ks: seq<Kind>, b: Bytes)
    ensures DecodeRun(Layout(ks), b).Some? ==>
              var (fs, rest) := DecodeRun(Layout(ks), b).value;
              && RunOk(Layout(ks), fs)
              && b == EncodeRun(Layout(ks), fs) + rest
  {
    if DecodeRun(Layout(ks), b).Some? {
      forall i | 0 <= i < |ks|
        ensures Sound(Layout(ks)[i])
      {
        FieldExact(ks[i]);
      }
      RunSound(Layout(ks), b);
    }
  }

  lemma OkTyped(k: Kind, f: Field)
    requires FieldOf(k).ok(f)
    ensures Typed(k, f)
    ensures Refused(k, f) <==> k.String? && |f.b| > 65534
  {
  }

  /** A run that can be read back is refused exactly if one of its strings is 65535 bytes long. */
  lemma RunOkTyped(ks: seq<Kind>, fs: seq<Field>)
    requires RunOk(Layout(ks), fs)
    ensures RunTyped(ks, fs)
    ensures NoneRefused(ks, fs) <==> ShortStrings(ks, fs)
  {
    forall i | 0 <= i < |ks|
      ensures Typed(ks[i], fs[i])
      ensures Refused(ks[i], fs[i]) <==> ks[i].String? && |fs[i].b| > 65534
    {
      assert Layout(ks)[i].ok(fs[i]);
      OkTyped(ks[i], fs[i]);
    }
  }

  /**
   Strings are the one kind where accepting is wider than packing: unpack_str takes 65535 bytes,
   pack_str refuses exactly the lengths 65535 modulo 65536 and truncates the length of longer ones.
   So the value read back is the value packed if and only if it is at most 65534 bytes long.
   */
  lemma StrRoundTripIff(v: Bytes, rest: Bytes)
    requires Utf8(v)
    ensures |v| % 0x1_0000 != 0xFFFF && Str().dec(Str().enc(v) + rest) == Some((v, rest)) <==> |v| <= 65534
  {
    StrReads(v, rest);
    NotRefused(|v|);
  }

  lemma NotRefused(n: nat)
    ensures n % 0x1_0000 != 0xFFFF && n <= 65535 <==> n <= 65534
  {
  }

  lemma StrReads(v: Bytes, rest: Bytes)
    ensures Str().dec(Str().enc(v) + rest) == Some((v, rest)) <==> Utf8(v) && |v| <= 65535
  {
    StrEnc(v);
    StrExact();
    CodecReads(Str(), v, rest);
  }

  /** A value is read back exactly if it is legal. */
  lemma CodecReads<T(!new)>(c: Codec<T>, t: T, rest: Bytes)
    requires Exact(c)
    ensures c.dec(c.enc(t) + rest) == Some((t, rest)) <==> c.ok(t)
  {
    if c.ok(t) {
      CompleteAt(c, t, rest);
    }
  }

  /** A string that unpacks and whose repacking is refused: 65535 letters. */
  lemma StrNotRepackable() returns (b: Bytes)
    ensures Str().dec(b).Some? && |Str().dec(b).value.0| % 0x1_0000 == 0xFFFF
  {
    var v: Bytes := seq(0xFFFF, _ => 0x61);
    AsciiIsUtf8(v);
    StrExact();
    b := Str().enc(v) + [];
    assert Str().ok(v);
    assert Str().dec(b) == Some((v, []));
  }

  // ---- the runs on the packer itself ----

  method PackField(p: Packer, k: Kind, f: Field) returns (r: Outcome)
    requires p.Packing() && Typed(k, f)
    modifies p`bytes, p`offset
    ensures if Refused(k, f) then r == Fail(BadString) && p.Packing() && p.bytes == old(p.bytes)
            else p.Wrote(old(p.bytes), r, FieldOf(k).enc(f))
  {
    match k
    case Byte => r := p.PackByte(f.x);
    case U16 => r := p.PackU16(f.x);
    case U32 => r := p.PackU32(f.x);
    case U64 => r := p.PackU64(f.x);
    case Boolean => r := p.PackBool(f.v);
    case FixedBytes(_) => r := p.PackBytes(f.b);
    case HeadedBytes => r := p.PackBytesWithHeader(f.b);
    case Fixed2D(n) => r := p.Pack2DBytes(f.bs, n);
    case Headed2D => r := p.Pack2DBytesWithHeader(f.bs);
    case String => r := PackText(p, f.b);
  }

  method PackText(p: Packer, v: Bytes) returns (r: Outcome)
    requires p.Packing()
    modifies p`bytes, p`offset
    ensures if |v| % 0x1_0000 == 0xFFFF then r == Fail(BadString) && p.Packing() && p.bytes == old(p.bytes)
            else p.Wrote(old(p.bytes), r, Str().enc(v))
  {
    StrEnc(v);
    r := p.PackStr(v);
  }

  method UnpackNumber(p: Packer, n: nat) returns (r: Result<Field>)
    requires p.offset <= |p.bytes|
    modifies p`offset
    ensures p.Read(old(p.offset), r, Numbers(n).dec(p.bytes[old(p.offset)..]))
  {
    var x :- p.UnpackUInt(n);
    return Ok(Number(x));
  }

  method UnpackBlob(p: Packer, k: Kind) returns (r: Result<Field>)
    requires p.offset <= |p.bytes|
    requires k.FixedBytes? || k.HeadedBytes? || k.String?
    modifies p`offset
    ensures p.Read(old(p.offset), r, FieldOf(k).dec(p.bytes[old(p.offset)..]))
  {
    var b: Result<Bytes>;
    match k {
      case FixedBytes(n) => b := p.UnpackBytes(n);
      case HeadedBytes => b := p.UnpackBytesWithHeader();
      case String => b := p.UnpackStr();
    }
    r := if b.Ok? then Ok(Blob(b.value)) else Err(b.error);
  }

  method UnpackBlobs(p: Packer, k: Kind) returns (r: Result<Field>)
    requires p.offset <= |p.bytes|
    requires k.Fixed2D? || k.Headed2D?
    modifies p`offset
    ensures p.Read(old(p.offset), r, FieldOf(k).dec(p.bytes[old(p.offset)..]))
  {
    var bs: Result<seq<Bytes>>;
    match k {
      case Fixed2D(n) => bs := p.Unpack2DBytes(n);
      case Headed2D => bs := p.Unpack2DBytesWithHeader();
    }
    r := if bs.Ok? then Ok(Blobs(bs.value)) else Err(bs.error);
  }

  method UnpackField(p: Packer, k: Kind) returns (r: Result<Field>)
    requires p.offset <= |p.bytes|
    modifies p`offset
    ensures p.Read(old(p.offset), r, FieldOf(k).dec(p.bytes[old(p.offset)..]))
  {
    match k
    case Byte => r := UnpackNumber(p, 1);
    case U16 => r := UnpackNumber(p, 2);
    case U32 => r := UnpackNumber(p, 4);
    case U64 => r := UnpackNumber(p, 8);
    case Boolean => var v :- p.UnpackBool(); return Ok(Flag(v));
    case FixedBytes(_) => r := UnpackBlob(p, k);
    case HeadedBytes => r := UnpackBlob(p, k);
    case String => r := UnpackBlob(p, k);
    case Fixed2D(_) => r := UnpackBlobs(p, k);
    case Headed2D => r := UnpackBlobs(p, k);
  }

  /** One round of the packing loop: done bytes plus the fields still to come stay the target. */
  lemma RunStep(done: Bytes, cs: seq<Codec<Field>>, fs: seq<Field>, i: nat, target: Bytes)
    requires i < |cs| == |fs|
    requires done + EncodeRun(cs[i..], fs[i..]) == target
    ensures (done + cs[i].enc(fs[i])) + EncodeRun(cs[i + 1..], fs[i + 1..]) == target
    ensures done + cs[i].enc(fs[i]) <= target
  {
    assert cs[i..][1..] == cs[i + 1..] && fs[i..][1..] == fs[i + 1..];
    Associative(done, cs[i].enc(fs[i]), EncodeRun(cs[i + 1..], fs[i + 1..]));
  }

  /**
   Packs a whole run: it succeeds exactly when no string is refused and the encoded run fits, and in
   any case a prefix of the encoding stands behind the old bytes.
   */
  method PackRun(p: Packer, ks: seq<Kind>, fs: seq<Field>) returns (r: Outcome)
    requires p.Packing() && RunTyped(ks, fs)
    modifies p`bytes, p`offset
    ensures r.Pass? <==> NoneRefused(ks, fs) && |old(p.bytes)| + |EncodeRun(Layout(ks), fs)| <= p.maxSize
    ensures r.Pass? ==> p.bytes == old(p.bytes) + EncodeRun(Layout(ks), fs)
    ensures p.Packing() && old(p.bytes) <= p.bytes <= old(p.bytes) + EncodeRun(Layout(ks), fs)
  {
    ghost var before, cs := p.bytes, Layout(ks);
    assert cs[0..] == cs && fs[0..] == fs;
    for i := 0 to |ks|
      invariant p.Packing() && before <= p.bytes
      invariant p.bytes + EncodeRun(cs[i..], fs[i..]) == before + EncodeRun(cs, fs)
      invariant forall j :: 0 <= j < i ==> !Refused(ks[j], fs[j])
    {
      RunStep(p.bytes, cs, fs, i, before + EncodeRun(cs, fs));
      :- PackField(p, ks[i], fs[i]);
    }
    return Pass;
  }

  method UnpackRun(p: Packer, ks: seq<Kind>) returns (r: Result<seq<Field>>)
    requires p.offset <= |p.bytes|
    modifies p`offset
    ensures p.Read(old(p.offset), r, DecodeRun(Layout(ks), p.bytes[old(p.offset)..]))
  {
    if ks == [] {
      return Ok([]);
    }
    assert Layout(ks)[1..] == Layout(ks[1..]);
    var f :- UnpackField(p, ks[0]);
    var fs :- UnpackRun(p, ks[1..]);
    return Ok([f] + fs);
  }

  /** Unpacks a run behind a header of four bytes or none. */
  method UnpackMessage(header: bool, b: Bytes, ks: seq<Kind>) returns (unpacked: Result<seq<Field>>, end: nat)
    requires header ==> |b| >= 4
    ensures var from := if header then 4 else 0;
            var d := DecodeRun(Layout(ks), b[from..]);
            && (unpacked.Ok? <==> d.Some?)
            && (unpacked.Ok? ==> from <= end <= |b| && d == Some((unpacked.value, b[end..])))
  {
    var q := new Packer.LoadBytesForUnpack(|b|, b);
    if header {
      var length := q.UnpackUInt(4);
    }
    unpacked := UnpackRun(q, ks);
    end := q.offset;
  }

  /**
   Pack a run with a fresh packer, hand the bytes over, unpack them. A packer with a header puts the
   length of the message in front. The fields come back exactly if no length lost bits in its cast,
   and the second packer then stops at the end of the bytes.
   */
  method PackThenUnpack(maxSize: nat, header: bool, ks: seq<Kind>, fs: seq<Field>)
    returns (packed: Outcome, b: Bytes, unpacked: Result<seq<Field>>, end: nat)
    requires RunTyped(ks, fs) && (header ==> maxSize >= 4)
    ensures packed.Pass? <==>
            NoneRefused(ks, fs) && (if header then 4 else 0) + |EncodeRun(Layout(ks), fs)| <= maxSize
    ensures packed.Pass? ==>
              var message := EncodeRun(Layout(ks), fs);
              b == if header then BigEndian(4, Cast(4, |message|)) + message else message
    ensures packed.Pass? ==> (unpacked == Ok(fs) && end == |b| <==> RunOk(Layout(ks), fs))
  {
    var p: Packer;
    if header {
      p := new Packer.NewWithHeader(maxSize);
    } else {
      p := new Packer.New(maxSize);
    }
    packed := PackRun(p, ks, fs);
    b := p.TakeBytes();
    unpacked, end := UnpackMessage(header, b, ks);
    if packed.Pass? {
      ghost var message := EncodeRun(Layout(ks), fs);
      assert b[if header then 4 else 0..] == message == message + [];
      RunRoundTripIff(ks, fs, []);
    }
  }

  /**
   The other way round, on arbitrary bytes: unpack a run, then pack what was read with a fresh packer.
   It succeeds exactly if every string read is at most 65534 bytes long and the n bytes that were
   consumed fit under the cap, and it then gives back exactly those.
   */
  method UnpackThenPack(maxSize: nat, ks: seq<Kind>, d: Bytes)
    returns (unpacked: Result<seq<Field>>, n: nat, packed: Outcome, b: Bytes)
    ensures unpacked.Ok? <==> DecodeRun(Layout(ks), d).Some?
    ensures unpacked.Ok? ==>
              && DecodeRun(Layout(ks), d).value.0 == unpacked.value && n <= |d| && RunTyped(ks, unpacked.value)
              && (packed.Pass? <==> ShortStrings(ks, unpacked.value) && n <= maxSize)
    ensures unpacked.Ok? && packed.Pass? ==> b == d[..n]
  {
    var q := new Packer.LoadBytesForUnpack(|d|, d);
    assert d[0..] == d;
    unpacked := UnpackRun(q, ks);
    n, packed, b := q.offset, Pass, [];
    if unpacked.Ok? {
      RunReencodes(ks, d);
      RunOkTyped(ks, unpacked.value);
      Consumed(d, EncodeRun(Layout(ks), unpacked.value), n);
      var p := new Packer.New(maxSize);
      packed := PackRun(p, ks, unpacked.value);
      b := p.TakeBytes();
    }
  }

  lemma Consumed(d: Bytes, e: Bytes, n: nat)
    requires n <= |d| && d == e + d[n..]
    ensures e == d[..n]
  {
    assert |e| == n;
    assert d[..n] == (e + d[n..])[..n];
  }
}
