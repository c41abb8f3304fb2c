// src/packer/ip.rs: IP addresses with a port, in a 16-byte form.
module Ips {
  import opened Bytes
  import opened Codecs
  import opened Packers

  type Octets4 = b: Bytes | |b| == 4 witness [0, 0, 0, 0]
  type Octets16 = b: Bytes | |b| == 16 witness Zeros(16)
  datatype IpAddr = V4(v4: Octets4) | V6(v6: Octets16)
  datatype Endpoint = Endpoint(ip: IpAddr, port: u16)

  const ZEROS: Bytes := [0, 0, 0, 0, 0, 0, 0, 0, 0, 0, 0, 0]

  /** An IPv4 address is put behind twelve zero bytes, without the two 0xFF of the mapped form. */
  function IpBytes(ip: IpAddr): (b: Octets16) {
    match ip
    case V4(o) => ZEROS + [o[0], o[1], o[2], o[3]]
    case V6(o) => o
  }

  predicate LooksLikeV4(b: Octets16) {
    b[..12] == ZEROS && b[12] > 0
  }

  function IpFrom(b: Octets16): (ip: IpAddr) {
    if LooksLikeV4(b) then V4([b[12], b[13], b[14], b[15]]) else V6(b)
  }

  /** The address that comes back from the wire. */
  function Canonical(ip: IpAddr): (c: IpAddr)
    ensures IpBytes(c) == IpBytes(ip)
    ensures Canonical'(c)
  {
    var b := IpBytes(ip);
    assert LooksLikeV4(b) ==> b == ZEROS + [b[12], b[13], b[14], b[15]];
    IpFrom(b)
  }

  predicate Canonical'(ip: IpAddr) {
    IpFrom(IpBytes(ip)) == ip
  }

  /**
   An address keeps its variant exactly when it is IPv4 with a nonzero first octet, or IPv6 that is
   not twelve zero bytes and a nonzero byte (the IPv4-compatible form, section 2.5.5.1 of RFC 4291).
   */
  lemma CanonicalIff(ip: IpAddr)
    ensures Canonical(ip) == ip <==>
            match ip
            case V4(o) => o[0] != 0
            case V6(o) => !((forall i :: 0 <= i < 12 ==> o[i] == 0) && o[12] != 0)
  {
    var b := IpBytes(ip);
    match ip
    case V4(o) =>
      assert b[..12] == ZEROS;
      assert o == [o[0], o[1], o[2], o[3]];
    case V6(o) =>
      if forall i :: 0 <= i < 12 ==> o[i] == 0 {
        assert o[..12] == ZEROS;
      } else {
        var i :| 0 <= i < 12 && o[i] != 0;
        assert o[..12][i] != ZEROS[i];
      }
  }

  function EndpointWire(): Codec<(Bytes, nat)> {
    Pair(Fixed(16), UInt(2))
  }

  /** The wire form of one address and port. Its legal values are the canonical ones. */
  function EndpointCodec(): Codec<Endpoint> {
    Mapped(EndpointWire(),
           (e: Endpoint) => Canonical'(e.ip),
           (e: Endpoint) => (IpBytes(e.ip), e.port),
           (w: (Bytes, nat)) =>
             if |w.0| == 16 && w.1 < 0x1_0000 then Endpoint(IpFrom(w.0), w.1) else Endpoint(V4([0, 0, 0, 0]), 0))
  }

  lemma EndpointExact()
    ensures Exact(EndpointCodec())
  {
    FixedExact(16);
    UIntExact(2);
    PairExact(Fixed(16), UInt(2));
    forall b: Octets16
      ensures Canonical'(IpFrom(b)) && IpBytes(IpFrom(b)) == b
    {
      assert LooksLikeV4(b) ==> b == ZEROS + [b[12], b[13], b[14], b[15]];
    }
  }

  function CanonicalAll(es: seq<Endpoint>): (cs: seq<Endpoint>)
    ensures |cs| == |es|
    ensures forall i :: 0 <= i < |es| ==> cs[i] == es[i].(ip := Canonical(es[i].ip))
  {
    if es == [] then [] else [es[0].(ip := Canonical(es[0].ip))] + CanonicalAll(es[1..])
  }

  lemma {:induction false} CanonicalAllSameBytes(es: seq<Endpoint>)
    ensures EncAll(EndpointCodec().enc, CanonicalAll(es)) == EncAll(EndpointCodec().enc, es)
  {
    if es != [] {
      CanonicalAllSameBytes(es[1..]);
      assert CanonicalAll(es)[1..] == CanonicalAll(es[1..]);
    }
  }

  function Endpoints(): Codec<seq<Endpoint>> {
    ListOf(4, EndpointCodec())
  }

  lemma EndpointsExact()
    ensures Exact(Endpoints())
  {
    EndpointExact();
    ListOfExact(4, EndpointCodec());
  }

  lemma CanonicalAllDecodes(es: seq<Endpoint>, rest: Bytes)
    requires |es| < 0x1_0000_0000 && forall i :: 0 <= i < |es| ==> Canonical'(es[i].ip)
    ensures Endpoints().dec(Endpoints().enc(es) + rest) == Some((es, rest))
  {
    EndpointsExact();
    assert Endpoints().ok(es);
  }

  /**
   Packed addresses unpack to their canonical forms, whatever follows them, and packing those again
   gives the same bytes; on arbitrary bytes, what unpacks is canonical and repacks to what was read.
   */
  lemma EndpointsRoundTrip(es: seq<Endpoint>, rest: Bytes)
    requires |es| < 0x1_0000_0000
    ensures Endpoints().dec(Endpoints().enc(es) + rest) == Some((CanonicalAll(es), rest))
    ensures Endpoints().enc(CanonicalAll(es)) == Endpoints().enc(es)
  {
    CanonicalAllSameBytes(es);
    CanonicalAllDecodes(CanonicalAll(es), rest);
  }

  lemma EndpointsRepack(b: Bytes)
    requires Endpoints().dec(b).Some?
    ensures var (es, rest) := Endpoints().dec(b).value;
            b == Endpoints().enc(es) + rest && CanonicalAll(es) == es
  {
    EndpointsExact();
    var (es, rest) := Endpoints().dec(b).value;
    assert forall i :: 0 <= i < |es| ==> EndpointCodec().ok(es[i]) && CanonicalAll(es)[i] == es[i];
  }

  method PackIp(p: Packer, e: Endpoint) returns (r: Outcome)
    requires p.Packing()
    modifies p`bytes, p`offset
    ensures p.Wrote(old(p.bytes), r, EndpointCodec().enc(e))
  {
    Associative(p.bytes, IpBytes(e.ip), BigEndian(2, e.port));
    :- p.PackBytes(IpBytes(e.ip));
    r := p.PackU16(e.port);
  }

  method UnpackIp(p: Packer) returns (r: Result<Endpoint>)
    requires p.offset <= |p.bytes|
    modifies p`offset
    ensures p.Read(old(p.offset), r, EndpointCodec().dec(p.bytes[old(p.offset)..]))
  {
    var ip :- p.UnpackBytes(16);
    var port :- p.UnpackU16();
    return Ok(Endpoint(IpFrom(ip), port));
  }

  method PackIps(p: Packer, es: seq<Endpoint>) returns (r: Outcome)
    requires p.Packing()
    modifies p`bytes, p`offset
    ensures p.Wrote(old(p.bytes), r, Endpoints().enc(es))
  {
    Associative(p.bytes, BigEndian(4, Cast(4, |es|)), EncAll(EndpointCodec().enc, es));
    :- p.PackU32(Cast(4, |es|));
    r := PackEachIp(p, es);
  }

  method PackEachIp(p: Packer, es: seq<Endpoint>) returns (r: Outcome)
    requires p.Packing()
    modifies p`bytes, p`offset
    ensures p.Wrote(old(p.bytes), r, EncAll(EndpointCodec().enc, es))
  {
    ghost var before, enc := p.bytes, EndpointCodec().enc;
    assert es[0..] == es;
    for i := 0 to |es|
      invariant p.Packing() && before <= p.bytes
      invariant p.bytes + EncAll(enc, es[i..]) == before + EncAll(enc, es)
    {
      PackStep(p.bytes, enc, es, i, before + EncAll(enc, es));
      :- PackIp(p, es[i]);
    }
    return Pass;
  }

  method UnpackIps(p: Packer) returns (r: Result<seq<Endpoint>>)
    requires p.offset <= |p.bytes|
    modifies p`offset
    ensures p.Read(old(p.offset), r, Endpoints().dec(p.bytes[old(p.offset)..]))
  {
    var n :- p.UnpackU32();
    r := UnpackEachIp(p, n);
  }

  method UnpackEachIp(p: Packer, n: nat) returns (r: Result<seq<Endpoint>>)
    requires p.offset <= |p.bytes|
    modifies p`offset
    ensures p.Read(old(p.offset), r, DecN(EndpointCodec().dec, n, p.bytes[old(p.offset)..], []))
  {
    r := Ok([]);
    ghost var from, dec := p.offset, EndpointCodec().dec;
    for i := 0 to n
      invariant from <= p.offset <= |p.bytes| && r.Ok?
      invariant DecN(dec, n, p.bytes[from..], []) == DecN(dec, n - i, p.bytes[p.offset..], r.value)
    {
      UnpackStep(dec, n - i, p.bytes[p.offset..], r.value);
      var e :- UnpackIp(p);
      r := Ok(r.value + [e]);
    }
  }
}
