/**
 A wire grammar. A codec is a set of legal values, an encoder and a reference decoder that
 returns the value read and the bytes left over. Exact says that the decoder recognises the
 encodings of legal values and nothing else, whatever follows them.
 */
module Codecs {
  import opened Bytes

  datatype Codec<!T> = Codec(ok: T -> bool, enc: T -> Bytes, dec: Bytes -> Option<(T, Bytes)>)
  datatype Either<+A, +B> = Left(left: A) | Right(right: B)

  /** Decoding an encoding, with anything behind it, gives the value back. */
  ghost predicate Complete<T(!new)>(c: Codec<T>) {
    forall t, rest :: c.ok(t) ==> c.dec(c.enc(t) + rest) == Some((t, rest))
  }

  /** What is decoded is legal, and encoding it again gives exactly the consumed bytes. */
  ghost predicate Sound<T(!new)>(c: Codec<T>) {
    forall b :: c.dec(b).Some? ==>
      c.ok(c.dec(b).value.0) && b == c.enc(c.dec(b).value.0) + c.dec(b).value.1
  }

  ghost predicate Exact<T(!new)>(c: Codec<T>) {
    Complete(c) && Sound(c)
  }

  /** Encodings are uniquely decodable: none is a proper prefix of, or equal to, another's. */
  lemma UniquelyDecodable<T(!new)>(c: Codec<T>, x: T, restX: Bytes, y: T, restY: Bytes)
    requires Complete(c) && c.ok(x) && c.ok(y)
    requires c.enc(x) + restX == c.enc(y) + restY
    ensures x == y && restX == restY
  {
    assert c.dec(c.enc(x) + restX) == Some((x, restX));
    assert c.dec(c.enc(y) + restY) == Some((y, restY));
  }

  lemma Associative(a: Bytes, b: Bytes, c: Bytes)
    ensures (a + b) + c == a + (b + c)
  {
  }

  // ---- fixed-length byte strings ----

  function Fixed(n: nat): Codec<Bytes> {
    Codec((v: Bytes) => |v| == n,
          (v: Bytes) => v,
          (b: Bytes) => if |b| < n then None else Some((b[..n], b[n..])))
  }

  lemma FixedExact(n: nat)
    ensures Exact(Fixed(n))
  {
    forall v: Bytes, rest: Bytes | |v| == n
      ensures (v + rest)[..n] == v && (v + rest)[n..] == rest
    {
    }
    forall b: Bytes | |b| >= n
      ensures b == b[..n] + b[n..]
    {
    }
  }

  // ---- big-endian unsigned integers of n bytes ----

  function UInt(n: nat): Codec<nat> {
    Codec((x: nat) => x < Pow256(n),
          (x: nat) => BigEndian(n, x),
          (b: Bytes) => if |b| < n then None else Some((FromBigEndian(b[..n]), b[n..])))
  }

  lemma UIntComplete(n: nat, x: nat, rest: Bytes)
    requires x < Pow256(n)
    ensures UInt(n).dec(BigEndian(n, x) + rest) == Some((x, rest))
  {
    BigEndianInverts(n, x);
    assert (BigEndian(n, x) + rest)[..n] == BigEndian(n, x);
    assert (BigEndian(n, x) + rest)[n..] == rest;
  }

  lemma UIntSound(n: nat, b: Bytes)
    requires n <= |b|
    ensures FromBigEndian(b[..n]) < Pow256(n)
    ensures b == BigEndian(n, FromBigEndian(b[..n])) + b[n..]
  {
    FromBigEndianBound(b[..n]);
    FromBigEndianInverts(b[..n]);
  }

  lemma UIntExact(n: nat)
    ensures Exact(UInt(n))
  {
    forall x: nat, rest: Bytes | x < Pow256(n)
      ensures UInt(n).dec(BigEndian(n, x) + rest) == Some((x, rest))
    {
      UIntComplete(n, x, rest);
    }
    forall b: Bytes | |b| >= n
      ensures FromBigEndian(b[..n]) < Pow256(n) && b == BigEndian(n, FromBigEndian(b[..n])) + b[n..]
    {
      UIntSound(n, b);
    }
  }

  function TakeU16(b: Bytes): Option<(u16, Bytes)> {
    if |b| < 2 then None else
    FromBigEndianBound(b[..2]);
    Some((FromBigEndian(b[..2]), b[2..]))
  }

  function TakeU32(b: Bytes): Option<(u32, Bytes)> {
    if |b| < 4 then None else
    FromBigEndianBound(b[..4]);
    Some((FromBigEndian(b[..4]), b[4..]))
  }

  function TakeU64(b: Bytes): Option<(u64, Bytes)> {
    if |b| < 8 then None else
    FromBigEndianBound(b[..8]);
    Some((FromBigEndian(b[..8]), b[8..]))
  }

  function U16(): Codec<u16> {
    Codec((x: u16) => true,
          (x: u16) => BigEndian(2, x),
          TakeU16)
  }

  function U32(): Codec<u32> {
    Codec((x: u32) => true,
          (x: u32) => BigEndian(4, x),
          TakeU32)
  }

  function U64(): Codec<u64> {
    Codec((x: u64) => true,
          (x: u64) => BigEndian(8, x),
          TakeU64)
  }

  lemma U16Exact()
    ensures Exact(U16())
  {
    forall x: u16, rest: Bytes
      ensures U16().dec(BigEndian(2, x) + rest) == Some((x, rest))
    {
      UIntComplete(2, x, rest);
    }
    forall b: Bytes | |b| >= 2
      ensures b == BigEndian(2, FromBigEndian(b[..2])) + b[2..]
    {
      UIntSound(2, b);
    }
  }

  lemma U32Exact()
    ensures Exact(U32())
  {
    forall x: u32, rest: Bytes
      ensures U32().dec(BigEndian(4, x) + rest) == Some((x, rest))
    {
      UIntComplete(4, x, rest);
    }
    forall b: Bytes | |b| >= 4
      ensures b == BigEndian(4, FromBigEndian(b[..4])) + b[4..]
    {
      UIntSound(4, b);
    }
  }

  lemma U64Exact()
    ensures Exact(U64())
  {
    forall x: u64, rest: Bytes
      ensures U64().dec(BigEndian(8, x) + rest) == Some((x, rest))
    {
      UIntComplete(8, x, rest);
    }
    forall b: Bytes | |b| >= 8
      ensures b == BigEndian(8, FromBigEndian(b[..8])) + b[8..]
    {
      UIntSound(8, b);
    }
  }

  // ---- a codec cut down to some of its values ----

  function Filtered<T>(c: Codec<T>, legal: T -> bool): Codec<T> {
    Codec((t: T) => c.ok(t) && legal(t),
          c.enc,
          (b: Bytes) =>
            match c.dec(b)
            case None => None
            case Some((t, r)) => if legal(t) then Some((t, r)) else None)
  }

  lemma FilteredExact<T(!new)>(c: Codec<T>, legal: T -> bool)
    requires Exact(c)
    ensures Exact(Filtered(c, legal))
  {
  }

  /** A u32 that must hold one particular value, such as a type ID. */
  function Word(w: u32): Codec<u32> {
    Filtered(U32(), (x: u32) => x == w)
  }

  lemma WordExact(w: u32)
    ensures Exact(Word(w))
  {
    U32Exact();
    FilteredExact(U32(), (x: u32) => x == w);
  }

  // ---- booleans: one byte, 0 or 1 ----

  function Bool(): Codec<bool> {
    Codec((v: bool) => true,
          (v: bool) => if v then [1] else [0],
          (b: Bytes) => if b == [] || b[0] > 1 then None else Some((b[0] == 1, b[1..])))
  }

  lemma BoolExact()
    ensures Exact(Bool())
  {
    forall v: bool, rest: Bytes
      ensures Bool().dec(Bool().enc(v) + rest) == Some((v, rest))
    {
      assert (Bool().enc(v) + rest)[1..] == rest;
    }
    forall b: Bytes | b != []
      ensures b == [b[0]] + b[1..]
    {
    }
  }

  // ---- byte strings behind a length header of `width` bytes ----

  function Headed(width: nat): Codec<Bytes> {
    Codec((v: Bytes) => |v| < Pow256(width),
          (v: Bytes) => BigEndian(width, Cast(width, |v|)) + v,
          (b: Bytes) =>
            match UInt(width).dec(b)
            case None => None
            case Some((n, r)) => if |r| < n then None else Some((r[..n], r[n..])))
  }

  lemma HeadedExact(width: nat)
    ensures Exact(Headed(width))
  {
    forall v: Bytes, rest: Bytes | |v| < Pow256(width)
      ensures Headed(width).dec(Headed(width).enc(v) + rest) == Some((v, rest))
    {
      Associative(BigEndian(width, |v|), v, rest);
      UIntComplete(width, |v|, v + rest);
      assert (v + rest)[..|v|] == v && (v + rest)[|v|..] == rest;
    }
    forall b: Bytes | Headed(width).dec(b).Some?
      ensures Headed(width).ok(Headed(width).dec(b).value.0)
      ensures b == Headed(width).enc(Headed(width).dec(b).value.0) + Headed(width).dec(b).value.1
    {
      assert UInt(width).dec(b).Some?;
      UIntSound(width, b);
      var (n, r) := UInt(width).dec(b).value;
      assert r == r[..n] + r[n..];
      Associative(BigEndian(width, n), r[..n], r[n..]);
    }
  }

  // ---- a codec seen through a renaming of its values ----

  /** For types all of whose values are legal. */
  predicate Always<T>(x: T) { true }

  function Mapped<A, B>(c: Codec<A>, legal: B -> bool, from: B -> A, to: A -> B): Codec<B> {
    Codec((b: B) => legal(b) && c.ok(from(b)),
          (b: B) => c.enc(from(b)),
          (s: Bytes) => match c.dec(s) case None => None case Some((a, r)) => Some((to(a), r)))
  }

  lemma MappedAt<A, B>(c: Codec<A>, legal: B -> bool, from: B -> A, to: A -> B, b: B)
    ensures Mapped(c, legal, from, to).enc(b) == c.enc(from(b))
    ensures Mapped(c, legal, from, to).ok(b) <==> legal(b) && c.ok(from(b))
  {
  }

  lemma MappedExact<A(!new), B(!new)>(c: Codec<A>, legal: B -> bool, from: B -> A, to: A -> B)
    requires Exact(c)
    requires forall a :: c.ok(a) ==> legal(to(a)) && from(to(a)) == a
    requires forall b :: legal(b) ==> to(from(b)) == b
    ensures Exact(Mapped(c, legal, from, to))
  {
  }

  // ---- one codec after another ----

  function Pair<A, B>(a: Codec<A>, b: Codec<B>): Codec<(A, B)> {
    Codec((p: (A, B)) => a.ok(p.0) && b.ok(p.1),
          (p: (A, B)) => a.enc(p.0) + b.enc(p.1),
          (s: Bytes) =>
            match a.dec(s)
            case None => None
            case Some((x, r)) =>
              match b.dec(r)
              case None => None
              case Some((y, q)) => Some(((x, y), q)))
  }

  lemma PairAt<A, B>(a: Codec<A>, b: Codec<B>, x: A, y: B)
    ensures Pair(a, b).enc((x, y)) == a.enc(x) + b.enc(y)
    ensures Pair(a, b).ok((x, y)) <==> a.ok(x) && b.ok(y)
  {
  }

  lemma PairAt4<A, B, C, D>(a: Codec<A>, b: Codec<B>, c: Codec<C>, d: Codec<D>, x: A, y: B, z: C, t: D)
    ensures Pair(a, Pair(b, Pair(c, d))).enc((x, (y, (z, t)))) == a.enc(x) + (b.enc(y) + (c.enc(z) + d.enc(t)))
    ensures Pair(a, Pair(b, Pair(c, d))).ok((x, (y, (z, t)))) <==> a.ok(x) && b.ok(y) && c.ok(z) && d.ok(t)
  {
    PairAt(a, Pair(b, Pair(c, d)), x, (y, (z, t)));
    PairAt(b, Pair(c, d), y, (z, t));
    PairAt(c, d, z, t);
  }

  lemma PairDec<A, B>(a: Codec<A>, b: Codec<B>, s: Bytes)
    ensures Pair(a, b).dec(s)
         == match a.dec(s)
            case None => None
            case Some((x, r)) =>
              match b.dec(r)
              case None => None
              case Some((y, q)) => Some(((x, y), q))
  {
  }

  lemma PairExact<A(!new), B(!new)>(a: Codec<A>, b: Codec<B>)
    requires Exact(a) && Exact(b)
    ensures Exact(Pair(a, b))
  {
    var c := Pair(a, b);
    forall p: (A, B), rest: Bytes | c.ok(p)
      ensures c.dec(c.enc(p) + rest) == Some((p, rest))
    {
      Associative(a.enc(p.0), b.enc(p.1), rest);
    }
    forall s | c.dec(s).Some?
      ensures c.ok(c.dec(s).value.0) && s == c.enc(c.dec(s).value.0) + c.dec(s).value.1
    {
      var x := a.dec(s).value;
      var y := b.dec(x.1).value;
      Associative(a.enc(x.0), b.enc(y.0), y.1);
    }
  }

  lemma PairExact3<A(!new), B(!new), C(!new)>(a: Codec<A>, b: Codec<B>, c: Codec<C>)
    requires Exact(a) && Exact(b) && Exact(c)
    ensures Exact(Pair(a, Pair(b, c)))
  {
    PairExact(b, c);
    PairExact(a, Pair(b, c));
  }

  lemma PairExact4<A(!new), B(!new), C(!new), D(!new)>(a: Codec<A>, b: Codec<B>, c: Codec<C>, d: Codec<D>)
    requires Exact(a) && Exact(b) && Exact(c) && Exact(d)
    ensures Exact(Pair(a, Pair(b, Pair(c, d))))
  {
    PairExact3(b, c, d);
    PairExact(a, Pair(b, Pair(c, d)));
  }

  lemma PairExact5<A(!new), B(!new), C(!new), D(!new), E(!new)>(
    a: Codec<A>, b: Codec<B>, c: Codec<C>, d: Codec<D>, e: Codec<E>)
    requires Exact(a) && Exact(b) && Exact(c) && Exact(d) && Exact(e)
    ensures Exact(Pair(a, Pair(b, Pair(c, Pair(d, e)))))
  {
    PairExact4(b, c, d, e);
    PairExact(a, Pair(b, Pair(c, Pair(d, e))));
  }

  // ---- a u32 type ID that selects one of two bodies ----

  function Tagged<A, B>(tagA: nat, a: Codec<A>, tagB: nat, b: Codec<B>): Codec<Either<A, B>> {
    Codec((e: Either<A, B>) => match e case Left(x) => a.ok(x) case Right(y) => b.ok(y),
          (e: Either<A, B>) =>
            match e
            case Left(x) => BigEndian(4, tagA) + a.enc(x)
            case Right(y) => BigEndian(4, tagB) + b.enc(y),
          (s: Bytes) =>
            match UInt(4).dec(s)
            case None => None
            case Some((tag, r)) =>
              if tag == tagA then
                match a.dec(r) case None => None case Some((x, q)) => Some((Left(x), q))
              else if tag == tagB then
                match b.dec(r) case None => None case Some((y, q)) => Some((Right(y), q))
              else
                None)
  }

  lemma TaggedAt<A, B>(tagA: nat, a: Codec<A>, tagB: nat, b: Codec<B>, e: Either<A, B>)
    ensures Tagged(tagA, a, tagB, b).enc(e)
         == match e case Left(x) => BigEndian(4, tagA) + a.enc(x) case Right(y) => BigEndian(4, tagB) + b.enc(y)
    ensures Tagged(tagA, a, tagB, b).ok(e) <==> match e case Left(x) => a.ok(x) case Right(y) => b.ok(y)
  {
  }

  lemma TaggedComplete<A(!new), B(!new)>(tagA: nat, a: Codec<A>, tagB: nat, b: Codec<B>)
    requires Complete(a) && Complete(b)
    requires tagA != tagB && tagA < Pow256(4) && tagB < Pow256(4)
    ensures Complete(Tagged(tagA, a, tagB, b))
  {
    var c := Tagged(tagA, a, tagB, b);
    forall e: Either<A, B>, rest: Bytes | c.ok(e)
      ensures c.dec(c.enc(e) + rest) == Some((e, rest))
    {
      var tag, body := if e.Left? then tagA else tagB, if e.Left? then a.enc(e.left) else b.enc(e.right);
      Associative(BigEndian(4, tag), body, rest);
      UIntComplete(4, tag, body + rest);
    }
  }

  lemma TaggedSound<A(!new), B(!new)>(tagA: nat, a: Codec<A>, tagB: nat, b: Codec<B>)
    requires Sound(a) && Sound(b)
    ensures Sound(Tagged(tagA, a, tagB, b))
  {
    var c := Tagged(tagA, a, tagB, b);
    forall s | c.dec(s).Some?
      ensures c.ok(c.dec(s).value.0) && s == c.enc(c.dec(s).value.0) + c.dec(s).value.1
    {
      UIntSound(4, s);
      var (tag, r) := UInt(4).dec(s).value;
      var (e, q) := c.dec(s).value;
      var body := if e.Left? then a.enc(e.left) else b.enc(e.right);
      Associative(BigEndian(4, tag), body, q);
    }
  }

  lemma TaggedExact<A(!new), B(!new)>(tagA: nat, a: Codec<A>, tagB: nat, b: Codec<B>)
    requires Exact(a) && Exact(b)
    requires tagA != tagB && tagA < Pow256(4) && tagB < Pow256(4)
    ensures Exact(Tagged(tagA, a, tagB, b))
  {
    TaggedComplete(tagA, a, tagB, b);
    TaggedSound(tagA, a, tagB, b);
  }

  // ---- lists: an element count of `width` bytes, then the elements ----

  function EncAll<T>(enc: T -> Bytes, xs: seq<T>): Bytes {
    if xs == [] then [] else enc(xs[0]) + EncAll(enc, xs[1..])
  }

  function DecN<T>(dec: Bytes -> Option<(T, Bytes)>, n: nat, b: Bytes, acc: seq<T>): Option<(seq<T>, Bytes)> {
    if n == 0 then Some((acc, b)) else
    match dec(b)
    case None => None
    case Some((x, r)) => DecN(dec, n - 1, r, acc + [x])
  }

  /** The count is written with `len() as uN`, a cast that keeps the low bits only. */
  function ListOf<T>(width: nat, c: Codec<T>): Codec<seq<T>> {
    Codec((xs: seq<T>) => |xs| < Pow256(width) && forall i :: 0 <= i < |xs| ==> c.ok(xs[i]),
          (xs: seq<T>) => BigEndian(width, Cast(width, |xs|)) + EncAll(c.enc, xs),
          (b: Bytes) =>
            match UInt(width).dec(b)
            case None => None
            case Some((n, r)) => DecN(c.dec, n, r, []))
  }

  lemma {:induction false} DecNComplete<T(!new)>(c: Codec<T>, xs: seq<T>, rest: Bytes, acc: seq<T>)
    requires Complete(c)
    requires forall i :: 0 <= i < |xs| ==> c.ok(xs[i])
    ensures DecN(c.dec, |xs|, EncAll(c.enc, xs) + rest, acc) == Some((acc + xs, rest))
  {
    if xs == [] {
      assert EncAll(c.enc, xs) + rest == rest;
      assert acc + xs == acc;
    } else {
      Associative(c.enc(xs[0]), EncAll(c.enc, xs[1..]), rest);
      DecNComplete(c, xs[1..], rest, acc + [xs[0]]);
      assert acc + [xs[0]] + xs[1..] == acc + xs;
    }
  }

  lemma {:induction false} DecNSound<T(!new)>(c: Codec<T>, n: nat, b: Bytes, acc: seq<T>)
    requires Sound(c)
    ensures DecN(c.dec, n, b, acc).Some? ==>
              var (ys, rest) := DecN(c.dec, n, b, acc).value;
              && |ys| == |acc| + n && acc == ys[..|acc|]
              && (forall i :: |acc| <= i < |ys| ==> c.ok(ys[i]))
              && b == EncAll(c.enc, ys[|acc|..]) + rest
  {
    if n > 0 && c.dec(b).Some? {
      var (x, r) := c.dec(b).value;
      DecNSound(c, n - 1, r, acc + [x]);
      if DecN(c.dec, n, b, acc).Some? {
        var (ys, rest) := DecN(c.dec, n, b, acc).value;
        assert ys[|acc|..] == [x] + ys[|acc| + 1..];
        assert acc == (acc + [x])[..|acc|] == ys[..|acc| + 1][..|acc|];
      }
    }
  }

  lemma ListOfDecodes<T>(width: nat, c: Codec<T>, xs: seq<T>, rest: Bytes)
    requires |xs| < Pow256(width)
    requires DecN(c.dec, |xs|, EncAll(c.enc, xs) + rest, []) == Some((xs, rest))
    ensures ListOf(width, c).dec(ListOf(width, c).enc(xs) + rest) == Some((xs, rest))
  {
    var head, body := BigEndian(width, |xs|), EncAll(c.enc, xs);
    Associative(head, body, rest);
    UIntComplete(width, |xs|, body + rest);
  }

  lemma ListOfComplete<T(!new)>(width: nat, c: Codec<T>)
    requires Complete(c)
    ensures Complete(ListOf(width, c))
  {
    forall xs: seq<T>, rest: Bytes | ListOf(width, c).ok(xs)
      ensures ListOf(width, c).dec(ListOf(width, c).enc(xs) + rest) == Some((xs, rest))
    {
      DecNComplete(c, xs, rest, []);
      assert [] + xs == xs;
      ListOfDecodes(width, c, xs, rest);
    }
  }

  lemma ListOfEncodes<T>(width: nat, c: Codec<T>, b: Bytes, r: Bytes, xs: seq<T>, rest: Bytes)
    requires UInt(width).dec(b) == Some((|xs|, r))
    requires r == EncAll(c.enc, xs) + rest
    ensures |xs| < Pow256(width) && b == ListOf(width, c).enc(xs) + rest
  {
    UIntSound(width, b);
    Associative(BigEndian(width, |xs|), EncAll(c.enc, xs), rest);
  }

  lemma ListOfSound<T(!new)>(width: nat, c: Codec<T>)
    requires Sound(c)
    ensures Sound(ListOf(width, c))
  {
    var l := ListOf(width, c);
    forall b | l.dec(b).Some?
      ensures l.ok(l.dec(b).value.0) && b == l.enc(l.dec(b).value.0) + l.dec(b).value.1
    {
      var (n, r) := UInt(width).dec(b).value;
      var (xs, rest) := l.dec(b).value;
      DecNSound(c, n, r, []);
      assert xs[0..] == xs;
      ListOfEncodes(width, c, b, r, xs, rest);
    }
  }

  lemma ListOfExact<T(!new)>(width: nat, c: Codec<T>)
    requires Exact(c)
    ensures Exact(ListOf(width, c))
  {
    ListOfComplete(width, c);
    ListOfSound(width, c);
  }

  // ---- facts about EncAll that packing loops need ----

  /** One round of a packing loop: done bytes plus the encodings still to come stay the target. */
  lemma PackStep<T>(done: Bytes, enc: T -> Bytes, xs: seq<T>, i: nat, target: Bytes)
    requires i < |xs|
    requires done + EncAll(enc, xs[i..]) == target
    ensures (done + enc(xs[i])) + EncAll(enc, xs[i + 1..]) == target
    ensures done + enc(xs[i]) <= target
  {
    assert xs[i..][1..] == xs[i + 1..];
    Associative(done, enc(xs[i]), EncAll(enc, xs[i + 1..]));
  }

  /** One round of an unpacking loop. */
  lemma UnpackStep<T>(dec: Bytes -> Option<(T, Bytes)>, n: nat, b: Bytes, acc: seq<T>)
    requires n > 0
    ensures match dec(b)
            case None => DecN(dec, n, b, acc) == None
            case Some((x, r)) => DecN(dec, n, b, acc) == DecN(dec, n - 1, r, acc + [x])
  {
  }

  lemma {:induction false} EncAllSame<T>(enc: T -> Bytes, xs: seq<T>, ys: seq<T>)
    requires |xs| == |ys| && forall i :: 0 <= i < |xs| ==> enc(xs[i]) == enc(ys[i])
    ensures EncAll(enc, xs) == EncAll(enc, ys)
  {
    if xs != [] {
      EncAllSame(enc, xs[1..], ys[1..]);
    }
  }

  /** Encoders that agree on the elements agree on the list. */
  lemma {:induction false} EncAllAgree<T>(f: T -> Bytes, g: T -> Bytes, xs: seq<T>)
    requires forall i :: 0 <= i < |xs| ==> f(xs[i]) == g(xs[i])
    ensures EncAll(f, xs) == EncAll(g, xs)
  {
    if xs != [] {
      EncAllAgree(f, g, xs[1..]);
    }
  }

  /** A list codec in terms of an encoder and a predicate that agree with the element codec. */
  lemma ListAt<T>(width: nat, c: Codec<T>, enc: T -> Bytes, legal: T -> bool, xs: seq<T>)
    requires forall i :: 0 <= i < |xs| ==> c.enc(xs[i]) == enc(xs[i]) && (c.ok(xs[i]) <==> legal(xs[i]))
    ensures ListOf(width, c).enc(xs) == BigEndian(width, Cast(width, |xs|)) + EncAll(enc, xs)
    ensures ListOf(width, c).ok(xs) <==> |xs| < Pow256(width) && forall i :: 0 <= i < |xs| ==> legal(xs[i])
  {
    EncAllAgree(c.enc, enc, xs);
  }

  lemma CompleteAt<T(!new)>(c: Codec<T>, t: T, rest: Bytes)
    requires Exact(c) && c.ok(t)
    ensures c.dec(c.enc(t) + rest) == Some((t, rest))
  {
  }

  lemma DecodesIff<T(!new)>(c: Codec<T>, t: T, rest: Bytes)
    requires Exact(c)
    ensures c.dec(c.enc(t) + rest) == Some((t, rest)) <==> c.ok(t)
  {
  }

  /** No element's encoding is longer than the whole. */
  lemma {:induction false} EncAllContains<T>(enc: T -> Bytes, xs: seq<T>, i: nat)
    requires i < |xs|
    ensures |enc(xs[i])| <= |EncAll(enc, xs)|
  {
    if i > 0 {
      EncAllContains(enc, xs[1..], i - 1);
    }
  }

  /** Encodings of at least m bytes each bound the number of elements. */
  lemma {:induction false} EncAllSize<T>(enc: T -> Bytes, xs: seq<T>, m: nat)
    requires forall i :: 0 <= i < |xs| ==> |enc(xs[i])| >= m
    ensures |EncAll(enc, xs)| >= m * |xs|
  {
    if xs != [] {
      EncAllSize(enc, xs[1..], m);
      assert m * |xs| == m + m * (|xs| - 1);
    }
  }
}
