// Well-formed UTF-8, which String::from_utf8 accepts in src/packer/mod.rs (RFC 3629).
module Texts {
  import opened Bytes

  /** The length of the well-formed UTF-8 scalar at the head of b, or 0 (section 4 of RFC 3629). */
  function ScalarLen(b: Bytes): (n: nat)
    ensures n <= |b|
  {
    if b == [] then 0
    else if b[0] < 0x80 then 1
    else if 0xC2 <= b[0] <= 0xDF then if Tail(b, 1) then 2 else 0
    else if 0xE0 <= b[0] <= 0xEF then
      if Tail(b, 1) && Tail(b, 2) && (b[0] == 0xE0 ==> b[1] >= 0xA0) && (b[0] == 0xED ==> b[1] < 0xA0) then 3 else 0
    else if 0xF0 <= b[0] <= 0xF4 then
      if Tail(b, 1) && Tail(b, 2) && Tail(b, 3) && (b[0] == 0xF0 ==> b[1] >= 0x90) && (b[0] == 0xF4 ==> b[1] < 0x90)
      then 4 else 0
    else 0
  }

  predicate Tail(b: Bytes, i: nat)
  {
    i < |b| && 0x80 <= b[i] < 0xC0
  }

  predicate Utf8(b: Bytes)
  {
    b == [] || (ScalarLen(b) > 0 && Utf8(b[ScalarLen(b)..]))
  }

  // ---- the reference: Unicode scalar values and their encodings ----

  /** A Unicode scalar value: any code point that is not a surrogate. */
  type Scalar = c: int | 0 <= c < 0xD800 || 0xE000 <= c <= 0x10FFFF

  /** The encoding of one scalar value, six bits to a byte after the first (section 3 of RFC 3629). */
  function EncodeScalar(c: Scalar): Bytes {
    if c < 0x80 then [c]
    else if c < 0x800 then [0xC0 + c / 64, 0x80 + c % 64]
    else if c < 0x1_0000 then [0xE0 + c / 64 / 64, 0x80 + c / 64 % 64, 0x80 + c % 64]
    else [0xF0 + c / 64 / 64 / 64, 0x80 + c / 64 / 64 % 64, 0x80 + c / 64 % 64, 0x80 + c % 64]
  }

  function EncodeText(cs: seq<Scalar>): Bytes {
    if cs == [] then [] else EncodeScalar(cs[0]) + EncodeText(cs[1..])
  }

  /** Six more bits. */
  function Join(high: int, b: byte): int {
    64 * high + (b as int - 0x80)
  }

  lemma JoinSplits(high: int, b: byte)
    requires 0x80 <= b < 0xC0
    ensures Join(high, b) / 64 == high && Join(high, b) % 64 == b as int - 0x80
  {
  }

  /** The scalar value that the head of b encodes. */
  function DecodeScalar(b: Bytes): int
    requires ScalarLen(b) > 0
  {
    var first := b[0] as int;
    if ScalarLen(b) == 1 then first
    else if ScalarLen(b) == 2 then Join(first - 0xC0, b[1])
    else if ScalarLen(b) == 3 then Join(Join(first - 0xE0, b[1]), b[2])
    else Join(Join(Join(first - 0xF0, b[1]), b[2]), b[3])
  }

  lemma SplitJoins(c: nat)
    ensures 0x80 <= 0x80 + c % 64 < 0xC0 && Join(c / 64, 0x80 + c % 64) == c
  {
  }

  /** The head of an encoded text is its first scalar value. */
  lemma ScalarAhead(c: Scalar, rest: Bytes)
    ensures ScalarLen(EncodeScalar(c) + rest) == |EncodeScalar(c)|
    ensures DecodeScalar(EncodeScalar(c) + rest) == c
  {
    var b, e := EncodeScalar(c) + rest, EncodeScalar(c);
    assert b[0] == e[0] && (|e| > 1 ==> b[1] == e[1]) && (|e| > 2 ==> b[2] == e[2]) && (|e| > 3 ==> b[3] == e[3]);
    SplitJoins(c);
    SplitJoins(c / 64);
    SplitJoins(c / 64 / 64);
  }

  /** Whatever ScalarLen accepts is the encoding of a scalar value. */
  lemma HeadIsScalar(b: Bytes)
    requires ScalarLen(b) > 0
    ensures var c := DecodeScalar(b);
            && (0 <= c < 0xD800 || 0xE000 <= c <= 0x10FFFF)
            && b[..ScalarLen(b)] == EncodeScalar(c)
  {
    if ScalarLen(b) == 1 {
      assert b[..1] == [b[0]];
    } else if ScalarLen(b) == 2 {
      assert b[..2] == [b[0], b[1]];
      TwoBytes(b[0], b[1]);
    } else if ScalarLen(b) == 3 {
      assert b[..3] == [b[0], b[1], b[2]];
      ThreeBytes(b[0], b[1], b[2]);
    } else {
      assert b[..4] == [b[0], b[1], b[2], b[3]];
      FourBytes(b[0], b[1], b[2], b[3]);
    }
  }

  lemma TwoBytes(b: int, x: byte)
    requires 0xC2 <= b <= 0xDF && 0x80 <= x < 0xC0
    ensures var c := Join(b - 0xC0, x);
            0x80 <= c < 0x800 && EncodeScalar(c) == [b, x]
  {
    JoinSplits(b - 0xC0, x);
  }

  lemma ThreeBytes(b: int, x: byte, y: byte)
    requires 0xE0 <= b <= 0xEF && 0x80 <= x < 0xC0 && 0x80 <= y < 0xC0
    requires (b == 0xE0 ==> x >= 0xA0) && (b == 0xED ==> x < 0xA0)
    ensures var c := Join(Join(b - 0xE0, x), y);
            && 0x800 <= c < 0x1_0000 && !(0xD800 <= c < 0xE000)
            && EncodeScalar(c) == [b, x, y]
  {
    JoinSplits(b - 0xE0, x);
    JoinSplits(Join(b - 0xE0, x), y);
  }

  lemma FourBytes(b: int, x: byte, y: byte, z: byte)
    requires 0xF0 <= b <= 0xF4 && 0x80 <= x < 0xC0 && 0x80 <= y < 0xC0 && 0x80 <= z < 0xC0
    requires (b == 0xF0 ==> x >= 0x90) && (b == 0xF4 ==> x < 0x90)
    ensures var c := Join(Join(Join(b - 0xF0, x), y), z);
            0x1_0000 <= c <= 0x10FFFF && EncodeScalar(c) == [b, x, y, z]
  {
    JoinSplits(b - 0xF0, x);
    JoinSplits(Join(b - 0xF0, x), y);
    JoinSplits(Join(Join(b - 0xF0, x), y), z);
  }

  /** Text is well-formed exactly if it is the encoding of some list of scalar values. */
  lemma Utf8Iff(b: Bytes)
    ensures Utf8(b) <==> exists cs :: EncodeText(cs) == b
  {
    if Utf8(b) {
      var cs := Scalars(b);
    }
    if cs :| EncodeText(cs) == b {
      EncodedIsUtf8(cs);
    }
  }

  lemma {:induction false} Scalars(b: Bytes) returns (cs: seq<Scalar>)
    requires Utf8(b)
    ensures EncodeText(cs) == b
  {
    if b == [] {
      cs := [];
    } else {
      HeadIsScalar(b);
      var c: Scalar := DecodeScalar(b);
      var rest := Scalars(b[ScalarLen(b)..]);
      cs := [c] + rest;
      assert cs[1..] == rest;
    }
  }

  lemma {:induction false} EncodedIsUtf8(cs: seq<Scalar>)
    ensures Utf8(EncodeText(cs))
  {
    if cs != [] {
      var rest := EncodeText(cs[1..]);
      ScalarAhead(cs[0], rest);
      EncodedIsUtf8(cs[1..]);
      assert EncodeText(cs)[|EncodeScalar(cs[0])|..] == rest;
    }
  }

  /** Different lists of scalar values have different encodings. */
  lemma {:induction false} TextInjective(cs: seq<Scalar>, ds: seq<Scalar>)
    ensures EncodeText(cs) == EncodeText(ds) <==> cs == ds
  {
    if EncodeText(cs) == EncodeText(ds) {
      if cs != [] {
        ScalarAhead(cs[0], EncodeText(cs[1..]));
      }
      if ds != [] {
        ScalarAhead(ds[0], EncodeText(ds[1..]));
      }
      if cs != [] && ds != [] {
        assert EncodeText(cs)[|EncodeScalar(cs[0])|..] == EncodeText(cs[1..]);
        assert EncodeText(ds)[|EncodeScalar(ds[0])|..] == EncodeText(ds[1..]);
        TextInjective(cs[1..], ds[1..]);
        assert cs == [cs[0]] + cs[1..] && ds == [ds[0]] + ds[1..];
      }
    }
  }

  lemma {:induction false} AsciiIsUtf8(v: Bytes)
    requires forall i :: 0 <= i < |v| ==> v[i] < 0x80
    ensures Utf8(v)
  {
    if v != [] {
      AsciiIsUtf8(v[1..]);
    }
  }
}
