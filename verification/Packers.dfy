// src/packer/mod.rs: the byte packer.
module Packers {
  import opened Bytes
  import opened Codecs
  import opened Texts

  const MAX_STR_LEN: nat := 0xFFFE

  /** A string on the wire: a u16 length and UTF-8 bytes. */
  function Str(): Codec<Bytes> {
    Filtered(Headed(2), Utf8)
  }

  lemma StrExact()
    ensures Exact(Str())
  {
    HeadedExact(2);
    FilteredExact(Headed(2), Utf8);
  }

  /** The length is written modulo 65536, so only what is shorter can be read back. */
  lemma StrEnc(v: Bytes)
    ensures Str().enc(v) == BigEndian(2, |v| % 0x1_0000) + v
    ensures Str().ok(v) <==> Utf8(v) && |v| <= 65535
  {
    CastIs(2, |v|);
  }

  class Packer {
    const maxSize: nat
    const header: bool
    var bytes: Bytes
    var offset: nat

    constructor New(maxSize: nat)
      ensures this.maxSize == maxSize && !header && bytes == [] && offset == 0
    {
      this.maxSize, header, bytes, offset := maxSize, false, [], 0;
    }

    /** Leaves four bytes free for the message length that TakeBytes fills in. */
    constructor NewWithHeader(maxSize: nat)
      ensures this.maxSize == maxSize && header && bytes == [0, 0, 0, 0] && offset == 4
    {
      this.maxSize, header, bytes, offset := maxSize, true, [0, 0, 0, 0], 4;
    }

    constructor LoadBytesForPack(maxSize: nat, b: Bytes)
      ensures this.maxSize == maxSize && !header && bytes == b && offset == |b|
    {
      this.maxSize, header, bytes, offset := maxSize, false, b, |b|;
    }

    constructor LoadBytesForUnpack(maxSize: nat, b: Bytes)
      ensures this.maxSize == maxSize && !header && bytes == b && offset == 0
    {
      this.maxSize, header, bytes, offset := maxSize, false, b, 0;
    }

    /** The state every run of pack calls keeps: the offset is at the end of the bytes. */
    ghost predicate Packing()
      reads this
    {
      offset == |bytes| <= maxSize
    }

    /**
     What a pack call that emits enc does, from any state. A call that does not fit changes
     nothing. The bytes go to the end of the buffer whatever the offset is.
     */
    twostate predicate Appended(r: Outcome, enc: Bytes)
      reads this
    {
      if old(offset) + |enc| <= |old(bytes)| || old(offset) + |enc| <= maxSize then
        r == Pass && bytes == old(bytes) + enc && offset == old(offset) + |enc|
      else
        r == Fail(TooLarge) && bytes == old(bytes) && offset == old(offset)
    }

    /**
     What a run of pack calls that emits enc does from a Packing state: it succeeds exactly when
     everything fits, and a failed run leaves a prefix of what was to be written.
     */
    ghost predicate Wrote(before: Bytes, r: Outcome, enc: Bytes)
      reads this
    {
      && Packing()
      && r == (if |before| + |enc| <= maxSize then Pass else Fail(TooLarge))
      && (r.Pass? ==> bytes == before + enc)
      && before <= bytes <= before + enc
    }

    /**
     What an unpack call does: it never moves the offset back or past the end, it succeeds exactly
     when the reference decoder does on the unread bytes, with the same value, and it has then
     consumed exactly what the decoder consumed.
     */
    ghost predicate Read<T>(from: nat, r: Result<T>, d: Option<(T, Bytes)>)
      reads this
    {
      && from <= offset <= |bytes|
      && (r.Ok? <==> d.Some?)
      && (r.Ok? ==> d == Some((r.value, bytes[offset..])))
    }

    method TakeBytes() returns (b: Bytes)
      requires header ==> |bytes| >= 4
      modifies this`bytes
      ensures bytes == []
      ensures b == if header then BigEndian(4, Cast(4, |old(bytes)| - 4)) + old(bytes)[4..] else old(bytes)
    {
      b := bytes;
      bytes := [];
      if header {
        b := BigEndian(4, Cast(4, |b| - 4)) + b[4..];
      }
    }

    method SetBytes(b: Bytes)
      modifies this`bytes
      ensures bytes == b
    {
      bytes := b;
    }

    method TruncateBytes(len: nat)
      modifies this`bytes
      ensures bytes == if len < |old(bytes)| then old(bytes)[..len] else old(bytes)
    {
      if len < |bytes| {
        bytes := bytes[..len];
      }
    }

    /** Makes room for n more bytes. Whatever capacity the allocator left, no byte is dropped. */
    method Expand(n: nat) returns (r: Outcome)
      modifies this`bytes
      ensures bytes == old(bytes)
      ensures r == if offset + n <= |bytes| || offset + n <= maxSize then Pass else Fail(TooLarge)
    {
      var neededSize := offset + n;
      if neededSize <= |bytes| {
        return Pass;
      }
      if neededSize > maxSize {
        return Fail(TooLarge);
      }
      var bytesCap: nat :| bytesCap >= |bytes|;
      if neededSize <= bytesCap {
        TruncateBytes(neededSize);
      }
      return Pass;
    }

    method PackBytes(v: Bytes) returns (r: Outcome)
      modifies this`bytes, this`offset
      ensures Appended(r, v)
    {
      var n := |v|;
      :- Expand(n);
      bytes := bytes + v;
      offset := offset + n;
      return Pass;
    }

    method PackByte(v: byte) returns (r: Outcome)
      modifies this`bytes, this`offset
      ensures Appended(r, UInt(1).enc(v))
    {
      assert BigEndian(1, v) == [v];
      r := PackBytes([v]);
    }

    method PackU16(v: u16) returns (r: Outcome)
      modifies this`bytes, this`offset
      ensures Appended(r, UInt(2).enc(v))
    {
      r := PackBytes(BigEndian(2, v));
    }

    method PackU32(v: u32) returns (r: Outcome)
      modifies this`bytes, this`offset
      ensures Appended(r, UInt(4).enc(v))
    {
      r := PackBytes(BigEndian(4, v));
    }

    method PackU64(v: u64) returns (r: Outcome)
      modifies this`bytes, this`offset
      ensures Appended(r, UInt(8).enc(v))
    {
      r := PackBytes(BigEndian(8, v));
    }

    method PackBool(v: bool) returns (r: Outcome)
      modifies this`bytes, this`offset
      ensures Appended(r, if v then [1] else [0])
    {
      assert BigEndian(1, 1) == [1] && BigEndian(1, 0) == [0];
      if v {
        r := PackByte(1);
      } else {
        r := PackByte(0);
      }
    }

    method PackBytesWithHeader(v: Bytes) returns (r: Outcome)
      requires Packing()
      modifies this`bytes, this`offset
      ensures Wrote(old(bytes), r, Headed(4).enc(v))
    {
      Associative(bytes, BigEndian(4, Cast(4, |v|)), v);
      :- PackU32(Cast(4, |v|));
      r := PackBytes(v);
    }

    method Pack2DBytes(v: seq<Bytes>, ghost n: nat) returns (r: Outcome)
      requires Packing()
      modifies this`bytes, this`offset
      ensures Wrote(old(bytes), r, ListOf(4, Fixed(n)).enc(v))
    {
      Associative(bytes, BigEndian(4, Cast(4, |v|)), EncAll(Fixed(n).enc, v));
      :- PackU32(Cast(4, |v|));
      r := PackEachBytes(v, n);
    }

    /** The element loop of Pack2DBytes. */
    method PackEachBytes(v: seq<Bytes>, ghost n: nat) returns (r: Outcome)
      requires Packing()
      modifies this`bytes, this`offset
      ensures Wrote(old(bytes), r, EncAll(Fixed(n).enc, v))
    {
      ghost var before, enc := bytes, Fixed(n).enc;
      assert v[0..] == v;
      for i := 0 to |v|
        invariant Packing() && before <= bytes
        invariant bytes + EncAll(enc, v[i..]) == before + EncAll(enc, v)
      {
        PackStep(bytes, enc, v, i, before + EncAll(enc, v));
        :- PackBytes(v[i]);
      }
      return Pass;
    }

    method Pack2DBytesWithHeader(v: seq<Bytes>) returns (r: Outcome)
      requires Packing()
      modifies this`bytes, this`offset
      ensures Wrote(old(bytes), r, ListOf(4, Headed(4)).enc(v))
    {
      Associative(bytes, BigEndian(4, Cast(4, |v|)), EncAll(Headed(4).enc, v));
      :- PackU32(Cast(4, |v|));
      r := PackEachBytesWithHeader(v);
    }

    /** The element loop of Pack2DBytesWithHeader. */
    method PackEachBytesWithHeader(v: seq<Bytes>) returns (r: Outcome)
      requires Packing()
      modifies this`bytes, this`offset
      ensures Wrote(old(bytes), r, EncAll(Headed(4).enc, v))
    {
      ghost var before, enc := bytes, Headed(4).enc;
      assert v[0..] == v;
      for i := 0 to |v|
        invariant Packing() && before <= bytes
        invariant bytes + EncAll(enc, v[i..]) == before + EncAll(enc, v)
      {
        PackStep(bytes, enc, v, i, before + EncAll(enc, v));
        :- PackBytesWithHeader(v[i]);
      }
      return Pass;
    }

    /** The length is cast to u16 before it is checked, so only lengths 65535 modulo 65536 are refused. */
    method PackStr(v: Bytes) returns (r: Outcome)
      requires Packing()
      modifies this`bytes, this`offset
      ensures if |v| % 0x1_0000 == 0xFFFF then r == Fail(BadString) && bytes == old(bytes) && offset == old(offset)
              else Wrote(old(bytes), r, BigEndian(2, |v| % 0x1_0000) + v)
    {
      CastIs(2, |v|);
      var n := Cast(2, |v|);
      if n > MAX_STR_LEN {
        return Fail(BadString);
      }
      Associative(bytes, BigEndian(2, n), v);
      :- PackU16(n);
      r := PackBytes(v);
    }

    method CheckRemainingUnpack(n: nat) returns (r: Outcome)
      ensures r == if offset + n > |bytes| then Fail(BadLength) else Pass
    {
      if offset + n > |bytes| {
        return Fail(BadLength);
      }
      return Pass;
    }

    method UnpackBytes(n: nat) returns (r: Result<Bytes>)
      requires offset <= |bytes|
      modifies this`offset
      ensures Read(old(offset), r, Fixed(n).dec(bytes[old(offset)..]))
      ensures r.Err? ==> r == Err(BadLength) && offset == old(offset)
    {
      var space := CheckRemainingUnpack(n);
      if space.Fail? {
        return Err(space.error);
      }
      var v := bytes[offset..offset + n];
      assert v == bytes[offset..][..n] && bytes[offset..][n..] == bytes[offset + n..];
      offset := offset + n;
      return Ok(v);
    }

    method UnpackUInt(n: nat) returns (r: Result<nat>)
      requires offset <= |bytes|
      modifies this`offset
      ensures Read(old(offset), r, UInt(n).dec(bytes[old(offset)..]))
      ensures r.Ok? ==> r.value < Pow256(n)
      ensures r.Err? ==> r == Err(BadLength) && offset == old(offset)
    {
      var b :- UnpackBytes(n);
      FromBigEndianBound(b);
      return Ok(FromBigEndian(b));
    }

    method UnpackByte() returns (r: Result<nat>)
      requires offset <= |bytes|
      modifies this`offset
      ensures Read(old(offset), r, UInt(1).dec(bytes[old(offset)..]))
      ensures r.Err? ==> r == Err(BadLength) && offset == old(offset)
    {
      r := UnpackUInt(1);
    }

    method UnpackU16() returns (r: Result<nat>)
      requires offset <= |bytes|
      modifies this`offset
      ensures Read(old(offset), r, UInt(2).dec(bytes[old(offset)..]))
      ensures Read(old(offset), r, U16().dec(bytes[old(offset)..]))
      ensures r.Ok? ==> r.value < 0x1_0000
      ensures r.Err? ==> r == Err(BadLength) && offset == old(offset)
    {
      r := UnpackUInt(2);
    }

    method UnpackU32() returns (r: Result<nat>)
      requires offset <= |bytes|
      modifies this`offset
      ensures Read(old(offset), r, UInt(4).dec(bytes[old(offset)..]))
      ensures Read(old(offset), r, U32().dec(bytes[old(offset)..]))
      ensures r.Ok? ==> r.value < 0x1_0000_0000
      ensures r.Err? ==> r == Err(BadLength) && offset == old(offset)
    {
      r := UnpackUInt(4);
    }

    method UnpackU64() returns (r: Result<nat>)
      requires offset <= |bytes|
      modifies this`offset
      ensures Read(old(offset), r, UInt(8).dec(bytes[old(offset)..]))
      ensures Read(old(offset), r, U64().dec(bytes[old(offset)..]))
      ensures r.Ok? ==> r.value < 0x1_0000_0000_0000_0000
      ensures r.Err? ==> r == Err(BadLength) && offset == old(offset)
    {
      r := UnpackUInt(8);
    }

    method UnpackBool() returns (r: Result<bool>)
      requires offset <= |bytes|
      modifies this`offset
      ensures Read(old(offset), r, Bool().dec(bytes[old(offset)..]))
    {
      var b :- UnpackBytes(1);
      if b[0] > 1 {
        return Err(BadBool);
      }
      return Ok(b[0] == 1);
    }

    method UnpackBytesWithHeader() returns (r: Result<Bytes>)
      requires offset <= |bytes|
      modifies this`offset
      ensures Read(old(offset), r, Headed(4).dec(bytes[old(offset)..]))
    {
      var n :- UnpackU32();
      r := UnpackBytes(n);
    }

    method Unpack2DBytes(n: nat) returns (r: Result<seq<Bytes>>)
      requires offset <= |bytes|
      modifies this`offset
      ensures Read(old(offset), r, ListOf(4, Fixed(n)).dec(bytes[old(offset)..]))
    {
      var total :- UnpackU32();
      r := UnpackEachBytes(total, n);
    }

    /** The element loop of Unpack2DBytes. */
    method UnpackEachBytes(total: nat, n: nat) returns (r: Result<seq<Bytes>>)
      requires offset <= |bytes|
      modifies this`offset
      ensures Read(old(offset), r, DecN(Fixed(n).dec, total, bytes[old(offset)..], []))
    {
      r := Ok([]);
      ghost var from, dec := offset, Fixed(n).dec;
      for i := 0 to total
        invariant from <= offset <= |bytes| && r.Ok?
        invariant DecN(dec, total, bytes[from..], []) == DecN(dec, total - i, bytes[offset..], r.value)
      {
        UnpackStep(dec, total - i, bytes[offset..], r.value);
        var b :- UnpackBytes(n);
        r := Ok(r.value + [b]);
      }
    }

    method Unpack2DBytesWithHeader() returns (r: Result<seq<Bytes>>)
      requires offset <= |bytes|
      modifies this`offset
      ensures Read(old(offset), r, ListOf(4, Headed(4)).dec(bytes[old(offset)..]))
    {
      var total :- UnpackU32();
      r := UnpackEachBytesWithHeader(total);
    }

    /** The element loop of Unpack2DBytesWithHeader. */
    method UnpackEachBytesWithHeader(total: nat) returns (r: Result<seq<Bytes>>)
      requires offset <= |bytes|
      modifies this`offset
      ensures Read(old(offset), r, DecN(Headed(4).dec, total, bytes[old(offset)..], []))
    {
      r := Ok([]);
      ghost var from, dec := offset, Headed(4).dec;
      for i := 0 to total
        invariant from <= offset <= |bytes| && r.Ok?
        invariant DecN(dec, total, bytes[from..], []) == DecN(dec, total - i, bytes[offset..], r.value)
      {
        UnpackStep(dec, total - i, bytes[offset..], r.value);
        var b :- UnpackBytesWithHeader();
        r := Ok(r.value + [b]);
      }
    }

    method UnpackStr() returns (r: Result<Bytes>)
      requires offset <= |bytes|
      modifies this`offset
      ensures Read(old(offset), r, Str().dec(bytes[old(offset)..]))
    {
      var n :- UnpackU16();
      var d :- UnpackBytes(n);
      if !Utf8(d) {
        return Err(BadString);
      }
      return Ok(d);
    }
  }
}
