// src/ids/bits.rs and ids::Id::bit: ranges of bits compared with byte masks.
module Bits {
  import opened Bytes
  import opened Ids

  const NUM_BITS: nat := 256

  /** An id as the machine bytes that the masks are applied to. */
  type RawId = w: seq<bv8> | |w| == 32 witness [0, 0, 0, 0, 0, 0, 0, 0, 0, 0, 0, 0, 0, 0, 0, 0,
                                               0, 0, 0, 0, 0, 0, 0, 0, 0, 0, 0, 0, 0, 0, 0, 0]

  function RawBytes(b: Bytes): (r: seq<bv8>)
    ensures |r| == |b|
    ensures forall i :: 0 <= i < |b| ==> r[i] == b[i] as bv8
  {
    if b == [] then [] else RawBytes(b[..|b| - 1]) + [b[|b| - 1] as bv8]
  }

  function Raw(id: Id): RawId {
    RawBytes(id)
  }

  /** A byte widened to the 32-bit word that the masks are applied to. */
  function Word(b: bv8): bv32 {
    b as bv32
  }

  /** Bit k of the low byte of a word. */
  predicate At(w: bv32, k: nat)
    requires k < 8
  {
    if k == 0 then w & 0x01 != 0
    else if k == 1 then w & 0x02 != 0
    else if k == 2 then w & 0x04 != 0
    else if k == 3 then w & 0x08 != 0
    else if k == 4 then w & 0x10 != 0
    else if k == 5 then w & 0x20 != 0
    else if k == 6 then w & 0x40 != 0
    else w & 0x80 != 0
  }

  /** Bit k of a byte, counted from the least significant. */
  predicate ByteBit(b: bv8, k: nat) {
    if k == 0 then b & 1 == 1 else ByteBit(b >> 1, k - 1)
  }

  /** Bit i of an id: bytes in order, each from its least significant bit. */
  predicate RawBit(id: RawId, i: nat)
    requires i < NUM_BITS
  {
    ByteBit(id[i / 8], i % 8)
  }

  /** 111...0: the number of 0s is startBit. */
  function StartMask(startBit: nat): bv32
    requires startBit < 8
  {
    0xFFFF_FFFF << startBit
  }

  /** 000...1: the number of 1s is stopBit + 1. */
  function StopMask(stopBit: nat): bv32
    requires stopBit < 8
  {
    ((1 as bv32) << (stopBit + 1)) - 1
  }

  /** Two bytes are the same under a mask. */
  predicate MaskedSame(m: bv32, a: bv8, b: bv8) {
    m & Word(a) == m & Word(b)
  }

  /** The lowest bit where two bytes differ under a mask. */
  function MaskedLowest(m: bv32, a: bv8, b: bv8): nat {
    TrailingZeros((m & Word(a)) ^ (m & Word(b)))
  }

  /** The number of 0s below the lowest 1. */
  function TrailingZeros(w: bv32): nat
    decreases w
  {
    if w == 0 then 32
    else if w & 1 == 1 then 0
    else 1 + TrailingZeros(w >> 1)
  }

  // ---- words, bit by bit ----

  lemma ShiftedBit(b: bv8, k: nat)
    requires k < 8
    ensures (b >> k) & 1 == 1 <==> At(Word(b), k)
  {
    if k == 0 {} else if k == 1 {} else if k == 2 {} else if k == 3 {}
    else if k == 4 {} else if k == 5 {} else if k == 6 {} else {}
  }

  lemma ByteBitAt(b: bv8, k: nat)
    requires k < 8
    ensures ByteBit(b, k) <==> At(Word(b), k)
  {
    match k {
      case 0 => assert ByteBit(b, 0) <==> At(Word(b), 0);
      case 1 => assert ByteBit(b, 1) <==> At(Word(b), 1);
      case 2 => assert ByteBit(b, 2) <==> At(Word(b), 2);
      case 3 => assert ByteBit(b, 3) <==> At(Word(b), 3);
      case 4 => assert ByteBit(b, 4) <==> At(Word(b), 4);
      case 5 => assert ByteBit(b, 5) <==> At(Word(b), 5);
      case 6 => assert ByteBit(b, 6) <==> At(Word(b), 6);
      case _ => assert ByteBit(b, 7) <==> At(Word(b), 7);
    }
  }

  lemma ByteHalf(b: bv8)
    ensures (b >> 1) as int == b as int / 2
    ensures b & 1 == 1 <==> b as int % 2 == 1
  {
  }

  /** The binary digit of x worth 2^k. */
  predicate Digit(x: nat, k: nat)
    requires k < 8
  {
    x / [1, 2, 4, 8, 16, 32, 64, 128][k] % 2 == 1
  }

  lemma DigitHalf(x: nat, k: nat)
    requires 0 < k < 8
    ensures Digit(x, k) <==> Digit(x / 2, k - 1)
  {
    match k
    case 1 => assert x / 2 / 1 == x / 2;
    case 2 => assert x / 2 / 2 == x / 4;
    case 3 => assert x / 2 / 4 == x / 8;
    case 4 => assert x / 2 / 8 == x / 16;
    case 5 => assert x / 2 / 16 == x / 32;
    case 6 => assert x / 2 / 32 == x / 64;
    case _ => assert x / 2 / 64 == x / 128;
  }

  lemma {:induction false} ByteBitIs(b: bv8, k: nat)
    requires k < 8
    ensures ByteBit(b, k) <==> Digit(b as int, k)
  {
    ByteHalf(b);
    if k > 0 {
      DigitHalf(b as int, k);
      ByteBitIs(b >> 1, k - 1);
    }
  }

  /** Bit i of an id in numbers: the binary digit of byte i / 8 worth 2^(i % 8). */
  lemma BitMeans(id: RawId, i: nat)
    requires i < 256
    ensures RawBit(id, i) <==> Digit(id[i / 8] as int, i % 8)
  {
    ByteBitIs(id[i / 8], i % 8);
  }

  /** Id::bit: shifts byte i / 8 down by i % 8 and keeps the last bit. */
  method IdBit(id: RawId, i: nat) returns (r: bool)
    requires i < NUM_BITS
    ensures r <==> RawBit(id, i)
  {
    var b := id[i / 8];
    ShiftedBit(b, i % 8);
    ByteBitAt(b, i % 8);
    b := b >> (i % 8);
    b := b & 1;
    r := b == 1;
  }

  lemma StartMaskAt(s: nat, k: nat)
    requires s < 8 && k < 8
    ensures At(StartMask(s), k) <==> s <= k
  {
    if s == 0 {} else if s == 1 {} else if s == 2 {} else if s == 3 {}
    else if s == 4 {} else if s == 5 {} else if s == 6 {} else {}
  }

  lemma StopMaskAt(t: nat, k: nat)
    requires t < 8 && k < 8
    ensures At(StopMask(t), k) <==> k <= t
  {
    if t == 0 {} else if t == 1 {} else if t == 2 {} else if t == 3 {}
    else if t == 4 {} else if t == 5 {} else if t == 6 {} else {}
  }

  lemma AndAt(a: bv32, b: bv32, k: nat)
    requires k < 8
    ensures At(a & b, k) <==> At(a, k) && At(b, k)
  {
  }

  lemma XorAt(a: bv32, b: bv32, k: nat)
    requires k < 8
    ensures At(a ^ b, k) <==> At(a, k) != At(b, k)
  {
    match k {
      case 0 => assert At(a ^ b, 0) <==> At(a, 0) != At(b, 0);
      case 1 => assert At(a ^ b, 1) <==> At(a, 1) != At(b, 1);
      case 2 => assert At(a ^ b, 2) <==> At(a, 2) != At(b, 2);
      case 3 => assert At(a ^ b, 3) <==> At(a, 3) != At(b, 3);
      case 4 => assert At(a ^ b, 4) <==> At(a, 4) != At(b, 4);
      case 5 => assert At(a ^ b, 5) <==> At(a, 5) != At(b, 5);
      case 6 => assert At(a ^ b, 6) <==> At(a, 6) != At(b, 6);
      case _ => assert At(a ^ b, 7) <==> At(a, 7) != At(b, 7);
    }
  }

  /** Half a byte is decided by its four bits. */
  lemma LowHalfEqual(a: bv32, b: bv32)
    requires At(a, 0) == At(b, 0) && At(a, 1) == At(b, 1) && At(a, 2) == At(b, 2) && At(a, 3) == At(b, 3)
    ensures a & 0x0F == b & 0x0F
  {
  }

  lemma HighHalfEqual(a: bv32, b: bv32)
    requires At(a, 4) == At(b, 4) && At(a, 5) == At(b, 5) && At(a, 6) == At(b, 6) && At(a, 7) == At(b, 7)
    ensures a & 0xF0 == b & 0xF0
  {
  }

  lemma HalvesEqual(a: bv32, b: bv32)
    requires a <= 0xFF && b <= 0xFF
    requires a & 0x0F == b & 0x0F && a & 0xF0 == b & 0xF0
    ensures a == b
  {
  }

  /** Words that only use their low byte are equal exactly when their low eight bits are. */
  lemma LowByteEqual(a: bv32, b: bv32)
    requires a <= 0xFF && b <= 0xFF
    ensures a == b <==> forall k | 0 <= k < 8 :: At(a, k) == At(b, k)
  {
    if forall k | 0 <= k < 8 :: At(a, k) == At(b, k) {
      LowHalfEqual(a, b);
      HighHalfEqual(a, b);
      HalvesEqual(a, b);
    }
  }

  lemma WordSmall(b: bv8, m: bv32)
    ensures Word(b) <= 0xFF && m & Word(b) <= 0xFF
  {
  }

  lemma WordNarrows(a: bv8, b: bv8)
    ensures Word(a) == Word(b) <==> a == b
  {
  }

  lemma HalvedAt(w: bv32, k: nat)
    requires w <= 0xFF && k < 8
    ensures At(w >> 1, k) <==> k < 7 && At(w, k + 1)
  {
  }

  lemma {:induction false} TrailingZerosAt(w: bv32)
    requires 0 < w <= 0xFF
    ensures TrailingZeros(w) < 8 && At(w, TrailingZeros(w))
    ensures forall k | 0 <= k < TrailingZeros(w) :: !At(w, k)
    decreases w
  {
    if w & 1 == 1 {
    } else {
      TrailingZerosAt(w >> 1);
      HalvedAt(w, TrailingZeros(w >> 1));
      forall k | 0 < k < TrailingZeros(w)
        ensures !At(w, k)
      {
        HalvedAt(w, k - 1);
      }
    }
  }

  // ---- one byte at a time ----

  /** Bits [s, t) of two bytes are the same. */
  ghost predicate SameBits(a: bv8, b: bv8, s: nat, t: nat)
    requires t <= 8
  {
    forall k | s <= k < t :: ByteBit(a, k) == ByteBit(b, k)
  }

  /** The mask has exactly the bits [s, t) of the low byte. */
  ghost predicate Masks(m: bv32, s: nat, t: nat)
    requires t <= 8
  {
    forall k | 0 <= k < 8 :: At(m, k) <==> s <= k < t
  }

  lemma MasksOf(s: nat, t: nat)
    requires s < 8 && t < 8
    ensures Masks(StartMask(s), s, 8) && Masks(StopMask(t), 0, t + 1)
    ensures Masks(StartMask(s) & StopMask(t), s, t + 1)
  {
    forall k: nat | k < 8
      ensures At(StartMask(s), k) <==> s <= k
      ensures At(StopMask(t), k) <==> k <= t
      ensures At(StartMask(s) & StopMask(t), k) <==> s <= k <= t
    {
      StartMaskAt(s, k);
      StopMaskAt(t, k);
      AndAt(StartMask(s), StopMask(t), k);
    }
  }

  lemma XorSmall(a: bv32, b: bv32)
    requires a <= 0xFF && b <= 0xFF && a != b
    ensures 0 < a ^ b <= 0xFF
  {
  }

  /** The trailing zeros of a difference lead to the lowest bit that differs. */
  lemma LowestDifference(a: bv32, b: bv32)
    requires a <= 0xFF && b <= 0xFF && a != b
    ensures TrailingZeros(a ^ b) < 8
    ensures At(a, TrailingZeros(a ^ b)) != At(b, TrailingZeros(a ^ b))
    ensures forall k | 0 <= k < TrailingZeros(a ^ b) :: At(a, k) == At(b, k)
  {
    XorSmall(a, b);
    TrailingZerosAt(a ^ b);
    var d := TrailingZeros(a ^ b);
    XorAt(a, b, d);
    forall k: nat | k < d
      ensures At(a, k) == At(b, k)
    {
      XorAt(a, b, k);
    }
  }

  lemma MaskedAt(m: bv32, s: nat, t: nat, a: bv8, k: nat)
    requires t <= 8 && Masks(m, s, t) && k < 8
    ensures At(m & Word(a), k) <==> s <= k < t && ByteBit(a, k)
  {
    AndAt(m, Word(a), k);
    ByteBitAt(a, k);
  }

  /** x keeps the bits [s, t) of a byte and no others. */
  ghost predicate Keeps(x: bv32, s: nat, t: nat, a: bv8) {
    x <= 0xFF && forall k | 0 <= k < 8 :: At(x, k) <==> s <= k < t && ByteBit(a, k)
  }

  lemma MaskKeeps(m: bv32, s: nat, t: nat, a: bv8)
    requires t <= 8 && Masks(m, s, t)
    ensures Keeps(m & Word(a), s, t, a)
  {
    WordSmall(a, m);
    forall k: nat | k < 8
      ensures At(m & Word(a), k) <==> s <= k < t && ByteBit(a, k)
    {
      MaskedAt(m, s, t, a, k);
    }
  }

  lemma KeptDifference(x: bv32, y: bv32, s: nat, t: nat, a: bv8, b: bv8, d: nat)
    requires t <= 8 && Keeps(x, s, t, a) && Keeps(y, s, t, b)
    requires x != y && d == TrailingZeros(x ^ y)
    ensures s <= d < t && ByteBit(a, d) != ByteBit(b, d) && SameBits(a, b, s, d)
  {
    LowestDifference(x, y);
    forall k: nat | s <= k < d
      ensures ByteBit(a, k) == ByteBit(b, k)
    {
      assert At(x, k) == At(y, k);
    }
  }

  lemma KeptEqual(x: bv32, y: bv32, s: nat, t: nat, a: bv8, b: bv8)
    requires t <= 8 && Keeps(x, s, t, a) && Keeps(y, s, t, b)
    ensures x == y <==> SameBits(a, b, s, t)
  {
    LowByteEqual(x, y);
  }

  lemma MaskedDifference(m: bv32, s: nat, t: nat, a: bv8, b: bv8)
    requires t <= 8 && Masks(m, s, t)
    ensures MaskedSame(m, a, b) <==> SameBits(a, b, s, t)
    ensures !MaskedSame(m, a, b) ==>
              var d := MaskedLowest(m, a, b);
              s <= d < t && ByteBit(a, d) != ByteBit(b, d) && SameBits(a, b, s, d)
  {
    var x, y := m & Word(a), m & Word(b);
    MaskKeeps(m, s, t, a);
    MaskKeeps(m, s, t, b);
    KeptEqual(x, y, s, t, a, b);
    if x != y {
      KeptDifference(x, y, s, t, a, b, MaskedLowest(m, a, b));
    }
  }

  // ---- the reference: one bit after another ----

  /** Bits [start, stop) of two ids are the same. */
  ghost predicate Agree(start: nat, stop: nat, id1: RawId, id2: RawId)
    requires stop <= NUM_BITS
  {
    forall i | start <= i < stop :: RawBit(id1, i) == RawBit(id2, i)
  }

  /** d is the lowest bit in [start, stop) where the ids differ. */
  ghost predicate FirstDiffers(start: nat, stop: nat, id1: RawId, id2: RawId, d: nat)
    requires stop <= NUM_BITS
  {
    start <= d < stop && RawBit(id1, d) != RawBit(id2, d) && Agree(start, d, id1, id2)
  }

  lemma BitOfByte(id: RawId, i: nat, k: nat)
    requires i < 32 && k < 8
    ensures RawBit(id, 8 * i + k) <==> ByteBit(id[i], k)
  {
    assert (8 * i + k) / 8 == i && (8 * i + k) % 8 == k;
  }

  /** Bits [s, t) of byte i are bits [8i + s, 8i + t) of the id. */
  lemma WithinByte(i: nat, s: nat, t: nat, id1: RawId, id2: RawId)
    requires i < 32 && t <= 8
    ensures Agree(8 * i + s, 8 * i + t, id1, id2) <==> SameBits(id1[i], id2[i], s, t)
  {
    forall k: nat | k < 8
      ensures RawBit(id1, 8 * i + k) == ByteBit(id1[i], k)
      ensures RawBit(id2, 8 * i + k) == ByteBit(id2[i], k)
    {
      BitOfByte(id1, i, k);
      BitOfByte(id2, i, k);
    }
    if SameBits(id1[i], id2[i], s, t) {
      forall j | 8 * i + s <= j < 8 * i + t
        ensures RawBit(id1, j) == RawBit(id2, j)
      {
        var k := j - 8 * i;
        assert ByteBit(id1[i], k) == ByteBit(id2[i], k);
        assert RawBit(id1, 8 * i + k) == RawBit(id2, 8 * i + k);
      }
    }
    if Agree(8 * i + s, 8 * i + t, id1, id2) {
      forall k | s <= k < t
        ensures ByteBit(id1[i], k) == ByteBit(id2[i], k)
      {
        assert RawBit(id1, 8 * i + k) == RawBit(id2, 8 * i + k);
      }
    }
  }

  lemma SameByte(a: bv8, b: bv8)
    ensures SameBits(a, b, 0, 8) <==> a == b
  {
    WordSmall(a, 0);
    WordSmall(b, 0);
    LowByteEqual(Word(a), Word(b));
    WordNarrows(a, b);
    forall k: nat | k < 8
      ensures ByteBit(a, k) == At(Word(a), k)
      ensures ByteBit(b, k) == At(Word(b), k)
    {
      ByteBitAt(a, k);
      ByteBitAt(b, k);
    }
  }

  lemma WholeByte(i: nat, id1: RawId, id2: RawId)
    requires i < 32
    ensures Agree(8 * i, 8 * i + 8, id1, id2) <==> id1[i] == id2[i]
  {
    WithinByte(i, 0, 8, id1, id2);
    SameByte(id1[i], id2[i]);
  }

  lemma {:induction false} WholeBytes(lo: nat, hi: nat, id1: RawId, id2: RawId)
    requires lo <= hi <= 32
    ensures Agree(8 * lo, 8 * hi, id1, id2) <==> id1[lo..hi] == id2[lo..hi]
    decreases hi
  {
    if lo < hi {
      WholeBytes(lo, hi - 1, id1, id2);
      WholeByte(hi - 1, id1, id2);
      assert id1[lo..hi] == id1[lo..hi - 1] + [id1[hi - 1]];
      assert id2[lo..hi] == id2[lo..hi - 1] + [id2[hi - 1]];
    }
  }

  // ---- equal_subset ----

  function EqualSubset(start: nat, stop: nat, id1: RawId, id2: RawId): bool {
    if stop == 0 then true
    else if start > stop - 1 then true
    else if stop - 1 >= NUM_BITS then false
    else EqualBytes(start / 8, start % 8, (stop - 1) / 8, (stop - 1) % 8, id1, id2)
  }

  /** The comparison from bit startBit of byte startIndex to bit stopBit of byte stopIndex. */
  function EqualBytes(
    startIndex: nat, startBit: nat, stopIndex: nat, stopBit: nat, id1: RawId, id2: RawId): bool
    requires startIndex <= stopIndex < 32 && startBit < 8 && stopBit < 8
  {
    var startMask, stopMask := StartMask(startBit), StopMask(stopBit);
    if startIndex + 1 < stopIndex && id1[startIndex + 1..stopIndex] != id2[startIndex + 1..stopIndex] then false
    else if startIndex == stopIndex then
      MaskedSame(startMask & stopMask, id1[startIndex], id2[startIndex])
    else
      && MaskedSame(startMask, id1[startIndex], id2[startIndex])
      && MaskedSame(stopMask, id1[stopIndex], id2[stopIndex])
  }

  lemma AgreeSplits(start: nat, a: nat, b: nat, stop: nat, id1: RawId, id2: RawId)
    requires start <= a <= b <= stop <= NUM_BITS
    ensures Agree(start, stop, id1, id2) <==>
            Agree(start, a, id1, id2) && Agree(a, b, id1, id2) && Agree(b, stop, id1, id2)
  {
  }

  /** Comparing byte i of two ids under a mask compares bits [8i + s, 8i + t). */
  lemma MaskedRange(i: nat, m: bv32, s: nat, t: nat, id1: RawId, id2: RawId)
    requires i < 32 && t <= 8 && Masks(m, s, t)
    ensures MaskedSame(m, id1[i], id2[i]) <==> Agree(8 * i + s, 8 * i + t, id1, id2)
  {
    MaskedDifference(m, s, t, id1[i], id2[i]);
    WithinByte(i, s, t, id1, id2);
  }

  /** What the three comparisons of equal_subset decide. */
  lemma MaskedRanges(i: nat, s: nat, t: nat, id1: RawId, id2: RawId)
    requires i < 32 && s < 8 && t < 8
    ensures MaskedSame(StartMask(s), id1[i], id2[i]) <==> Agree(8 * i + s, 8 * i + 8, id1, id2)
    ensures MaskedSame(StopMask(t), id1[i], id2[i]) <==> Agree(8 * i, 8 * i + t + 1, id1, id2)
    ensures MaskedSame(StartMask(s) & StopMask(t), id1[i], id2[i]) <==>
            Agree(8 * i + s, 8 * i + t + 1, id1, id2)
  {
    MasksOf(s, t);
    MaskedRange(i, StartMask(s), s, 8, id1, id2);
    MaskedRange(i, StopMask(t), 0, t + 1, id1, id2);
    MaskedRange(i, StartMask(s) & StopMask(t), s, t + 1, id1, id2);
  }

  /** A range over several bytes: the rest of the first, the bytes in between, the start of the last. */
  lemma SpanOfBytes(start: nat, stop: nat, i: nat, j: nat, id1: RawId, id2: RawId)
    requires i < j < 32 && 8 * i <= start < 8 * i + 8 && 8 * j < stop <= 8 * j + 8
    ensures Agree(start, stop, id1, id2) <==>
            && Agree(start, 8 * i + 8, id1, id2)
            && id1[i + 1..j] == id2[i + 1..j]
            && Agree(8 * j, stop, id1, id2)
  {
    WholeBytes(i + 1, j, id1, id2);
    AgreeSplits(start, 8 * i + 8, 8 * j, stop, id1, id2);
  }

  lemma EqualBytesMeans(i: nat, s: nat, j: nat, t: nat, id1: RawId, id2: RawId)
    requires i <= j < 32 && s < 8 && t < 8
    ensures EqualBytes(i, s, j, t, id1, id2) <==> Agree(8 * i + s, 8 * j + t + 1, id1, id2)
  {
    MaskedRanges(i, s, t, id1, id2);
    if i < j {
      MaskedRanges(j, s, t, id1, id2);
      SpanOfBytes(8 * i + s, 8 * j + t + 1, i, j, id1, id2);
    }
  }

  /** The byte masks decide the bit-by-bit comparison; a range past the last bit is never equal. */
  lemma EqualSubsetMeans(start: nat, stop: nat, id1: RawId, id2: RawId)
    ensures EqualSubset(start, stop, id1, id2) <==>
            start >= stop || (stop <= 256 && Agree(start, stop, id1, id2))
  {
    if start < stop <= NUM_BITS {
      EqualBytesMeans(start / 8, start % 8, (stop - 1) / 8, (stop - 1) % 8, id1, id2);
    }
  }

  // ---- first_difference_subset ----

  lemma DiffersInByte(i: nat, s: nat, t: nat, id1: RawId, id2: RawId, d: nat)
    requires i < 32 && s <= d < t <= 8
    requires ByteBit(id1[i], d) != ByteBit(id2[i], d) && SameBits(id1[i], id2[i], s, d)
    ensures FirstDiffers(8 * i + s, 8 * i + t, id1, id2, 8 * i + d)
  {
    WithinByte(i, s, d, id1, id2);
    assert (8 * i + d) / 8 == i && (8 * i + d) % 8 == d;
  }

  /** A byte that differs under a mask of its bits [s, t) holds the first difference of that range. */
  lemma FoundInByte(i: nat, m: bv32, s: nat, t: nat, id1: RawId, id2: RawId)
    requires i < 32 && t <= 8 && Masks(m, s, t)
    requires !MaskedSame(m, id1[i], id2[i])
    ensures MaskedLowest(m, id1[i], id2[i]) + i * 8 < NUM_BITS
    ensures FirstDiffers(8 * i + s, 8 * i + t, id1, id2, MaskedLowest(m, id1[i], id2[i]) + i * 8)
  {
    MaskedDifference(m, s, t, id1[i], id2[i]);
    DiffersInByte(i, s, t, id1, id2, MaskedLowest(m, id1[i], id2[i]));
  }

  /** A first difference stays the first one when the range grows: by agreeing bits below, by any bits above. */
  lemma FirstDiffersWidens(start: nat, a: nat, b: nat, stop: nat, id1: RawId, id2: RawId, d: nat)
    requires start <= a <= b <= stop <= NUM_BITS
    requires Agree(start, a, id1, id2) && FirstDiffers(a, b, id1, id2, d)
    ensures FirstDiffers(start, stop, id1, id2, d)
  {
  }

  lemma Unmasked(a: bv8, b: bv8)
    ensures Masks(0xFF, 0, 8)
    ensures MaskedSame(0xFF, a, b) <==> a == b
    ensures MaskedLowest(0xFF, a, b) == TrailingZeros(Word(a ^ b))
  {
    assert (0xFF & Word(a)) ^ (0xFF & Word(b)) == Word(a ^ b);
  }

  /** Within an id, two ranges are unequal exactly when there is a first differing bit. */
  lemma UnequalIffFirstDiffers(start: nat, stop: nat, id1: RawId, id2: RawId)
    requires stop <= NUM_BITS
    ensures !EqualSubset(start, stop, id1, id2) <==> exists d :: FirstDiffers(start, stop, id1, id2, d)
  {
    EqualSubsetMeans(start, stop, id1, id2);
    if start < stop && !Agree(start, stop, id1, id2) {
      FirstDiffersExists(start, stop, id1, id2);
    }
  }

  lemma {:induction false} FirstDiffersExists(start: nat, stop: nat, id1: RawId, id2: RawId)
    requires start <= stop <= NUM_BITS && !Agree(start, stop, id1, id2)
    ensures exists d :: FirstDiffers(start, stop, id1, id2, d)
  {
    if Agree(start, stop - 1, id1, id2) {
      assert FirstDiffers(start, stop, id1, id2, stop - 1);
    } else {
      FirstDiffersExists(start, stop - 1, id1, id2);
      var d :| FirstDiffers(start, stop - 1, id1, id2, d);
      assert FirstDiffers(start, stop, id1, id2, d);
    }
  }

  /** One masked byte of the scan. */
  method DifferenceInByte(i: nat, m: bv32, s: nat, t: nat, id1: RawId, id2: RawId) returns (d: nat, found: bool)
    requires i < 32 && t <= 8 && Masks(m, s, t)
    ensures found <==> !Agree(8 * i + s, 8 * i + t, id1, id2)
    ensures found ==> FirstDiffers(8 * i + s, 8 * i + t, id1, id2, d)
    ensures !found ==> d == 0
  {
    MaskedRange(i, m, s, t, id1, id2);
    var b1, b2 := m & Word(id1[i]), m & Word(id2[i]);
    if b1 == b2 {
      return 0, false;
    }
    FoundInByte(i, m, s, t, id1, id2);
    return TrailingZeros(b1 ^ b2) + i * 8, true;
  }

  /** The interior bytes of the scan. */
  method DifferenceInBytes(lo: nat, hi: nat, id1: RawId, id2: RawId) returns (d: nat, found: bool)
    requires lo <= hi <= 32
    ensures found <==> !Agree(8 * lo, 8 * hi, id1, id2)
    ensures found ==> FirstDiffers(8 * lo, 8 * hi, id1, id2, d)
    ensures !found ==> d == 0
  {
    for idx := lo to hi
      invariant Agree(8 * lo, 8 * idx, id1, id2)
    {
      var b1, b2 := id1[idx], id2[idx];
      Unmasked(b1, b2);
      WholeByte(idx, id1, id2);
      if b1 != b2 {
        FoundInByte(idx, 0xFF, 0, 8, id1, id2);
        d := TrailingZeros(Word(b1 ^ b2)) + idx * 8;
        FirstDiffersWidens(8 * lo, 8 * idx, 8 * idx + 8, 8 * hi, id1, id2, d);
        return d, true;
      }
    }
    return 0, false;
  }

  method FirstDifferenceSubset(start: nat, stop: nat, id1: RawId, id2: RawId) returns (d: nat, found: bool)
    ensures found <==> start < stop <= 256 && !Agree(start, stop, id1, id2)
    ensures found ==> FirstDiffers(start, stop, id1, id2, d)
    ensures !found ==> d == 0
  {
    if stop == 0 {
      return 0, false;
    }
    var last := stop - 1;
    if start > last {
      return 0, false;
    }
    if last >= NUM_BITS {
      return 0, false;
    }
    var startIndex, stopIndex := start / 8, last / 8;
    var startBit, stopBit := start % 8, last % 8;
    var startMask, stopMask := StartMask(startBit), StopMask(stopBit);
    MasksOf(startBit, stopBit);
    if startIndex == stopIndex {
      d, found := DifferenceInByte(startIndex, startMask & stopMask, startBit, stopBit + 1, id1, id2);
      return;
    }
    d, found := DifferenceInByte(startIndex, startMask, startBit, 8, id1, id2);
    if found {
      return;
    }
    d, found := DifferenceInBytes(startIndex + 1, stopIndex, id1, id2);
    if found {
      return;
    }
    d, found := DifferenceInByte(stopIndex, stopMask, 0, stopBit + 1, id1, id2);
  }
}
