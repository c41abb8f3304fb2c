/**
 The comparisons that stand in for byte order: ids::Ids::cmp, short::Ids::cmp, utxo::Id::cmp,
 transferable::Input::cmp, transferable::Output::cmp and the comparators they call, against the
 lexicographic order of what is packed.
 */
module Orders {
  import opened Bytes
  import opened Codecs
  import opened Ids
  import opened Transferables

  datatype Ordering = Less | Equal | Greater {
    function Then(next: Ordering): Ordering {
      if Equal? then next else this
    }

    function Reverse(): Ordering {
      match this case Less => Greater case Equal => Equal case Greater => Less
    }
  }

  function CompareInt(x: int, y: int): Ordering {
    if x < y then Less else if x > y then Greater else Equal
  }

  /** Lexicographic order; a proper prefix comes first. */
  function CompareSeq<T>(cmp: (T, T) -> Ordering, xs: seq<T>, ys: seq<T>): Ordering {
    if xs == [] then (if ys == [] then Equal else Less)
    else if ys == [] then Greater
    else cmp(xs[0], ys[0]).Then(CompareSeq(cmp, xs[1..], ys[1..]))
  }

  function CompareByte(x: byte, y: byte): Ordering {
    CompareInt(x, y)
  }

  function Compare(a: Bytes, b: Bytes): Ordering {
    CompareSeq(CompareByte, a, b)
  }

  // ---- byte order is a total order ----

  lemma {:induction false} CompareReverse(a: Bytes, b: Bytes)
    ensures Compare(b, a) == Compare(a, b).Reverse()
  {
    if a != [] && b != [] {
      CompareReverse(a[1..], b[1..]);
    }
  }

  lemma {:induction false} CompareEqual(a: Bytes, b: Bytes)
    ensures Compare(a, b) == Equal <==> a == b
  {
    if a != [] && b != [] {
      CompareEqual(a[1..], b[1..]);
      assert a == [a[0]] + a[1..] && b == [b[0]] + b[1..];
    }
  }

  lemma {:induction false} CompareTransitive(a: Bytes, b: Bytes, c: Bytes)
    requires Compare(a, b) != Greater && Compare(b, c) != Greater
    ensures Compare(a, c) != Greater
  {
    if a != [] && b != [] && c != [] && a[0] == b[0] == c[0] {
      CompareTransitive(a[1..], b[1..], c[1..]);
    }
  }

  /** The two agree up to k, where a has the smaller byte or ends. */
  predicate SmallerAt(a: Bytes, b: Bytes, k: nat) {
    k <= |a| && k < |b| && a[..k] == b[..k] && (k < |a| ==> a[k] < b[k])
  }

  lemma {:induction false} CompareMeans(a: Bytes, b: Bytes)
    ensures Compare(a, b) == Less <==> exists k: nat :: SmallerAt(a, b, k)
  {
    if a == [] || b == [] || a[0] != b[0] {
      assert SmallerAt(a, b, 0) <==> Compare(a, b) == Less;
      assert forall k: nat :: SmallerAt(a, b, k) ==> k > 0 ==> a[..k][0] == b[..k][0];
    } else {
      CompareMeans(a[1..], b[1..]);
      assert forall k: nat :: k < |b| && k <= |a| && k > 0 ==> a[..k] == [a[0]] + a[1..][..k - 1];
      assert forall k: nat :: SmallerAt(a[1..], b[1..], k) ==> SmallerAt(a, b, k + 1);
      assert forall k: nat :: SmallerAt(a, b, k) && k > 0 ==> SmallerAt(a[1..], b[1..], k - 1);
    }
  }

  // ---- how the order of a concatenation splits ----

  lemma {:induction false} ComparePrefix(a: Bytes, b: Bytes, r: Bytes, s: Bytes)
    requires |a| == |b|
    ensures Compare(a + r, b + s) == Compare(a, b).Then(Compare(r, s))
  {
    if a == [] {
      assert a + r == r && b + s == s;
    } else {
      assert (a + r)[1..] == a[1..] + r && (b + s)[1..] == b[1..] + s;
      ComparePrefix(a[1..], b[1..], r, s);
    }
  }

  lemma CompareOne(x: byte, y: byte)
    ensures Compare([x], [y]) == CompareInt(x, y)
  {
    assert CompareSeq(CompareByte, [x][1..], [y][1..]) == Equal;
  }

  /** Big-endian integers of one width sort like the integers. */
  lemma {:induction false} CompareBigEndian(n: nat, x: nat, y: nat)
    requires x < Pow256(n) && y < Pow256(n)
    ensures Compare(BigEndian(n, x), BigEndian(n, y)) == CompareInt(x, y)
  {
    if n > 0 {
      CompareBigEndian(n - 1, x / 256, y / 256);
      ComparePrefix(BigEndian(n - 1, x / 256), BigEndian(n - 1, y / 256), [x % 256], [y % 256]);
      CompareOne(x % 256, y % 256);
    }
  }

  /** Lists of equally long elements, of one length, sort element by element. */
  lemma {:induction false} CompareElements<T>(
    enc: T -> Bytes, cmp: (T, T) -> Ordering, xs: seq<T>, ys: seq<T>, r: Bytes, s: Bytes)
    requires |xs| == |ys|
    requires forall i :: 0 <= i < |xs| ==>
               |enc(xs[i])| == |enc(ys[i])| && Compare(enc(xs[i]), enc(ys[i])) == cmp(xs[i], ys[i])
    ensures Compare(EncAll(enc, xs) + r, EncAll(enc, ys) + s) == CompareSeq(cmp, xs, ys).Then(Compare(r, s))
  {
    if xs == [] {
      assert EncAll(enc, xs) + r == r && EncAll(enc, ys) + s == s;
    } else {
      var x, y := EncAll(enc, xs[1..]), EncAll(enc, ys[1..]);
      Associative(enc(xs[0]), x, r);
      Associative(enc(ys[0]), y, s);
      ComparePrefix(enc(xs[0]), enc(ys[0]), x + r, y + s);
      CompareElements(enc, cmp, xs[1..], ys[1..], r, s);
    }
  }

  /** The order in which a u64 and what follows it sort. */
  lemma CompareU64(x: u64, y: u64, r: Bytes, s: Bytes)
    ensures Compare(BigEndian(8, x) + r, BigEndian(8, y) + s) == CompareInt(x, y).Then(Compare(r, s))
  {
    ComparePrefix(BigEndian(8, x), BigEndian(8, y), r, s);
    CompareBigEndian(8, x, y);
  }

  lemma CompareU32(x: u32, y: u32, r: Bytes, s: Bytes)
    ensures Compare(Be4(x) + r, Be4(y) + s) == CompareInt(x, y).Then(Compare(r, s))
  {
    ComparePrefix(Be4(x), Be4(y), r, s);
    CompareBigEndian(4, x, y);
  }

  /** A u32 count and the elements: the length decides first, as in every length-first comparator. */
  lemma CompareCounted<T>(enc: T -> Bytes, cmp: (T, T) -> Ordering, xs: seq<T>, ys: seq<T>, r: Bytes, s: Bytes)
    requires |xs| < 0x1_0000_0000 && |ys| < 0x1_0000_0000
    requires |xs| == |ys| ==> forall i :: 0 <= i < |xs| ==>
               |enc(xs[i])| == |enc(ys[i])| && Compare(enc(xs[i]), enc(ys[i])) == cmp(xs[i], ys[i])
    ensures Compare((Be4(|xs|) + EncAll(enc, xs)) + r, (Be4(|ys|) + EncAll(enc, ys)) + s)
         == CompareInt(|xs|, |ys|).Then(CompareSeq(cmp, xs, ys)).Then(Compare(r, s))
  {
    Associative(Be4(|xs|), EncAll(enc, xs), r);
    Associative(Be4(|ys|), EncAll(enc, ys), s);
    CompareU32(|xs|, |ys|, EncAll(enc, xs) + r, EncAll(enc, ys) + s);
    if |xs| == |ys| {
      CompareElements(enc, cmp, xs, ys, r, s);
    }
  }

  // ---- the comparators of the source ----

  function CompareId(x: Id, y: Id): Ordering {
    Compare(x, y)
  }

  /** ids::Ids::cmp: the shorter list first, then element by element. */
  function IdsCmp(xs: seq<Id>, ys: seq<Id>): Ordering {
    CompareInt(|xs|, |ys|).Then(CompareSeq(CompareId, xs, ys))
  }

  function CompareShort(x: ShortId, y: ShortId): Ordering {
    Compare(x, y)
  }

  /** short::Ids::cmp. */
  function ShortIdsCmp(xs: seq<ShortId>, ys: seq<ShortId>): Ordering {
    CompareInt(|xs|, |ys|).Then(CompareSeq(CompareShort, xs, ys))
  }

  function OwnersCmp(a: OutputOwners, b: OutputOwners): Ordering {
    CompareInt(a.locktime, b.locktime)
      .Then(CompareInt(a.threshold, b.threshold))
      .Then(ShortIdsCmp(a.addresses, b.addresses))
  }

  function TransferOutputCmp(a: TransferOutput, b: TransferOutput): Ordering {
    CompareInt(a.amount, b.amount).Then(OwnersCmp(a.owners, b.owners))
  }

  function LockOutCmp(a: StakeableLockOut, b: StakeableLockOut): Ordering {
    CompareInt(a.locktime, b.locktime).Then(TransferOutputCmp(a.transferOutput, b.transferOutput))
  }

  function UtxoIdCmp(a: UtxoId, b: UtxoId): Ordering {
    Compare(a.txId, b.txId).Then(CompareInt(a.outputIndex, b.outputIndex))
  }

  function InputCmp(a: Input, b: Input): Ordering {
    Compare(a.utxoId.txId, b.utxoId.txId).Then(CompareInt(a.utxoId.outputIndex, b.utxoId.outputIndex))
  }

  /** The type ID the output comparator assumes: an output without a variant counts as a lock-out. */
  function AssumedId(o: Output): u32 {
    if o.transferOutput.Some? then TRANSFER_OUTPUT_ID else LOCK_OUT_ID
  }

  /**
   Output::cmp panics when it has to look into the lock-out of an output that has no variant: the
   assets are equal, exactly one output has no variant and the other is a lock-out.
   */
  predicate CmpPanics(a: Output, b: Output) {
    && Compare(a.assetId, b.assetId) == Equal
    && (a.HasVariant() || b.HasVariant())
    && AssumedId(a) == AssumedId(b) == LOCK_OUT_ID
    && (a.stakeableLockOut.None? || b.stakeableLockOut.None?)
  }

  function OutputCmp(a: Output, b: Output): Ordering
    requires !CmpPanics(a, b)
  {
    var assets := Compare(a.assetId, b.assetId);
    if assets != Equal then assets
    else if !a.HasVariant() && !b.HasVariant() then Equal
    else
      var ids := CompareInt(AssumedId(a), AssumedId(b));
      if ids != Equal then ids
      else if AssumedId(a) == TRANSFER_OUTPUT_ID then TransferOutputCmp(a.transferOutput.value, b.transferOutput.value)
      else LockOutCmp(a.stakeableLockOut.value, b.stakeableLockOut.value)
  }

  // ---- they agree with byte order ----

  lemma ShortIdsOrder(xs: seq<ShortId>, ys: seq<ShortId>, r: Bytes, s: Bytes)
    requires |xs| < 0x1_0000_0000 && |ys| < 0x1_0000_0000
    ensures Compare((Be4(|xs|) + EncAll(Raw, xs)) + r, (Be4(|ys|) + EncAll(Raw, ys)) + s)
         == ShortIdsCmp(xs, ys).Then(Compare(r, s))
  {
    CompareCounted(Raw, CompareShort, xs, ys, r, s);
  }

  /** Length-first comparison of id lists is the byte order of a u32 count followed by the ids. */
  lemma IdsOrder(xs: seq<Id>, ys: seq<Id>)
    requires |xs| < 0x1_0000_0000 && |ys| < 0x1_0000_0000
    ensures Compare(Be4(|xs|) + EncAll(RawId, xs), Be4(|ys|) + EncAll(RawId, ys)) == IdsCmp(xs, ys)
  {
    CompareCounted(RawId, CompareId, xs, ys, [], []);
    assert (Be4(|xs|) + EncAll(RawId, xs)) + [] == Be4(|xs|) + EncAll(RawId, xs);
    assert (Be4(|ys|) + EncAll(RawId, ys)) + [] == Be4(|ys|) + EncAll(RawId, ys);
  }

  lemma OwnersOrder(a: OutputOwners, b: OutputOwners, r: Bytes, s: Bytes)
    requires OwnersFit(a) && OwnersFit(b)
    ensures Compare(EncOwners(a) + r, EncOwners(b) + s) == OwnersCmp(a, b).Then(Compare(r, s))
  {
    var la, lb := Be4(|a.addresses|) + EncAll(Raw, a.addresses), Be4(|b.addresses|) + EncAll(Raw, b.addresses);
    Associative(BigEndian(8, a.locktime), Be4(a.threshold) + la, r);
    Associative(BigEndian(8, b.locktime), Be4(b.threshold) + lb, s);
    Associative(Be4(a.threshold), la, r);
    Associative(Be4(b.threshold), lb, s);
    CompareU64(a.locktime, b.locktime, Be4(a.threshold) + (la + r), Be4(b.threshold) + (lb + s));
    CompareU32(a.threshold, b.threshold, la + r, lb + s);
    ShortIdsOrder(a.addresses, b.addresses, r, s);
  }

  lemma TransferOutputOrder(a: TransferOutput, b: TransferOutput, r: Bytes, s: Bytes)
    requires OwnersFit(a.owners) && OwnersFit(b.owners)
    ensures Compare(EncTransferOutput(a) + r, EncTransferOutput(b) + s) == TransferOutputCmp(a, b).Then(Compare(r, s))
  {
    Associative(BigEndian(8, a.amount), EncOwners(a.owners), r);
    Associative(BigEndian(8, b.amount), EncOwners(b.owners), s);
    CompareU64(a.amount, b.amount, EncOwners(a.owners) + r, EncOwners(b.owners) + s);
    OwnersOrder(a.owners, b.owners, r, s);
  }

  lemma LockOutOrder(a: StakeableLockOut, b: StakeableLockOut, r: Bytes, s: Bytes)
    requires OwnersFit(a.transferOutput.owners) && OwnersFit(b.transferOutput.owners)
    ensures Compare(EncLockOut(a) + r, EncLockOut(b) + s) == LockOutCmp(a, b).Then(Compare(r, s))
  {
    var x, y := EncTransferOutput(a.transferOutput), EncTransferOutput(b.transferOutput);
    var id := Be4(TRANSFER_OUTPUT_ID);
    Associative(BigEndian(8, a.locktime), id + x, r);
    Associative(BigEndian(8, b.locktime), id + y, s);
    Associative(id, x, r);
    Associative(id, y, s);
    CompareU64(a.locktime, b.locktime, id + (x + r), id + (y + s));
    CompareU32(TRANSFER_OUTPUT_ID, TRANSFER_OUTPUT_ID, x + r, y + s);
    TransferOutputOrder(a.transferOutput, b.transferOutput, r, s);
  }

  /**
   Comparing two outputs without marshalling them gives the byte order of what Tx::pack writes for
   them, whatever follows.
   */
  lemma OutputOrder(a: Output, b: Output, r: Bytes, s: Bytes)
    requires a.HasVariant() && b.HasVariant() && OutputFits(a) && OutputFits(b)
    ensures !CmpPanics(a, b)
    ensures Compare(EncOutput(a) + r, EncOutput(b) + s) == OutputCmp(a, b).Then(Compare(r, s))
  {
    var x, y := EncBodyOf(a), EncBodyOf(b);
    Associative(a.assetId, x, r);
    Associative(b.assetId, y, s);
    ComparePrefix(a.assetId, b.assetId, x + r, y + s);
    OutputBodyOrder(a, b, r, s);
  }

  function EncBodyOf(o: Output): Bytes {
    EncOutputBody(o.transferOutput, o.stakeableLockOut)
  }

  lemma OutputBodyOrder(a: Output, b: Output, r: Bytes, s: Bytes)
    requires a.HasVariant() && b.HasVariant() && OutputFits(a) && OutputFits(b)
    ensures Compare(EncBodyOf(a) + r, EncBodyOf(b) + s)
         == (if AssumedId(a) != AssumedId(b) then CompareInt(AssumedId(a), AssumedId(b))
             else if a.transferOutput.Some?
             then TransferOutputCmp(a.transferOutput.value, b.transferOutput.value).Then(Compare(r, s))
             else LockOutCmp(a.stakeableLockOut.value, b.stakeableLockOut.value).Then(Compare(r, s)))
  {
    var x := if a.transferOutput.Some? then EncTransferOutput(a.transferOutput.value)
             else EncLockOut(a.stakeableLockOut.value);
    var y := if b.transferOutput.Some? then EncTransferOutput(b.transferOutput.value)
             else EncLockOut(b.stakeableLockOut.value);
    Associative(Be4(AssumedId(a)), x, r);
    Associative(Be4(AssumedId(b)), y, s);
    CompareU32(AssumedId(a), AssumedId(b), x + r, y + s);
    if AssumedId(a) == AssumedId(b) {
      if a.transferOutput.Some? {
        TransferOutputOrder(a.transferOutput.value, b.transferOutput.value, r, s);
      } else {
        LockOutOrder(a.stakeableLockOut.value, b.stakeableLockOut.value, r, s);
      }
    }
  }

  /** The plain statement, and what equality means: outputs that compare equal are written identically. */
  lemma OutputCmpIsByteOrder(a: Output, b: Output)
    requires a.HasVariant() && b.HasVariant() && OutputFits(a) && OutputFits(b)
    ensures !CmpPanics(a, b) && OutputCmp(a, b) == Compare(EncOutput(a), EncOutput(b))
    ensures OutputCmp(a, b) == Equal <==> a.Normal() == b.Normal()
  {
    OutputOrder(a, b, [], []);
    assert EncOutput(a) + [] == EncOutput(a) && EncOutput(b) + [] == EncOutput(b);
    CompareEqual(EncOutput(a), EncOutput(b));
    OutputBytesInjective(a, b);
  }

  lemma OutputBytesInjective(a: Output, b: Output)
    requires a.HasVariant() && b.HasVariant() && OutputFits(a) && OutputFits(b)
    ensures EncOutput(a) == EncOutput(b) <==> a.Normal() == b.Normal()
  {
    NormalOutputBytes(a);
    NormalOutputBytes(b);
    if EncOutput(a) == EncOutput(b) {
      OutputEnc(a.Normal());
      OutputEnc(b.Normal());
      OutputExact();
      UniquelyDecodable(OutputCodec(), a.Normal(), [], b.Normal(), []);
    }
  }

  lemma NormalOutputBytes(o: Output)
    requires o.HasVariant() && OutputFits(o)
    ensures o.Normal().HasVariant() && o.Normal().Normal() == o.Normal() && OutputFits(o.Normal())
    ensures EncOutput(o.Normal()) == EncOutput(o)
  {
  }

  /** The 36 bytes that identify what an input spends. */
  function EncUtxoId(u: UtxoId): Bytes {
    u.txId + Be4(u.outputIndex)
  }

  lemma UtxoIdOrder(a: UtxoId, b: UtxoId, r: Bytes, s: Bytes)
    ensures Compare(EncUtxoId(a) + r, EncUtxoId(b) + s) == UtxoIdCmp(a, b).Then(Compare(r, s))
  {
    Associative(a.txId, Be4(a.outputIndex), r);
    Associative(b.txId, Be4(b.outputIndex), s);
    ComparePrefix(a.txId, b.txId, Be4(a.outputIndex) + r, Be4(b.outputIndex) + s);
    CompareU32(a.outputIndex, b.outputIndex, r, s);
  }

  /** utxo::Id::cmp is the byte order of the 36 bytes. */
  lemma UtxoIdCmpIsByteOrder(a: UtxoId, b: UtxoId)
    ensures UtxoIdCmp(a, b) == Compare(EncUtxoId(a), EncUtxoId(b))
    ensures UtxoIdCmp(a, b) == Equal <==> a.txId == b.txId && a.outputIndex == b.outputIndex
  {
    UtxoIdOrder(a, b, [], []);
    assert EncUtxoId(a) + [] == EncUtxoId(a) && EncUtxoId(b) + [] == EncUtxoId(b);
    CompareEqual(a.txId, b.txId);
  }

  /**
   transferable::Input::cmp is the byte order of the 36 bytes, and where it decides at all it is the
   order of the whole packed inputs.
   */
  lemma InputCmpIsByteOrder(a: Input, b: Input)
    ensures InputCmp(a, b) == Compare(EncUtxoId(a.utxoId), EncUtxoId(b.utxoId))
    ensures InputCmp(a, b) != Equal ==> InputCmp(a, b) == Compare(EncInput(a), EncInput(b))
  {
    UtxoIdCmpIsByteOrder(a.utxoId, b.utxoId);
    var r := a.assetId + EncInputBody(a.transferInput, a.stakeableLockIn);
    var s := b.assetId + EncInputBody(b.transferInput, b.stakeableLockIn);
    Associative(a.utxoId.txId, Be4(a.utxoId.outputIndex), r);
    Associative(b.utxoId.txId, Be4(b.utxoId.outputIndex), s);
    UtxoIdOrder(a.utxoId, b.utxoId, r, s);
  }
}
