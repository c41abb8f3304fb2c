# Consensus wire format and vote counting of the Avalanche types crate

A Dafny model of three connected parts of the crate, with proofs.

* **Wire format.** `Packers.dfy` is the byte buffer with its offset, size cap and optional length header. On it sit typed
  runs of fields (`Fields.dfy`), IP addresses (`Ips.dfy`), ids (`Ids.dfy`), transactions with their nested tagged unions
  (`Transferables.dfy`, `Txs.dfy`, `Sizes.dfy`), import and export signing (`Signing.dfy`), the X-chain vertex
  (`Vertices.dfy`, `Sorting.dfy`), and UTXOs with their hex form (`Utxos.dfy`, `Hex.dfy`). `Texts.dfy` says what UTF-8 text
  is. `Layouts.dfy` says where each field of every packed structure stands, with type ids and offsets in numbers, and
  `Example.dfy` spells out the packed transaction that the crate's own test expects.
* **Orderings.** `Orders.dfy` shows that the comparisons which avoid marshalling agree with the order of the packed bytes.
* **Vote counting.** `Bits.dfy` compares ranges of bits with byte masks, `Voters.dfy` is the 64-element bit set, `Bags.dfy`
  the bag with cached size, mode and threshold set, and `Uniques.dfy` the map from ids to voters.

## How the proofs are built

`Codecs.dfy` defines small grammars (integers, headed bytes, pairs, tagged unions, counted lists). A grammar is *exact* if
decoding inverts encoding whatever follows, and if anything that decodes is written as the very bytes it was read from.
Exactness is proved once for each way of combining grammars; unique decodability, round trips and
re-encoding follow. Where packing does more or less than encode, the sessions named `UnpackThenPack` say exactly when it
gives the bytes back.

The imperative code is proved against those grammars. `Packer.Wrote` says what a run of pack calls did: it succeeds exactly
when the encoding fits under the cap, and a failed run leaves a prefix of the encoding behind the old bytes. `Packer.Read`
says what an unpack call did on arbitrary bytes: it agrees with the decoder in success, value and bytes consumed, and the
offset never moves back or past the end.

The bit functions are proved against a bit-by-bit definition (`Bits.Agree`, `Bits.FirstDiffers`), the bag against a recount
(`Bags.Inv`), and the voter map against a set of (id, voter) pairs (`Uniques.Pairs`).

## Where the code differs from what one would expect

* `pack_str` casts the length to u16 before it checks it. Exactly the lengths 65535 modulo 65536 are refused, and longer
  strings are written with a truncated length. `Fields.StrRoundTripIff` gives the exact condition.
* `unpack_str` accepts 65535 bytes, which `pack_str` refuses (`Fields.StrNotRepackable`). What unpacks can be packed again
  exactly if every string has at most 65534 bytes (`Fields.UnpackThenPack`).
* `unpack_vertex` accepts lists in any order and `pack_vertex` sorts, so bytes that unpack are packed differently unless
  their lists were in order (`Vertices.VertexRepacksIff`; an input is `Vertices.VertexNotRepackable`).
* `Id::prefix` sizes its packer by the number of prefixes instead of eight bytes for each, so it fails from two prefixes on
  (`Ids.Prefix`).
* `Utxo::pack` writes a UTXO that has neither output variant, and `Utxo::unpack` refuses those bytes
  (`Utxos.NoVariantNeverUnpacks`). `Utxo::unpack` ignores the inner type word of a lock-out (`Utxos.UtxoReencodes`),
  and it has no size cap, so more than 2^31-1 bytes unpack and cannot be packed (`Utxos.UnpackThenPack`).
* `sign` casts the number of signers to u32, so 2^32 empty credentials are written like none (`Signing.LostCredentials`).
* Lock-outs carry an inner type word and lock-ins do not; the model writes what the code writes.

## Model

| member | source | states |
|---|---|---|
| `Codecs.UniquelyDecodable` | src/txs/mod.rs:80-326 | An exact grammar decodes in one way only: two packable values written in front of anything are equal if the bytes are |
| `Codecs.UIntExact` | src/packer/mod.rs:291-437 | Big-endian integers of any width: decoding inverts writing, and on any bytes the value decoded is written as the bytes it was read from |
| `Codecs.HeadedExact` | src/packer/mod.rs:522-534 | The same for bytes behind a length header, including that a length which lost bits in its cast is not readable |
| `Codecs.BoolExact` | src/packer/mod.rs:444-468 | The same for bools, which are accepted only as the bytes 0 and 1 |
| `Codecs.TaggedExact` | src/txs/mod.rs:118-136 | The same for two variants behind two different type ids |
| `Codecs.ListOfExact` | src/txs/mod.rs:98-112 | The same for a u32 count followed by that many elements |
| `Texts.Utf8Iff` | src/packer/mod.rs:609-622 | The bytes taken for a string are exactly the encodings of lists of scalar values, written arithmetically (section 3 of RFC 3629): no surrogates, nothing above 0x10FFFF, no overlong form |
| `Texts.TextInjective` | src/packer/mod.rs:589-622 | Two texts with the same bytes are the same |
| `Packers.StrExact` | src/packer/mod.rs:589-622 | The same for strings: what unpack_str accepts are exactly the writings of UTF-8 strings of at most 65535 bytes |
| `Packers.Packer.New` | src/packer/mod.rs:52-60 | An empty buffer with its size cap |
| `Packers.Packer.NewWithHeader` | src/packer/mod.rs:63-75 | Four zero bytes are reserved for the message length and the offset starts behind them |
| `Packers.Packer.LoadBytesForPack` | src/packer/mod.rs:78-86 | Starts behind the given bytes |
| `Packers.Packer.LoadBytesForUnpack` | src/packer/mod.rs:89-97 | Starts in front of the given bytes |
| `Packers.Packer.TakeBytes` | src/packer/mod.rs:107-122 | Hands the bytes out, with the length of what follows the header written over the header, and leaves the buffer empty |
| `Packers.Packer.SetBytes` | src/packer/mod.rs:127-130 | Puts bytes back without moving the offset |
| `Packers.Packer.TruncateBytes` | src/packer/mod.rs:164-171 | Only ever drops bytes behind the given length |
| `Packers.Packer.Expand` | src/packer/mod.rs:187-221 | Fails exactly when the bytes needed exceed both the buffer and the cap; whatever the capacity of the allocation, no byte is dropped |
| `Packers.Packer.PackBytes` | src/packer/mod.rs:473-497 | Appends at the end whatever the offset is, or changes nothing and fails |
| `Packers.Packer.PackByte` | src/packer/mod.rs:245-267 | Appends one byte or changes nothing |
| `Packers.Packer.PackU16` | src/packer/mod.rs:291-314 | Appends two bytes, most significant first, or changes nothing |
| `Packers.Packer.PackU32` | src/packer/mod.rs:342-365 | Appends four bytes, most significant first, or changes nothing |
| `Packers.Packer.PackU64` | src/packer/mod.rs:392-415 | Appends eight bytes, most significant first, or changes nothing |
| `Packers.Packer.PackBool` | src/packer/mod.rs:444-451 | Appends the byte 1 for true and 0 for false, or changes nothing |
| `Packers.Packer.PackBytesWithHeader` | src/packer/mod.rs:522-526 | Succeeds exactly when header and bytes fit; a failure leaves a prefix of the encoding behind the old bytes |
| `Packers.Packer.Pack2DBytes` | src/packer/mod.rs:539-546 | The count and the elements, with the same success condition and the same prefix on failure |
| `Packers.Packer.Pack2DBytesWithHeader` | src/packer/mod.rs:564-571 | The count and the elements with their headers, likewise |
| `Packers.Packer.PackStr` | src/packer/mod.rs:589-604 | Refused exactly if |v| % 65536 is 65535; otherwise the two bytes of |v| % 65536 and the string, all or a prefix |
| `Packers.Packer.CheckRemainingUnpack` | src/packer/mod.rs:226-240 | Passes exactly when that many bytes are unread |
| `Packers.Packer.UnpackBytes` | src/packer/mod.rs:502-517 | Reads n bytes exactly if they are there; the bytes never change and the offset never passes the end |
| `Packers.Packer.UnpackUInt` | src/packer/mod.rs:319-437 | The integer readers agree with the reference decoder in success, value and bytes consumed |
| `Packers.Packer.UnpackByte` | src/packer/mod.rs:272-286 | The byte reader likewise |
| `Packers.Packer.UnpackU16` | src/packer/mod.rs:319-337 | The u16 reader likewise |
| `Packers.Packer.UnpackU32` | src/packer/mod.rs:370-387 | The u32 reader likewise |
| `Packers.Packer.UnpackU64` | src/packer/mod.rs:420-437 | The u64 reader likewise |
| `Packers.Packer.UnpackBool` | src/packer/mod.rs:456-468 | The bool reader likewise; any byte but 0 and 1 is refused |
| `Packers.Packer.UnpackBytesWithHeader` | src/packer/mod.rs:531-534 | The header reader likewise |
| `Packers.Packer.Unpack2DBytes` | src/packer/mod.rs:551-559 | The list reader with elements of one length likewise |
| `Packers.Packer.Unpack2DBytesWithHeader` | src/packer/mod.rs:576-584 | The list reader with headers likewise |
| `Packers.Packer.UnpackStr` | src/packer/mod.rs:609-622 | The string reader likewise; bytes that are not UTF-8 are refused |
| `Fields.FieldExact` | src/packer/mod.rs:245-622 | Every kind of field has an exact grammar: round trip and re-packing on any bytes |
| `Fields.RunRoundTripIff` | src/packer/mod.rs:245-622 | The encoding of any typed run decodes by the same types to the run itself, whatever follows, if and only if no length lost bits in its cast |
| `Fields.RunReencodes` | src/packer/mod.rs:245-622 | Whatever a typed run unpacks from arbitrary bytes, its encoding is exactly the bytes that were consumed; when the packer writes it is the matter of UnpackThenPack |
| `Fields.RunOkTyped` | src/packer/mod.rs:589-622 | Of the runs that can be read, the packer refuses exactly those with a string of more than 65534 bytes |
| `Fields.StrRoundTripIff` | src/packer/mod.rs:589-622 | A string comes back exactly when it is at most 65534 bytes long |
| `Fields.StrNotRepackable` | src/packer/mod.rs:589-622 | An input for which unpacking and packing again fails: a string of 65535 bytes unpacks and is refused |
| `Fields.PackRun` | src/packer/mod.rs:245-604 | Packing any typed run succeeds exactly when no string is refused and the encoding fits, and in any case leaves a prefix of it |
| `Fields.UnpackRun` | src/packer/mod.rs:226-622 | Unpacking a run agrees with the reference decoder on arbitrary bytes |
| `Fields.PackThenUnpack` | src/packer/mod.rs:63-122 | A whole session: pack, take the bytes, unpack; a header holds the message length, and the fields return with the offset at the end if and only if no length lost bits |
| `Fields.UnpackThenPack` | src/packer/mod.rs:226-622 | The other session, on arbitrary bytes: packing what was unpacked succeeds exactly if every string has at most 65534 bytes and the consumed bytes fit, and gives back those bytes |
| `Ips.CanonicalIff` | src/packer/ip.rs:25-70 | An address keeps its variant exactly if it is IPv4 with nonzero first octet, or IPv6 that is not twelve zero bytes and a nonzero one |
| `Ips.EndpointsRoundTrip` | src/packer/ip.rs:73-94 | Packed lists of addresses unpack to their canonical forms, which pack to the same bytes |
| `Ips.EndpointsRepack` | src/packer/ip.rs:86-94 | On arbitrary bytes the addresses read are canonical and pack to the bytes consumed |
| `Ips.PackIp` | src/packer/ip.rs:25-40 | Writes sixteen address bytes and the port, all or a prefix |
| `Ips.UnpackIp` | src/packer/ip.rs:45-70 | Agrees with the reference decoder on arbitrary bytes |
| `Ips.PackIps` | src/packer/ip.rs:73-81 | Writes the count and the addresses, all or a prefix |
| `Ips.UnpackIps` | src/packer/ip.rs:86-94 | Agrees with the reference decoder on arbitrary bytes |
| `Ids.FromSlice` | src/ids/mod.rs:71-82 | The id starts with the slice and is filled up with zeros |
| `Ids.ShortFromSlice` | src/ids/short.rs:45-53 | The same for short ids |
| `Ids.Prefix` | src/ids/mod.rs:84-95 | Succeeds exactly for at most one prefix, because the packer gets one byte per prefix, and then is the hash of prefix and id |
| `Utxos.NewUtxoId` | src/txs/utxo.rs:42-52 | Never fails on a transaction id of at most 32 bytes |
| `Transferables.OutputExact` | src/txs/mod.rs:98-206 | The grammar of an output (type ids 7 and 22, the lock-out with its inner type word 7) decodes in one way and accepts nothing else |
| `Transferables.InputExact` | src/txs/mod.rs:210-310 | The grammar of an input (type ids 5 and 21, the lock-in without inner type word) likewise |
| `Transferables.OutputEnc` | src/txs/mod.rs:98-206 | What the code writes for an output is what the grammar writes, and is readable exactly when no length lost bits |
| `Transferables.InputEnc` | src/txs/mod.rs:210-310 | The same for an input |
| `Transferables.PackOwners` | src/txs/mod.rs:139-158 | Owners are written whole or as a prefix |
| `Transferables.PackOutputBody` | src/txs/mod.rs:122-193 | The transfer variant wins when both are present |
| `Transferables.PackOutput` | src/txs/mod.rs:102-203 | An output with neither variant fails after its asset id; any other is written whole or as a prefix |
| `Transferables.PackOutputs` | src/txs/mod.rs:98-206 | None and the empty list are written alike, as a zero count |
| `Transferables.PackInputBody` | src/txs/mod.rs:242-300 | The transfer variant wins when both are present |
| `Transferables.PackInput` | src/txs/mod.rs:214-310 | An input with neither variant fails; any other is written whole or as a prefix |
| `Transferables.PackInputs` | src/txs/mod.rs:210-310 | None and the empty list are written alike, as a zero count |
| `Txs.TxExact` | src/txs/mod.rs:80-326 | The grammar of packed transactions accepts their encodings and nothing else |
| `Txs.PackedCastsFit` | src/txs/mod.rs:80-326 | Whenever packing succeeds no `len() as u32` lost bits: the cap bounds outputs, addresses, inputs, indices and memo |
| `Txs.PackedDecodes` | src/txs/mod.rs:80-326 | Decoding the packed bytes of any packable transaction gives it back up to what the wire keeps |
| `Txs.PackedInjective` | src/txs/mod.rs:80-326 | Two packable transactions have equal bytes if and only if version, type id and everything the wire keeps agree |
| `Txs.NormalSameBytes` | src/txs/mod.rs:80-326 | None against empty, the variant that loses, and metadata do not reach the wire |
| `Txs.Pack` | src/txs/mod.rs:80-326 | Succeeds exactly when each element has a variant and the encoding is at most 2^31-1 bytes, and then the packer holds it |
| `Sizes.OutputLength` | src/txs/mod.rs:98-206 | 60 bytes and 20 an address for a transfer output, 72 and 20 for a lock-out |
| `Sizes.InputLength` | src/txs/mod.rs:210-310 | 84 bytes and 4 an index for a transfer input, 92 and 4 for a lock-in |
| `Sizes.TxLength` | src/txs/mod.rs:80-326 | The exact size of every packed transaction: 54 bytes, its outputs and inputs, and the memo |
| `Layouts.OwnersLayout` | src/txs/mod.rs:141-151 | Locktime, threshold, address count and address k at offsets 0, 8, 12 and 16 + 20k |
| `Layouts.TransferOutputLayout` | src/txs/mod.rs:133-152 | Amount and owners at offsets 0 and 8 |
| `Layouts.OutputLayout` | src/txs/mod.rs:102-203 | An output is its asset id, then 0,0,0,7 and the transfer output, or 0,0,0,22, a locktime, 0,0,0,7 and the transfer output |
| `Layouts.TransferInputLayout` | src/txs/mod.rs:253-270 | Amount, index count and index k at offsets 0, 8 and 12 + 4k |
| `Layouts.InputLayout` | src/txs/mod.rs:214-310 | An input is its transaction id, index and asset id, then 0,0,0,5 and the transfer input, or 0,0,0,21, a locktime and the transfer input |
| `Layouts.TxLayout` | src/txs/mod.rs:80-326 | Where everything in a packed transaction is: the fixed fields, each output and input with its type ids in numbers, and the memo |
| `Layouts.PackTx` | src/txs/mod.rs:80-326 | The same of the bytes that packing hands out, which is possible exactly for legal transactions of at most 2^31-1 bytes |
| `Layouts.CredLayout` | src/avm/txs/import.rs:228-240 | A credential is 0,0,0,9, its signature count and signature j at offset 8 + 65j |
| `Layouts.CredsLayout` | src/avm/txs/import.rs:205-240 | The credential count, then credential k behind the ones before it |
| `Layouts.ImportLayout` | src/avm/txs/import.rs:69-193 | The bytes of an import, signed or not, have the type id 0,0,0,3 at offset 2 and hold the base transaction, the source chain and each input with its type id |
| `Layouts.ExportLayout` | src/avm/txs/export.rs:72-203 | The bytes of an export, signed or not, have the type id 0,0,0,4 at offset 2 and hold the base transaction, the destination chain and each output with its type ids |
| `Layouts.UtxoLayout` | src/txs/utxo.rs:196-240 | The fields of a packed utxo at offsets 0, 2, 34, 38 and 70, with the type ids 7 and 22 in numbers |
| `Layouts.VertexLayout` | src/avm/txs/vertex.rs:31-44 | The fields of a packed vertex at offsets 0, 2, 34, 42 and 46, then the transactions |
| `Layouts.ParentsLayout` | src/avm/txs/vertex.rs:36-39 | The count of the parents and parent j at offset 4 + 32j |
| `Layouts.TxsLayout` | src/avm/txs/vertex.rs:41-44 | The count of the transactions, and transaction k behind its length |
| `Layouts.EndpointLayout` | src/packer/ip.rs:25-40 | An IPv4 address is written as twelve zeros and its octets, an IPv6 one as it is, and the port follows |
| `Signing.SignRowsShape` | src/avm/txs/import.rs:211-227 | The signatures have the shape and order of the signer matrix, each over the hash of the unsigned bytes |
| `Signing.CredsDecode` | src/avm/txs/import.rs:205-240 | The suffix decodes to the credentials in signer order and shape whenever their count is below 2^32 |
| `Signing.LostCredentials` | src/avm/txs/import.rs:205-240 | With 2^32 empty credentials the count is written as 0 and none can be read back |
| `Signing.AnsweredMeans` | src/avm/txs/import.rs:211-227 | The rows collected are exactly those before the first row with a signer that fails, each with the answers of its signers in order |
| `Signing.SignedAsMeans` | src/avm/txs/import.rs:195-251 | What a call leaves behind, spelled out: on failure the old metadata; on success unsigned bytes that start the signed ones, whose hash is the id, and one credential a row; the credentials hold every answer before the first failure |
| `Signing.SignedAsOk` | src/avm/txs/import.rs:195-251 | A call succeeds if and only if the transaction is legal, every signer answers, and 4 bytes, 8 a credential and 65 a signature behind the unsigned bytes keep them within 2^31-1 |
| `Signing.SignedImportDecodes` | src/avm/txs/import.rs:69-251 | The signed bytes of an import decode, in one way, to what was signed and the credentials |
| `Signing.SignedExportDecodes` | src/avm/txs/export.rs:72-261 | The same for an export |
| `Signing.SignAll` | src/avm/txs/import.rs:211-227 | Asks the signers in order and stops at the first that fails, with the rows completed so far |
| `Signing.Seal` | src/avm/txs/import.rs:195-251 | Take the bytes, put them back, hash, collect, append: succeeds exactly when every signer answers and the result fits |
| `Signing.PackImport` | src/avm/txs/import.rs:69-193 | The base transaction survives the hand-over of bytes and the import fields follow it |
| `Signing.PackExport` | src/avm/txs/export.rs:72-203 | The base transaction survives the hand-over of bytes and the export fields follow it |
| `Signing.ImportTx.constructor` | src/avm/txs/import.rs:40-46 | A new import has no credentials |
| `Signing.ImportTx.Sign` | src/avm/txs/import.rs:69-251 | The whole state after signing: on failure the base transaction is the old one, on success the metadata is sealed over the unsigned bytes; the credentials hold the answers of the rows before the first failing one, or are the old ones if nothing could be asked |
| `Signing.ExportTx.constructor` | src/avm/txs/export.rs:42-47 | A new export has no credentials |
| `Signing.ExportTx.Sign` | src/avm/txs/export.rs:72-261 | The same for exports |
| `Signing.SignImportTwice` | src/avm/txs/import.rs:69-251 | Signing an import again with signers that answer alike gives the same metadata and credentials |
| `Signing.SignExportTwice` | src/avm/txs/export.rs:72-261 | The same for an export |
| `Orders.CompareBigEndian` | src/txs/utxo.rs:55-63 | Integers compare as their big-endian bytes do |
| `Orders.CompareMeans` | src/ids/mod.rs:410-420 | Bytes come first exactly if they are smaller at the first difference, or end there |
| `Orders.CompareTransitive` | src/ids/mod.rs:410-420 | Byte order is transitive |
| `Orders.IdsOrder` | src/ids/mod.rs:450-461 | Length-first comparison of id lists is the byte order of a u32 count followed by the ids |
| `Orders.ShortIdsOrder` | src/ids/short.rs:328-339 | The same for short ids, whatever follows |
| `Orders.UtxoIdCmpIsByteOrder` | src/txs/utxo.rs:55-63 | The comparison of utxo ids is the byte order of the 36 bytes of transaction id and index |
| `Orders.InputCmpIsByteOrder` | src/txs/transferable.rs:449-458 | The comparison of inputs is the order of those 36 bytes, and where it decides it is the order of the whole packed inputs |
| `Orders.OutputCmpIsByteOrder` | src/txs/transferable.rs:50-112 | The comparison of outputs is the byte order of what Tx::pack writes for them, and equal means written identically |
| `Sorting.SortBySorts` | src/avm/txs/vertex.rs:22-25 | Sorting gives a permutation in which no key is below its predecessor |
| `Sorting.SortByFixes` | src/avm/txs/vertex.rs:22-30 | A sorted list stays as it is |
| `Sorting.SortByStable` | src/avm/txs/vertex.rs:22-30 | Elements with equal keys keep their order |
| `Sorting.SortAlikeIff` | src/avm/txs/vertex.rs:22-30 | Two lists sort to the same list if and only if they have the same elements with each key, in the same order |
| `Sorting.SortAlike` | src/txs/raw.rs:38-44 | Permutations of each other sort to the same list when equal keys mean equal elements |
| `Vertices.VertexRoundTrip` | src/avm/txs/vertex.rs:20-85 | A packed vertex unpacks to itself if and only if no length lost bits |
| `Vertices.VertexReencodes` | src/avm/txs/vertex.rs:52-85 | On arbitrary bytes, writing the vertex read in the order it has gives exactly the bytes consumed |
| `Vertices.VertexRepacksIff` | src/avm/txs/vertex.rs:20-85 | Packing the vertex read, which sorts it first, gives the bytes consumed if and only if its parents and transactions were in order |
| `Vertices.VertexNotRepackable` | src/avm/txs/vertex.rs:20-85 | An input for which it does not: two parents in descending order |
| `Vertices.UnpackThenPack` | src/avm/txs/vertex.rs:20-85 | The session on arbitrary bytes: packing what was unpacked succeeds exactly if the consumed bytes fit, gives as many bytes, and the same ones if and only if the lists were in order |
| `Vertices.SortedPermutes` | src/avm/txs/vertex.rs:20-30 | Sorting permutes parents and transactions and nothing else, and changes nothing if and only if they were in order |
| `Vertices.SortedFits` | src/avm/txs/vertex.rs:20-49 | Sorting neither makes nor breaks the casts of lengths |
| `Vertices.SortedAlikeIff` | src/avm/txs/vertex.rs:20-30 | Two vertices sort alike if and only if they are permuted and transactions that share a hash have the same order |
| `Vertices.PackedVertexCanonical` | src/avm/txs/vertex.rs:20-49 | Equal bytes if and only if the vertices differ in order alone and transactions that share a hash have the same order; with no shared hash, if and only if they differ in order alone |
| `Vertices.PackVertex` | src/avm/txs/vertex.rs:20-49 | Leaves the vertex sorted, parents by bytes and transactions by hash, and writes it whole or as a prefix |
| `Vertices.UnpackVertex` | src/avm/txs/vertex.rs:52-85 | Agrees with the reference decoder on arbitrary bytes |
| `Hex.DecodeIff` | src/formatting/mod.rs:99-112 | Base 16 of either case decodes to exactly the bytes it spells (section 8 of RFC 4648) |
| `Hex.EncodePlain` | src/formatting/mod.rs:84-95 | Encoded text is lowercase digits, so it has no 'x' to trim |
| `Hex.EncodeDigits` | src/formatting/mod.rs:84-95 | Characters 2i and 2i+1 spell b[i] / 16 and b[i] % 16 in lower case |
| `Hex.DecodeSpells` | src/formatting/mod.rs:99-112 | Text decodes to b if and only if it has two digits for each byte and they spell b[i] / 16 and b[i] % 16 |
| `Hex.CheckedText` | src/formatting/mod.rs:84-95 | Encoded text decodes to the data and the last four bytes of its hash |
| `Hex.AcceptedIff` | src/formatting/mod.rs:99-127 | Text that decodes to b is accepted if and only if the last four bytes of b are bytes 28 to 32 of the hash of the others, and then as those others |
| `Hex.DecodeWithChecksumIff` | src/formatting/mod.rs:99-127 | Text is accepted with value d if and only if, up to case, it is the encoding of d with its hash tail |
| `Hex.TrimMeans` | src/txs/utxo.rs:183-193 | Trimming takes off every leading 0x and nothing else; text without one stays as it is |
| `Hex.TrimOnce` | src/txs/utxo.rs:183-193 | Repeated trimming takes off only the one prefix |
| `Utxos.UtxoExact` | src/txs/utxo.rs:243-342 | The grammar that unpack reads is exact |
| `Utxos.UtxoRoundTrip` | src/txs/utxo.rs:196-342 | Unpacking a packed utxo with a variant gives it back, the transfer variant if both are present |
| `Utxos.UtxoReencodes` | src/txs/utxo.rs:196-342 | The encoding of whatever unpacks has the length of the bytes consumed, and is those bytes but for the ignored inner type word of a lock-out, at offset 82, which becomes 7 |
| `Utxos.UnpackThenPack` | src/txs/utxo.rs:196-342 | The session on arbitrary bytes: packing what was unpacked succeeds exactly if at most 2^31-1 bytes were consumed, and gives them back unchanged if and only if no inner type word differed from 7 |
| `Utxos.NoVariantNeverUnpacks` | src/txs/utxo.rs:210-240 | A utxo with neither variant is packed and its bytes never unpack |
| `Utxos.PackUtxo` | src/txs/utxo.rs:196-240 | Succeeds exactly when the encoding fits the cap |
| `Utxos.UnpackUtxo` | src/txs/utxo.rs:243-342 | Agrees with the reference decoder on arbitrary bytes |
| `Utxos.ToHex` | src/txs/utxo.rs:174-180 | 0x and text that decodes to the packed bytes and the last four bytes of their hash |
| `Utxos.FromHex` | src/txs/utxo.rs:183-193 | Trims, decodes, compares the last four bytes with those of the hash of the others, and unpacks the others |
| `Utxos.HexRoundTrip` | src/txs/utxo.rs:174-193 | A utxo with a variant that fits comes back from its hex form; one without is refused |
| `Bits.RawBytes` | src/ids/mod.rs:99-103 | The machine bytes that the masks are applied to are the bytes of the id, one for one |
| `Bits.BitMeans` | src/ids/mod.rs:99-118 | Bit i of an id is the binary digit of byte i / 8 that is worth 2^(i % 8) |
| `Bits.IdBit` | src/ids/mod.rs:99-118 | The shift and mask give bit i % 8, from the least significant, of byte i / 8 |
| `Bits.EqualSubsetMeans` | src/ids/bits.rs:9-54 | The masked comparison is true exactly when all bits in the range agree or the range is empty, and false when a range that is not empty passes bit 256 |
| `Bits.MaskedDifference` | src/ids/bits.rs:174-214 | Under a mask of the bits [s, t) two bytes are equal exactly when those bits agree, and otherwise the trailing zeros of their difference are the first that does not |
| `Bits.FirstDifferenceSubset` | src/ids/bits.rs:160-230 | Returns the least differing bit of the range exactly when there is one within an id, and (0, false) otherwise |
| `Bits.UnequalIffFirstDiffers` | src/ids/bits.rs:9-230 | Within an id, a range is unequal exactly when it has a first differing bit, so each function is the negation of the other |
| `Voters.OrMembers` | src/ids/bits.rs:399-401 | Bitwise or is set union |
| `Voters.AndMembers` | src/ids/bits.rs:404-406 | Bitwise and is set intersection |
| `Voters.AndNotMembers` | src/ids/bits.rs:409-412 | And-not is set difference |
| `Voters.OnesBelow` | src/ids/bits.rs:431-434 | Counting 1 bits is counting elements |
| `Voters.Set64.constructor` | src/ids/bits.rs:389-391 | The empty set |
| `Voters.Set64.Add` | src/ids/bits.rs:394-396 | Adds one element and no other |
| `Voters.Set64.Union` | src/ids/bits.rs:399-401 | The union |
| `Voters.Set64.Intersection` | src/ids/bits.rs:404-406 | The intersection |
| `Voters.Set64.Difference` | src/ids/bits.rs:409-412 | The difference |
| `Voters.Set64.Remove` | src/ids/bits.rs:415-418 | Removes one element and no other |
| `Voters.Set64.Clear` | src/ids/bits.rs:421-423 | The empty set |
| `Voters.Set64.Has` | src/ids/bits.rs:426-428 | Membership |
| `Voters.Set64.Len` | src/ids/bits.rs:431-434 | The cardinality |
| `Voters.Set64.IsEmpty` | src/ids/bits.rs:437-439 | Whether the set is empty |
| `Bags.TotalPart` | src/ids/bag.rs:139-161 | Inclusion one way with equal totals and positive counts is equality |
| `Bags.StepKeeps` | src/ids/bag.rs:96-131 | Each call keeps the caches equal to a recount |
| `Bags.RunKeeps` | src/ids/bag.rs:96-131 | In every reachable bag size is the total, no count is 0, the mode attains the maximum, and exactly the ids at or above the threshold met it |
| `Bags.RunMeans` | src/ids/bag.rs:96-137 | The caches of every reachable bag in terms of the calls alone: size, counts, highest frequency and the ids that met the last threshold |
| `Bags.RunMode` | src/ids/bag.rs:111-131 | At a tie the mode is the id that first reached the final frequency |
| `Bags.RunCounts` | src/ids/bag.rs:96-137 | After any run the count of an id is the sum of what was added for it |
| `Bags.OrderIrrelevant` | src/ids/bag.rs:96-131 | The same calls in any order with the same last threshold give the same bag but for the mode, which then is a tie |
| `Bags.FilterTwice` | src/ids/bag.rs:165-176 | Filtering by adjoining ranges is filtering by the whole range |
| `Bags.SplitPartitions` | src/ids/bag.rs:180-191 | The halves are disjoint, give the bag back, and their totals add up |
| `Bags.FirstDifferenceSeparates` | src/ids/bag.rs:165-191 | Two votes that first differ at d survive the filter on the bits before d and are separated by the split at d |
| `Bags.Bag.constructor` | src/ids/bag.rs:35-46 | The empty bag |
| `Bags.Bag.DeepCopy` | src/ids/bag.rs:48-59 | A bag with the same content and caches |
| `Bags.Bag.IsEmpty` | src/ids/bag.rs:61-63 | True exactly when nothing is counted |
| `Bags.Bag.SetThreshold` | src/ids/bag.rs:96-109 | The early return and the rebuilding loop both leave exactly the ids that meet the new threshold |
| `Bags.Bag.AddCount` | src/ids/bag.rs:111-131 | Updates the caches for one id, and they equal a recount |
| `Bags.Bag.Equals` | src/ids/bag.rs:139-161 | True if and only if the count maps are equal, although only size and one inclusion are checked |
| `Bags.Bag.Filter` | src/ids/bag.rs:165-176 | A new bag with exactly the votes that agree bit by bit, in whatever order the map is walked |
| `Bags.Bag.Split` | src/ids/bag.rs:180-191 | Two new bags with exactly the votes of either bit, whose sizes add up |
| `Uniques.UnionedPairs` | src/ids/bag.rs:334-341 | union_set adds exactly the pairs of the id and the set |
| `Uniques.LessenedPairs` | src/ids/bag.rs:343-347 | difference_set removes exactly those pairs |
| `Uniques.AddedPairs` | src/ids/bag.rs:349-356 | add adds exactly the pairs of the ids and the one voter |
| `Uniques.WithoutPairs` | src/ids/bag.rs:358-364 | difference removes exactly the other pairs |
| `Uniques.RemovedPairs` | src/ids/bag.rs:374-376 | remove_set removes exactly the pairs of the id |
| `Uniques.TallyTotal` | src/ids/bag.rs:386-394 | The counts of the tally add up to the number of pairs |
| `Uniques.Unique.constructor` | src/ids/bag.rs:329-332 | No votes |
| `Uniques.Unique.UnionSet` | src/ids/bag.rs:334-341 | Updates the cell of the id or adds a cell of its own |
| `Uniques.Unique.DifferenceSet` | src/ids/bag.rs:343-347 | Updates the cell of the id if there is one |
| `Uniques.Unique.Add` | src/ids/bag.rs:349-356 | One voter joins the set of every id in the list |
| `Uniques.Unique.Difference` | src/ids/bag.rs:358-364 | Every cell loses the voters of the other map |
| `Uniques.Unique.GetSet` | src/ids/bag.rs:366-372 | A copy of the set, empty if there is no cell |
| `Uniques.Unique.RemoveSet` | src/ids/bag.rs:374-376 | Drops the cell |
| `Uniques.Unique.Clear` | src/ids/bag.rs:396-398 | Drops all cells |
| `Uniques.Unique.Bag` | src/ids/bag.rs:386-394 | Counts each id by its distinct voters, drops ids without any, has size equal to the number of pairs, and meets the threshold exactly for at least alpha voters |

## Left out

- SHA-256, RIPEMD-160 and the signature algorithms are parameters: a function to 32 bytes, and for every signer a function from a digest to a 65-byte signature or a failure. Injectivity of the hash is assumed only where a statement says so (`Vertices.HashesApart`).
- Awaiting a signer: the calls are made one after the other, as the code awaits them.
- Error messages and the retryable flag: an error is one of the kinds in `Bytes.Error`.
- usize overflow of offset + n: offsets and lengths are unbounded.
- Allocation: the capacity of the buffer is an arbitrary number of at least its length.
- Trace output of the packer.
- Unpacking from a packer that is being packed, and the reverse, which the code does not support.
- The standard library's sort is an insertion sort on values; what is used of it is that it sorts and is stable (`Sorting.SortBySorts`, `Sorting.SortByStable`), which determine its result (`Sorting.SortAlikeIff`).
- Strings are their UTF-8 bytes, since that is what the packer stores; `Texts.Utf8Iff` relates them to scalar values.
- Hash map iteration picks any remaining entry. The mode among ties after filter, split or a tally is therefore not determined.
- Ids are sequences of integers below 256 on the wire and of 8-bit words in `Bits`; `Bits.Raw` converts between them.
- Loops that the source writes inside one function are methods of their own where a proof needs it (`PackEachAddress`, `DifferenceInBytes`, `DealAll`, `AddCell` and the like).
- Set64 indices of 64 and above, bag totals above 32 bits, a bit index of 256 and above in split, `Unique::difference` with itself or with shared cells: out of contract, hence preconditions.
- `Output::cmp` when a variant it unwraps is absent panics; `Orders.CmpPanics` is its precondition and `Orders.OutputCmpIsByteOrder` speaks of outputs that can be packed.
- Hex text of fewer than four decoded bytes panics; `Hex.LongEnough` excludes it.
- Txs.PackInto: for an element without a variant it states only that packing fails, not how much was written before, because the packer is dropped then.
- Signing.Seal: after a failure it does not state what the packer holds, because the packer is dropped then.
- Bag.list and Unique.list: the keys in some order, an easy member.
- CB58, bech32, serde, prost and gzip, message framing, JSON-RPC, wallet, genesis and network tables: thin wrappers or easy.
