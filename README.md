# reftable core in Dafny

reftable stores git references and reflog entries in immutable, sorted table
files, and keeps an ordered *stack* of those tables, named one per line in a
`tables.list` manifest. This project models three parts of that system and
proves properties about them:

- **Records** (`record.go`). These are the varint encoding, the
  prefix-compressed key, and the four record kinds: ref, object, index and
  log. Each kind has a type, a key, a value type, a tombstone test and an
  encode/decode pair. Encoders take the room left in the buffer and report
  when the record does not fit. Decoders return an error on malformed input.
- **Blocks** (`c/block.c`). The block writer appends prefix-compressed
  entries and records a restart point every 16 entries. It finishes the
  block with the restart table and the restart count. The block reader checks
  the header, and its iterator walks the entries and seeks a key: a search
  over the restart points, then a linear scan.
- **The stack** (`stack.go`). This covers:
  - reading the manifest;
  - reloading the stack, reusing readers that are already open;
  - adding a table under the `tables.list.lock` lock;
  - compacting a range of tables under per-table locks;
  - the automatic compaction policy. The policy groups tables into segments
    by the binary logarithm of their size and picks one segment to merge.

The file system is a class. It holds a map from paths to contents and a
counter for temporary names (`FileSystems.FileSystem`); each call takes a flag
saying whether the operating system refuses it, and the stack's transactions
take the set of failing steps (`Readers.Step`). The stack is a class over that
file system (`Stacks.Stack`). Its transactions are methods whose
postconditions give the new file system and stack state outright. Record
encoders and decoders are functions, with round-trip lemmas beside them. The
block writer and the block iterator are classes over a byte sequence, as
their C structs are.

Integers of fixed width are written out: `U64` is `0 <= x < 2^64`, and the
wrap-around of unsigned subtraction and addition is explicit (`Bytes.Sub64`,
`Bytes.Add64`). The same goes for Go's `int(x)` conversion of a `uint64`
(`Keys.GoInt`).

## Model

| member | source | states |
|---|---|---|
| Bytes.Sub64 | record.go:280-295 | unsigned 64-bit subtraction: the difference, plus 2^64 when it would be negative |
| Bytes.Add64 | record.go:328-340 | unsigned 64-bit addition: the sum, minus 2^64 when it reaches 2^64 |
| Bytes.BigEndianRoundTrip | record.go:477-481 | reading back a big-endian field of a given width gives the value modulo 256^width |
| Bytes.CommonPrefix | record.go:96 | the length of the longest common prefix: both keys agree up to it and differ at it, unless one of them ends there |
| Bytes.Compare | c/block.c:246 | the byte-wise comparison is negative, zero or positive exactly when the first key is less than, equal to or greater than the second |
| Bytes.LessIrreflexive | c/block.c:350 | no key is less than itself |
| Bytes.LessAsymmetric | c/block.c:350 | two keys are never each less than the other |
| Bytes.LessTotal | c/block.c:350 | of two keys, one is less than the other or they are equal |
| Bytes.LessTransitive | c/block.c:350 | key order is transitive |
| Bytes.LessPrefix | c/block.c:350 | a shared prefix does not change the order of two keys |
| VarInt.Parse | record.go:52-67 | `getVarInt` with the truncated case corrected: it fails, or reads one to all of the bytes; `VarInt.ParseBounds` and `VarInt.RoundTrip` state where it stops and what it returns |
| VarInt.ParseBounds | record.go:52-67 | a varint that decodes ends at the first byte below 128, and every byte before it is at least 128 |
| VarInt.EncodingShape | record.go:69-92 | every encoding is 1 to 10 bytes long; its last byte is below 128 and all others are at least 128 |
| VarInt.RoundTrip | record.go:52-92 | decoding the encoding of a value, whatever follows it, gives the value back and consumes exactly the encoding |
| VarInt.EncodingInjective | record.go:69-92 | two values with the same encoding are equal |
| VarInt.ScratchEncoding | record.go:70-85 | the scratch-buffer loop leaves the encoding of the value in the tail of a 10-byte buffer |
| VarInt.PutVarInt | record.go:69-92 | succeeds exactly when the encoding fits in the room left, writes the encoding there and changes no other byte; on failure it writes nothing and returns 0 |
| VarInt.GetVarInt | record.go:52-67 | returns the value and length of the leading varint; an empty buffer or a varint with no final byte gives length -1 |
| VarInt.GetVarIntAsWritten | record.go:52-67 | `getVarInt` as written, out-of-range read included; `VarInt.AsWrittenGuardNeverFires` and `VarInt.TrailingContinuationByte` state how it differs from the corrected decoder |
| VarInt.AsWrittenGuardNeverFires | record.go:58-63 | as written, the bounds check after the continuation loop never reports failure; the decoder reads past the end exactly where the model reports failure, and agrees with the model everywhere else |
| VarInt.TrailingContinuationByte | record.go:58-63 | the input `[0x80]` reads out of range as written and fails in the model |
| Keys.EncodeKey | record.go:94-119 | `encodeKey`, step by step against the room left; `Keys.EncodeKeyFits` and `Keys.KeyRoundTrip` state its results |
| Keys.EncodeKeyFits | record.go:94-119 | the key is a restart exactly when it shares no prefix with the previous key; it fits exactly when its bytes fit in the room, and then those bytes are written |
| Keys.RestartIffNoSharedPrefix | record.go:96-97 | a restart happens exactly when the previous key is empty, the key is empty, or their first bytes differ |
| Keys.KeyBytesShape | record.go:94-119 | the key bytes are the shared-prefix length, then the suffix length times 8 plus the value type, then the suffix |
| Keys.DecodeKey | record.go:423-452 | `decodeKey` with the prefix check corrected; `Keys.KeyRoundTrip`, `Keys.DecodeKeyConsumes` and `Keys.DecodeKeyFailures` state when it succeeds and what it returns |
| Keys.KeyRoundTrip | record.go:423-452 | decoding an encoded key against the same previous key gives back the key and the value type, and consumes exactly the key bytes |
| Keys.DecodeKeyConsumes | record.go:423-452 | a decoded key consumes at least two bytes and no more than the buffer |
| Keys.DecodeKeyFailures | record.go:439-445 | once both varints decode, decoding fails exactly when the prefix is longer than the previous key or the suffix is longer than the bytes left |
| Keys.DecodeRestartKey | record.go:399-421 | `decodeRestartKey`; `Keys.RestartKeyNeedsZero` and `Keys.RestartKeyRoundTrip` state when it fails and what it reads |
| Keys.RestartKeyNeedsZero | record.go:405-407 | a restart key whose prefix length byte is not zero is rejected |
| Keys.RestartKeyRoundTrip | record.go:399-421 | the key written at a restart point is decoded in full from its offset |
| Keys.GoInt | record.go:443 | Go's `int` of a `uint64` keeps values below 2^63 and turns the others negative |
| Keys.DecodeKeyAsWritten | record.go:423-452 | `decodeKey` as written, panic included; `Keys.DecodeKeyAsWrittenAgrees` and `Keys.HugePrefixLength` compare it with the corrected decoder |
| Keys.DecodeKeyAsWrittenAgrees | record.go:423-452 | as written, `decodeKey` either panics on the prefix slice or agrees with the model |
| Keys.HugePrefixLength | record.go:441-449 | a prefix length of 2^63 against an empty previous key passes the check and panics as written; it is a format error in the model |
| Records.StringBytes | record.go:458-471 | a length-prefixed string is the varint of its length followed by its bytes |
| Records.PutString | record.go:458-471 | `encodeString` as two steps against the room left; `Records.PutStringIsAppend` states its result |
| Records.PutStringIsAppend | record.go:458-471 | `encodeString` appends those bytes when they fit in the room left and fails otherwise |
| Records.DecodeString | record.go:553-566 | a decoded string is shorter than the bytes it consumes, and those lie within the buffer |
| Records.StringRoundTrip | record.go:553-566 | decoding an encoded string, whatever follows it, gives the string back and consumes exactly its bytes |
| Records.DecodeStringFails | record.go:553-566 | decoding fails exactly when the length varint is malformed or the length exceeds the bytes left |
| Records.DecodeStringAsWritten | record.go:553-566 | `decodeString` as written, panic included; `Records.DecodeStringAsWrittenAgrees` and `Records.HugeStringLength` compare it with the corrected decoder |
| Records.DecodeStringAsWrittenAgrees | record.go:553-566 | as written, `decodeString` either panics on the slice, exactly when the length is at least 2^63 and exceeds the bytes left, or agrees with the model |
| Records.HugeStringLength | record.go:559-562 | a string length of 2^63 with nothing after it panics as written; it is a format error in the model |
| Records.RefValType | record.go:185-197 | the value type of a ref record is 0 to 3 |
| Records.RefValTypeCases | record.go:136-197 | type 2 means object id and peeled id, 1 an object id alone, 3 a symbolic target with no object id; type 0 is exactly a tombstone |
| Records.RefEncode | record.go:199-235 | `RefRecord.encode`, step by step; `Records.RefEncodeFits` and `Records.RefRoundTrip` state its result |
| Records.RefEncodeFits | record.go:199-235 | encoding a ref record writes its payload when it fits in the room left and fails otherwise |
| Records.RefPayloadFlat | record.go:199-235 | the payload is the update index, the object id, the peeled id and, when present, the length-prefixed target |
| Records.RefDecode | record.go:140-183 | a decoded ref record takes its name from the key and consumes no more than the buffer |
| Records.RefDecodeValue | record.go:151-180 | the value part consumes no more than the bytes left, and so does the target it reads |
| Records.RefRoundTrip | record.go:140-235 | decoding the payload of a well-formed ref record, with its value type and name, gives the record back and consumes exactly the payload |
| Records.RefDecodeWellFormed | record.go:140-183 | every ref record the decoder produces is well formed, so it round-trips |
| Records.ObjValType | record.go:257-264 | the value type is the number of offsets when that is 1 to 7, and 0 otherwise |
| Records.ObjEncode | record.go:266-297 | writes the count (unless the value type holds it), the first offset and the deltas between offsets when they fit in the room left, and fails otherwise |
| Records.ObjParse | record.go:299-341 | a decoded object record takes its hash prefix from the key and consumes no more than the buffer |
| Records.ObjCount | record.go:304-314 | the count is the value type when that is not zero, and is read from the buffer otherwise |
| Records.ObjCountRead | record.go:268-314 | the count the decoder reads from an encoded record is the number of its offsets |
| Records.DecodeDeltas | record.go:328-340 | decoding the deltas gives exactly the expected number of offsets, from bytes within the buffer |
| Records.OffsetsParse | record.go:316-340 | decoding the offsets gives exactly the expected number of them, from bytes within the buffer |
| Records.DecodeDeltasLoop | record.go:328-340 | the loop over the remaining offsets succeeds exactly when the delta decoding does, and gives its offsets and length |
| Records.OffsetsDecode | record.go:316-340 | reading the first offset and then the deltas succeeds exactly when the offset decoding does, with its offsets and length |
| Records.ObjDecode | record.go:299-341 | the decoder succeeds exactly when the object record parses, and gives that record and length |
| Records.DeltasRoundTrip | record.go:280-340 | decoding the deltas written after an offset, with 64-bit wrap-around, gives the offsets back |
| Records.OffsetsRoundTrip | record.go:280-340 | decoding the first offset and its deltas gives every offset back and consumes exactly their bytes |
| Records.ObjRoundTrip | record.go:266-341 | decoding an encoded object record, with its value type and hash prefix, gives the record back and consumes exactly its payload |
| Records.IndexEncode | record.go:386-395 | `indexRecord.encode`; `Records.IndexRoundTrip` states its result |
| Records.IndexDecode | record.go:372-384 | `indexRecord.decode`; `Records.IndexRoundTrip` states that it reads back what `encode` wrote |
| Records.IndexRoundTrip | record.go:372-395 | an index record whose offset fits is written as one varint of 1 to 10 bytes, and decoding it with its key gives the record back |
| LogRecords.RevInt64 | record.go:454-456 | `revInt64`; `LogRecords.RevInt64Reverses` states that it is an order-reversing involution |
| LogRecords.RevInt64Reverses | record.go:454-456 | reversing a timestamp twice gives it back, and reversal turns the order of timestamps around |
| LogRecords.LogKey | record.go:477-481 | a log key is the ref name followed by nine bytes |
| LogRecords.LogKeyOrder | record.go:477-481 | for the same ref name, a later timestamp gives a smaller key, so newer entries sort first |
| LogRecords.LogDecodeKey | record.go:568-579 | a log key decodes exactly when it has at least ten bytes and a zero byte nine from the end |
| LogRecords.LogKeyRoundTrip | record.go:568-579 | decoding the key of a log record gives back its name and timestamp, and fails for an empty name |
| LogRecords.LogDecodeKeyInverse | record.go:568-579 | a key that decodes is the key of the record it decodes to, and that record has a name |
| LogRecords.LogValType | record.go:495-497 | the value type of a log record is always 1 |
| LogRecords.ZeroHash | record.go:500-505 | the stand-in for a missing hash is 20 zero bytes |
| LogRecords.OrZero | record.go:500-505 | a present hash is kept and a missing one becomes the zero hash |
| LogRecords.LogNormalize | record.go:499-509 | encoding first gives both hashes a value, the zero hash where one is missing, and changes no other field |
| LogRecords.LogNormalizeIdempotent | record.go:499-509 | normalising twice is normalising once, and a normalised record is never a tombstone |
| LogRecords.TzRoundTrip | record.go:626-628 | reading back the two bytes of a time-zone offset gives the signed 16-bit offset back |
| LogRecords.LogEncode | record.go:499-551 | `LogRecord.encode`, step by step; `LogRecords.LogEncodeFits` and `LogRecords.LogRoundTrip` state its result |
| LogRecords.LogEncodeFits | record.go:499-551 | encoding normalises the record and writes its payload when that fits in the room left, and fails otherwise |
| LogRecords.LogPayloadShape | record.go:499-551 | the payload is the old and new hash, the name, the email, the time, the time-zone offset and the message |
| LogRecords.LogFieldsBytes | record.go:522-549 | the fields after the hashes are the length-prefixed name and email, the varint time, two offset bytes and the length-prefixed message |
| LogRecords.ReadField | record.go:605-634 | reading one field consumes at least one byte and no more than the buffer; a truncated field fails, the time and time-zone fields included (the corrected decoder, see the finding for record.go:617-624) |
| LogRecords.ReadFields | record.go:605-634 | reading the fields in turn consumes no more than the buffer, and the first field that fails fails the read (corrected for the time and time-zone fields) |
| LogRecords.FieldsRoundTrip | record.go:598-634 | reading back encoded fields sets exactly those fields and consumes exactly their bytes |
| LogRecords.KeyOnly | record.go:582-591 | a log record built from a key alone has that name and timestamp and is a tombstone |
| LogRecords.WithHashes | record.go:594-603 | after the hashes are read, the record has the key's name and timestamp and both hashes |
| LogRecords.LogDecode | record.go:581-636 | the corrected `LogRecord.decode`: a decoded log record consumes no more than the buffer, and a key that does not decode fails |
| LogRecords.LogDecodeBody | record.go:593-636 | the payload after the key: the two ids, then the fields, consuming no more than the buffer |
| LogRecords.LogDecodeDeletion | record.go:589-591 | value type 0 decodes to a tombstone with the key's name and timestamp, consuming nothing |
| LogRecords.LogRoundTrip | record.go:499-636 | decoding the payload of a log record with its key gives back the normalised record, update index 0, and consumes exactly the payload |
| LogRecords.LogDecodeAsWritten | record.go:581-636 | `LogRecord.decode` as written, with its named results: a key that does not decode reports failure, and a reported success covers no more than the buffer |
| LogRecords.FieldsAsWritten | record.go:605-636 | the as-written steps after the ids: a reported success covers no more than the bytes read before and the bytes given |
| LogRecords.TailAsWritten | record.go:617-636 | the as-written steps from the time varint on, under the same bound |
| LogRecords.TailAsWrittenAgrees | record.go:617-636 | from the time varint on, the as-written steps agree with the corrected ones where those succeed, report failure only where those fail, and otherwise report success with a length no greater than the bytes left |
| LogRecords.FieldsAsWrittenAgrees | record.go:605-636 | the same after the ids, where a success reported as written but not by the corrected reads falls short of the two strings read |
| LogRecords.LogDecodeAsWrittenAgrees | record.go:581-636 | where the corrected decoder succeeds, the code as written returns the same record and length; it reports failure only where the corrected decoder fails; where only the corrected decoder fails, it reports success with a length short of the two ids and two strings read, and no message |
| LogRecords.TruncatedTimeReportsOk | record.go:617-620 | two zero ids and two empty strings with no time varint: the corrected decoder fails, the code as written reports `(-1, true)` |
| LogRecords.TruncatedTzReportsOk | record.go:622-624 | the same with the time 5 and one time-zone byte: the corrected decoder fails, the code as written reports `(1, true)` with the time set and no zone or message |
| AnyRecords.Type | record.go:121-123 | every record has one of the four block types |
| AnyRecords.ValType | record.go:185-197 | every value type fits in the three low bits of the suffix field |
| AnyRecords.TombstoneKinds | record.go:136-138 | object and index records are never tombstones; a ref record is one exactly when it has neither object id nor target, which is value type 0; a log record is one exactly when both hashes are missing |
| AnyRecords.IsTombstone | record.go:136-138 | the `IsTombstone` of each record kind; `AnyRecords.TombstoneKinds` states it: never for object and index records (record.go:253-255, 348-350), no object id and no target for a ref, no hashes for a log |
| Records.RefIsTombstone | record.go:136-138 | a ref record is a tombstone exactly when it has neither target nor object id; stated by `AnyRecords.TombstoneKinds`, which also ties it to value type 0 |
| LogRecords.LogIsTombstone | record.go:483-485 | a log record is a tombstone exactly when both hashes are missing; stated by `AnyRecords.TombstoneKinds`, and `LogRecords.LogNormalizeIdempotent` shows a normalised record is never one |
| AnyRecords.Encode | record.go:199-551 | each kind writes its payload when it fits in the room left and fails otherwise |
| AnyRecords.Decode | record.go:140-636 | decoding into a receiver consumes no more than the buffer and gives a record of the receiver's kind; the log case is the corrected `LogRecords.LogDecode` |
| AnyRecords.StoredKey | record.go:499-509 | the record as stored has the same type and key as the record written |
| AnyRecords.Key | record.go:125-127 | the `Key()` of each kind (also record.go:237-239, 352-354, 477-481): ref name, hash prefix, last key or log key; `AnyRecords.StoredKey` states that the stored record keeps its key, and `AnyRecords.NewRecordKey` that a record made from a key has that key |
| AnyRecords.RecordRoundTrip | record.go:140-636 | for every well-formed record, decoding its payload into a receiver of its kind, with its key and value type, gives back the record as stored |
| AnyRecords.NewRecord | record.go:23-45 | a record is made exactly for the four block types, and it has the requested type |
| AnyRecords.NewRecordKey | record.go:23-45 | the new record has the requested key, and is a tombstone unless it is an object or index record |
| Blocks.RestartPointsShape | c/block.c:92-113 | the restart points are at most 65535 entry offsets, each the offset of a flagged entry, strictly increasing, and the first entry is one when it is flagged |
| Blocks.RestartsShape | c/block.c:92-113 | a block's restart table has at most 65535 offsets, each the start of an entry, strictly increasing, and starting with the first entry |
| Blocks.RestartsSnoc | c/block.c:94-111 | adding an entry adds its offset to the restart table exactly when it shares no prefix with the previous key and the table is not full |
| Blocks.RestartTaken | c/block.c:94-111 | the restart table after an add is the old one, with the new entry's offset when it is taken as a restart |
| Blocks.EntriesSnoc | c/block.c:114 | the entry bytes of a block grow by exactly the new entry's bytes, at the old end |
| Blocks.EntriesSplit | c/block.c:55-82 | each entry's bytes sit between its offset and the next entry's offset |
| Blocks.OffsetsIncrease | c/block.c:114 | entry offsets strictly increase and stay within the entry bytes |
| Blocks.RestartsBelow | c/block.c:111 | every restart offset lies before the end of the entries |
| Blocks.Put | c/block.c:65-78 | writing bytes into the block buffer replaces exactly that slice |
| Blocks.U24sAt | c/block.c:121-124 | the restart table holds each restart offset as three big-endian bytes, in order |
| Blocks.Trailer | c/block.c:121-127 | the trailer is three bytes per restart point and two for the count |
| Blocks.PutTrailer | c/block.c:121-127 | the trailer written after the entries is the restart table followed by the two-byte restart count, and nothing else changes |
| Blocks.FinishImage | c/block.c:120-129 | after the trailer and the three-byte length are written, the buffer holds a finished block of those entries |
| Blocks.LayoutEmpty | c/block.c:32-41 | an empty writer has no entries, no restarts and no previous key |
| Blocks.LayoutShape | c/block.c:32-118 | a writer's state is its entries so far: the next offset, the entry count, the restart table and the last key all follow from them |
| Blocks.LayoutAdd | c/block.c:92-117 | adding an entry whose bytes and restart table still fit gives the state of the entries with it |
| Blocks.BlockWriter.Init | c/block.c:32-41 | a new writer writes the block type in the header; it then has no entries, entries start four bytes after the header, and the restart interval is 16 |
| Blocks.BlockWriter.WriterType | c/block.c:43-45 | the type byte in the writer's header, which `Blocks.BlockWriter.Init` sets to the type it was given |
| Blocks.BlockWriter.WriteEntry | c/block.c:55-78 | the key is marked a restart exactly when it shares no prefix with the previous key; it fits exactly when its key bytes and payload fit before the block size, and then they are written at the next offset |
| Blocks.BlockWriter.RegisterRestart | c/block.c:92-118 | the entry is kept exactly when it fits with the restart table and count; a rejected entry leaves the writer as it was |
| Blocks.BlockWriter.Add | c/block.c:49-90 | the record is added exactly when its entry, the restart table and the count fit in the block; otherwise the writer is unchanged; bytes already written stay as they were |
| Blocks.BlockWriter.Finish | c/block.c:120-148 | the block ends with the restart table and count, its length is written in the header, and the buffer holds a finished block of the added entries |
| Blocks.ReaderInit | c/block.c:154-207 | a block with an unknown type is a format error; otherwise the reader is over that data, with a restart count below 65536 and a block length below 2^32 |
| Blocks.RestartOffset | c/block.c:209-211 | a restart offset is a 24-bit value |
| Blocks.TrailerCount | c/block.c:189-190 | the last two bytes of a finished block are the restart count |
| Blocks.ReaderInitOf | c/block.c:154-207 | the reader's entries end where the restart table begins, and its full size is the table's block size, or the block's own size when that is 0 |
| Blocks.ReaderType | c/block.c:150-152 | the type byte at the reader's header offset; `Blocks.ReaderInitOf` and `Blocks.OpenFinished` keep the data and header offset, so it is the type the writer wrote |
| Blocks.OpenFinished | c/block.c:154-211 | opening a finished block gives a reader whose entries end where the writer's ended and whose restart offsets are the writer's restart table |
| Blocks.RestartOffsetFinished | c/block.c:209-211 | on a finished block, each restart offset the reader reads is the writer's |
| Blocks.IterStep | c/block.c:259-289 | a step ends exactly at the end of the entries; an entry read lies within them and has the receiver's kind |
| Blocks.EntryRead | c/block.c:259-289 | on a finished block, the step at an entry's offset reads back that entry's record as stored, with its key, and moves to the next entry |
| Blocks.InSyncNext | c/block.c:285-286 | after reading an entry, the iterator's last key is that entry's key |
| Blocks.FirstKey | c/block.c:291-305 | `block_reader_first_key`; `Blocks.FirstKeyFinished` states that on a finished block it is the first record's key |
| Blocks.FirstKeyFinished | c/block.c:291-305 | the first key of a finished block is the key of its first record |
| Blocks.RestartKeyFinished | c/block.c:225-250 | each restart point of a finished block is an entry that shares no prefix; comparing a key with it compares with that entry's key |
| Blocks.RestartKeyLess | c/block.c:225-250 | `restart_key_less`; `Blocks.RestartKeyLessOf` and `Blocks.RestartKeyFinished` state what it decodes and compares |
| Blocks.RestartKeyLessOf | c/block.c:225-250 | comparing with a restart point decodes the key there against an empty previous key and compares the wanted key with it |
| Blocks.FirstAtLeast | c/block.c:339-356 | the first record from a position whose key is not less than the wanted key: all before it are less |
| Blocks.ScanItem | c/block.c:339-356 | the scan stops before an entry whose key is not less than the wanted key, and moves past it otherwise |
| Blocks.ScanEnd | c/block.c:339-356 | the scan stops at the end of the entries |
| Blocks.ScanBroken | c/block.c:339-356 | the scan reports an error on an entry that does not decode |
| Blocks.FirstAtLeastStep | c/block.c:339-356 | the first key not less than the wanted one is the current one, or lies further on |
| Blocks.Scan | c/block.c:339-356 | the copy-and-step loop of `block_reader_seek`; `Blocks.ScanItem`, `Blocks.ScanEnd`, `Blocks.ScanBroken` and `Blocks.ScanFinished` state where it stops |
| Blocks.ScanFinished | c/block.c:339-356 | on a finished block, the scan from an entry stops at the first later record whose key is not less than the wanted key, with the key before it as the last key |
| Blocks.BelowRestart | c/block.c:322-333 | in increasing keys, starting from a record whose key is not greater than the wanted key skips no answer |
| Blocks.SeekEntry | c/block.c:327-333 | the scan starts at an entry no later than the answer, and the last key there is in step with it |
| Blocks.SeekFinished | c/block.c:315-364 | on a finished block with increasing keys, seeking stops at the first record whose key is not less than the wanted key: all before it are less, and the iterator's last key is in step |
| Blocks.BlockIter.Start | c/block.c:213-217 | a new iterator starts at the first entry with an empty last key |
| Blocks.BlockIter.CopyFrom | c/block.c:252-256 | the iterator takes the other's reader, offset and last key |
| Blocks.BlockIter.Next | c/block.c:259-289 | at the end it returns 1 and on a broken entry -1, changing nothing; otherwise it returns 0 with the record, and moves past the entry with its key as the last key |
| Blocks.BlockIter.Seek | c/block.c:315-364 | a failed restart search returns -1 and changes nothing; otherwise the iterator is on the reader, at the scan's stopping point, and the result is 0 unless the scan met a broken entry |
| Blocks.BlockIter.IterSeek | c/block.c:307-309 | seeking an iterator seeks on its own reader |
| FileSystems.FileSystem.Create | stack.go:220-227 | exclusive creation reports an existing file, fails when the fault is injected, and otherwise adds an empty file |
| FileSystems.FileSystem.CreateTemp | stack.go:249-252 | a temporary file gets a new name that was not in use, unless the fault is injected, in which case nothing changes |
| FileSystems.FileSystem.Write | stack.go:283-286 | writing replaces the contents of an existing file unless the fault is injected; otherwise nothing changes |
| FileSystems.FileSystem.Rename | stack.go:276-281 | renaming moves an existing file's contents to the new path, replacing what was there, unless the fault is injected |
| FileSystems.FileSystem.Remove | stack.go:229-234 | removing deletes an existing file unless the fault is injected; otherwise nothing changes |
| Readers.OpenReader | stack.go:121-129 | a reader opened on a table has the handle it was given and the table's name |
| Readers.NamesOf | stack.go:242-245 | the names of a stack are its readers' names, in order |
| Readers.CurOfReaders | stack.go:104-108 | the map of current readers holds a reader under its own name for every reader of the stack, and nothing else |
| Readers.CurOfOpen | stack.go:104-108 | when the stack's readers are open, the map sends no two names to the same reader, and every reader in it is open |
| Readers.LoadsStop | stack.go:117-133 | once loading a name fails, no later name is loaded |
| Readers.LoadsShape | stack.go:117-133 | each loaded name is either a reused reader or a new reader of that table; a failure stops at a name whose table cannot be opened |
| Readers.NoReuseOpensAll | stack.go:119-131 | without reuse every reader is opened afresh |
| Readers.LoadsOk | stack.go:117-133 | a reused reader is taken from the map at most once, and fresh readers get new handles |
| Readers.ReloadKeepsOpen | stack.go:135-141 | after a successful reload, every reader of the new stack is open, counting the unused old readers as closed |
| Readers.FailedReloadKeepsOpen | stack.go:110-114 | when a reload fails and only the readers it opened itself are closed, every reader of the old stack stays open |
| Manifest.Split | stack.go:77 | splitting on newlines gives at least one line |
| Manifest.JoinSplit | stack.go:77 | joining the lines with newlines gives back the contents |
| Manifest.SplitJoin | stack.go:77 | splitting names without newlines, joined with newlines, gives them back |
| Manifest.SplitNoNewline | stack.go:77 | no line contains a newline |
| Manifest.SplitAppend | stack.go:77 | splitting two texts joined by a newline gives the lines of the first, then the lines of the second |
| Manifest.Names | stack.go:79-84 | the split-and-filter of `readNames`; `Manifest.NamesAreNames` and `Manifest.NamesRoundTrip` state what it returns |
| Manifest.NamesAreNames | stack.go:79-84 | the names read are the non-empty lines, each a name without newline |
| Manifest.NamesRoundTrip | stack.go:77-84 | reading back names joined with newlines, as `add` writes them, gives the same names |
| Manifest.NamesAppend | stack.go:77-84 | the names of two texts joined by a newline are the names of the first, then those of the second |
| Manifest.NamesSkipBlank | stack.go:80-84 | blank lines are skipped |
| Manifest.NamesBlankLine | stack.go:80-84 | a leading blank line is skipped |
| Manifest.NamesTrailing | stack.go:80-84 | a trailing newline adds no name |
| Manifest.ReadNames | stack.go:69-87 | a missing manifest gives no names, an unreadable one an error, and a present one its non-empty lines |
| Manifest.Hex | stack.go:303 | the hex digits of a number are padded to at least the given width |
| Manifest.HexRoundTrip | stack.go:303 | the digits are hexadecimal digits and read back as the number |
| Manifest.HexWidth | stack.go:303 | a number below 16^width is written in exactly that many digits |
| Manifest.TableNameIsName | stack.go:276 | a new table's name is a non-empty line, so it survives the manifest round trip |
| Manifest.FormatName | stack.go:302-304 | `formatName`; `Manifest.FormatNameLength`, `Manifest.FormatNameInjective` and `Manifest.FormatNameExample` state its shape and that distinct ranges get distinct names |
| Manifest.FormatNameLength | stack.go:302-304 | names of indexes below 16^12 are 25 characters, with the dash at position 12 |
| Manifest.FormatNameInjective | stack.go:302-304 | different update-index ranges give different names |
| Manifest.FormatNameExample | stack.go:302-304 | the range 1 to 1 is named `000000000001-000000000001` |
| CompactFilters.WriteCompact | stack.go:353-423 | the output holds the merged ref records, less the dropped deletions, then the merged log records, less the expired ones, each in the merged order |
| CompactFilters.KeepRef | stack.go:382-384 | the ref filter of `writeCompact`; `CompactFilters.RefsKept` states what it keeps |
| CompactFilters.RefsKept | stack.go:382-384 | a ref record is kept unless the range starts at the bottom of the stack and it is a deletion; above the bottom every ref is kept; at the bottom no deletion remains |
| CompactFilters.KeepLog | stack.go:405-416 | the log filter of `writeCompact`; `CompactFilters.LogsKept` and `CompactFilters.ZeroExpirationKeepsAll` state what it keeps |
| CompactFilters.LogsKept | stack.go:405-416 | a log record is kept unless it is expired; without an expiration every log record is kept |
| CompactFilters.ZeroExpirationKeepsAll | stack.go:405-416 | an expiration whose fields are all zero keeps every log record |
| Compaction.Log2 | stack.go:564-577 | `log2`; `Compaction.Log2Bounds`, `Compaction.Log2Unique`, `Compaction.Log2Below64` and `Compaction.ComputeLog2` state its value |
| Compaction.Log2Bounds | stack.go:564-577 | the log2 of a positive size is the power of two at or below it: 2^l <= size < 2^(l+1) |
| Compaction.Log2Unique | stack.go:564-577 | that power is the only one |
| Compaction.Log2Below64 | stack.go:564-577 | the log2 of a 64-bit size is below 64 |
| Compaction.ComputeLog2 | stack.go:564-577 | the halving loop returns the log2 of its positive argument |
| Compaction.Runs | stack.go:579-597 | the segments of `sizesToSegments`; `Compaction.RunsAreRuns`, `Compaction.RunAt` and `Compaction.SizesToSegments` state what they are |
| Compaction.RunsAreRuns | stack.go:579-597 | the segments tile the tables in order, each a maximal run of tables with the same log2, adjacent runs have different log2, and each records its total size |
| Compaction.RunAt | stack.go:579-597 | each segment is non-empty, lies within the tables, totals its sizes, and has the log2 of its tables |
| Compaction.EqualRuns | stack.go:579-597 | tables of one size form a single segment with that size's log2 |
| Compaction.RunsLast | stack.go:579-597 | the last segment ends at the last table |
| Compaction.SegmentStep | stack.go:582-593 | each pass of the loop keeps the finished segments and the current one equal to the runs of the tables seen so far |
| Compaction.SizesToSegments | stack.go:579-597 | for positive sizes whose sum fits in 64 bits, the loop returns exactly the runs |
| Compaction.Pick | stack.go:602-611 | the segment picked has at least two tables |
| Compaction.PickIsFirstMinimum | stack.go:602-611 | nothing is picked exactly when every segment is a single table; otherwise the pick is the first segment of two or more tables with the smallest log2 |
| Compaction.PickStep | stack.go:603-611 | each pass of the loop skips single tables and replaces the pick only by a strictly smaller log2 |
| Compaction.WidenStep | stack.go:616-624 | taking in the table just before a segment adds its size to the total |
| Compaction.WidenTotals | stack.go:616-624 | widening keeps the end and the log2 of the segment, moves only its start down, and keeps its total right |
| Compaction.WidenStops | stack.go:616-624 | widening stops where the table before the segment has a larger log2 than the segment's total, or at the bottom |
| Compaction.WidenAbsorbs | stack.go:616-624 | every table widening took in had a log2 no larger than that of the total it joined |
| Compaction.Suggest | stack.go:599-627 | `suggestCompactionSegment`; `Compaction.SuggestNone`, `Compaction.SuggestOfPick`, `Compaction.SuggestBounds`, `Compaction.SuggestStops`, `Compaction.SuggestAbsorbs` and `Compaction.SuggestCompactionSegment` state its result |
| Compaction.SuggestNone | stack.go:599-614 | nothing is suggested exactly when every segment is a single table |
| Compaction.SuggestOfPick | stack.go:599-627 | the suggestion is the picked segment, widened |
| Compaction.SuggestBounds | stack.go:599-627 | a suggestion covers at least two tables within the stack and records their total size |
| Compaction.SuggestStops | stack.go:616-624 | the suggestion cannot be widened further |
| Compaction.SuggestAbsorbs | stack.go:599-627 | the suggestion ends where the picked segment ends, starts no later, and took in only tables that pass the test |
| Compaction.EqualSizesCompactWhole | stack.go:599-627 | two or more tables of one size are compacted all together |
| Compaction.SuggestEqualSizes | stack.go:599-627 | four tables of size 1 give the segment of all four, with total 4 |
| Compaction.SuggestNoRun | stack.go:599-614 | tables of sizes 100 and 1 give no suggestion |
| Compaction.SuggestWidens | stack.go:599-627 | tables of sizes 2, 1, 1 give the run of the two 1s widened by the 2, total 4 |
| Compaction.SuggestCompactionSegment | stack.go:599-627 | for positive sizes whose sum fits in 64 bits, the loops return the suggestion |
| Compaction.SegmentAt | stack.go:579-597 | every segment of a non-empty stack has at least one table and a log2 below 64 |
| Stacks.NextIndexAbove | stack.go:307-312 | an empty stack starts at update index 1; otherwise the next index is above every table's maximum, unless the top maximum is 2^64-1 and it wraps to 0 |
| Stacks.NextIndex | stack.go:307-312 | `NextUpdateIndex` over a list of tables; its contract is `Stacks.NextIndexAbove`: 1 for an empty list, otherwise one past the top table's maximum update index, wrapping to 0 at 2^64-1 |
| Stacks.Stack.NextUpdateIndex | stack.go:307-312 | the open stack's next update index is `NextIndex` of its tables, so `Stacks.NextIndexAbove` holds of it |
| Stacks.CompactionSizes | stack.go:546-553 | there is one size per table |
| Stacks.CompactionSizesPositive | stack.go:546-553 | each size is the table's size less 91; all are positive exactly when no table is exactly 91 bytes |
| Stacks.SplicedNames | stack.go:508-515 | the new list is the names below the range, the compacted table's name, then the names above the range, and it reads back from the list file unchanged |
| Stacks.SplicedWhole | stack.go:641-644 | compacting the whole stack leaves only the new table |
| Stacks.SplicedListReads | stack.go:517-530 | the spliced list written by a compaction reads back as the splice |
| Stacks.ListCloseFailureLosesTable | stack.go:522-530 | when only the lock's `Close` fails, the new table is removed, yet the list renamed into place names it |
| Stacks.AddFailedEnds | stack.go:229-234 | removing the list lock after a failed add leaves the directory as it was, except for what the add leaves behind |
| Stacks.LockedKeys | stack.go:463-477 | the locked directory holds the old files and one lock per table taken, and the old files are unchanged |
| Stacks.LockTaken | stack.go:463-477 | taking one more free lock adds an empty lock file and keeps the locks free |
| Stacks.LocksTaken | stack.go:463-477 | taking free locks changes only the lock paths, and removing them restores the directory |
| Stacks.ContendedNotFree | stack.go:463-470 | finding the next table's lock already there means the tables were not free to be locked |
| Stacks.OutcomeWithoutLocks | stack.go:456-462 | setting table locks aside does not change what a compaction does to the rest of the directory |
| Stacks.LocksReleased | stack.go:456-462 | removing the table locks afterwards leaves what the compaction would have done without them |
| Stacks.GaveUpEnds | stack.go:463-473 | giving up in the lock loop removes the locks taken and the list lock and nothing else, and reports no error unless a lock could not be made |
| Stacks.AllLockedEnds | stack.go:479-543 | once every table lock is taken, the compaction ends as the fault table says |
| Stacks.ListLockedEnds | stack.go:439-454 | taking and dropping the list lock around that gives the documented end of the whole compaction |
| Stacks.NamesOfAreNames | stack.go:79-84 | the tables of a current stack have names the list file can hold |
| Stacks.ReloadNames | stack.go:117-141 | a successful reload gives a stack whose names are the names read |
| Stacks.ReloadClosesReusedReader | stack.go:110-114 | reloading `[a]` from the names `[a, b]` with table `b` missing fails with not-exist, and as written it closes the reader of `a` that the stack still holds |
| Stacks.Stack.constructor | stack.go:47-59 | a new stack is over the given file system, with no tables and zero statistics |
| Stacks.Stack.UpToDate | stack.go:189-205 | an unreadable list is an error, and the stack is up to date exactly when the list names its tables, in order |
| Stacks.Stack.TableNames | stack.go:242-245 | the names of the stack's tables, in order |
| Stacks.Stack.SpliceNames | stack.go:508-515 | the loops build the spliced list of names |
| Stacks.Stack.TableSizesForCompaction | stack.go:546-553 | the loop returns the compaction sizes of the stack |
| Stacks.Stack.OpenTables | stack.go:117-133 | the loop returns the loaded tables, the readers left in the map, and the first error, and changes nothing else |
| Stacks.Stack.ReloadOnceAsWritten | stack.go:103-142 | on success the stack is the loaded tables and the unused old readers are closed; on failure the stack is kept, but every reader in the partial list is closed, reused ones included |
| Stacks.Stack.ReloadOnce | stack.go:103-142 | as written on success; on failure only the readers opened by this call are closed, so every reader of the stack stays open |
| Stacks.Stack.Reload | stack.go:144-183 | an unreadable list is an error that changes nothing; otherwise a successful reload gives a stack named exactly by the list and closes the old readers not reused, and a failed one keeps the stack and closes only the readers it opened (the corrected step) |
| Stacks.Stack.WriteTable | stack.go:255-274 | the temporary table holds the written table unless the callback, a `Close`, or the update-index check fails; nothing else changes |
| Stacks.Stack.PlaceTable | stack.go:276-297 | the table is moved to its name; on success the list lock becomes the list file with the new names, on failure the new table is removed again |
| Stacks.Stack.AddUnderLock | stack.go:242-299 | under the lock, the add ends as the fault table says: the temporary table left behind before the rename, the new table removed after it, or the table in place and listed |
| Stacks.Stack.TryAdd | stack.go:219-300 | a taken lock is a lock failure and changes nothing; a stale stack is a lock failure or the read error; otherwise the add ends as described, the lock is gone, and on success the stack gains the new table on top |
| Stacks.Stack.Add | stack.go:208-217 | a taken lock, a failed lock or a stale stack ends as for the single add; at most one compaction is attempted, and only after an add in which no step failed |
| Stacks.Stack.LockTables | stack.go:463-477 | the locks are taken in order for a prefix of the range; all of them unless one exists (contended) or cannot be made (error) |
| Stacks.Stack.RemoveLocks | stack.go:458-462 | the locks taken are removed and nothing else |
| Stacks.Stack.ReleaseLocks | stack.go:446-462 | the table locks and the list lock are removed and nothing else |
| Stacks.Stack.CompactLocked | stack.go:316-351 | the temporary table holds the compacted records of the range, or is removed again when a step fails |
| Stacks.Stack.RemoveSuperseded | stack.go:531-537 | the compacted tables are removed, except one with the new table's name |
| Stacks.Stack.PublishList | stack.go:508-537 | the spliced list replaces the list file and the superseded tables are removed; a failed write or rename removes the new table |
| Stacks.Stack.CommitCompaction | stack.go:497-537 | the directory ends as the fault table says once the compacted table is written |
| Stacks.Stack.CompactUnlocked | stack.go:479-537 | from the removal of the list lock on, the directory ends as the fault table says, and on success the list file holds the spliced names |
| Stacks.Stack.CompactTables | stack.go:479-543 | the same, and the stack is reloaded from the spliced names on success and kept on failure |
| Stacks.Stack.CompactAndUnlock | stack.go:456-543 | the same, with the table locks and the list lock removed |
| Stacks.Stack.CompactWithLocks | stack.go:456-543 | from the locking of the tables on, the compaction ends as documented, giving up when a lock is taken |
| Stacks.Stack.CompactLockingList | stack.go:439-543 | holding the list lock first: a taken lock gives up, a stale stack gives up with the read error, and otherwise the compaction ends as documented |
| Stacks.Stack.CompactRange | stack.go:433-544 | a range of at most one table without expiration is trivially done; otherwise one attempt is counted and the compaction ends as documented |
| Stacks.Stack.CompactRangeStats | stack.go:425-431 | the same, counting a failure exactly when the compaction did not succeed |
| Stacks.Stack.AutoCompact | stack.go:630-638 | a table of exactly 91 bytes panics on log2; otherwise the suggested segment, if any, is compacted without expiration |
| Stacks.Stack.CompactSegment | stack.go:632-636 | no suggestion changes nothing; a suggested segment of two or more tables is compacted, counting one attempt |
| Stacks.Stack.CompactAll | stack.go:641-644 | a stack of at most one table without expiration is left alone; otherwise the whole stack is compacted |

## Behaviour kept as written

The model follows the code where it departs from what its comments or
names suggest:

- `add` (stack.go:253) defers the removal of `f.Name()`, which is the lock file,
  not the temporary table. A failed add therefore leaves its temporary table
  behind (`Stacks.AddEnds`).
- `add` returns right after the update-index check or a failed step. The
  caller `Add` reloads the stack after a lock failure but does not retry
  (stack.go:208-217).
- `compactRange` ignores a failed `Close` of the list lock (stack.go:522-524).
  It removes the new table and still renames the list into place, so the
  list names a table that is gone (`Stacks.ListCloseFailureLosesTable`).
- `tableSizesForCompaction` subtracts 91 in unsigned arithmetic
  (stack.go:550). A table of exactly 91 bytes gives size 0, and `log2` panics
  on it. In the model that is the `Panic` error of `Stacks.Stack.AutoCompact`.
- `suggestCompactionSegment` skips segments of one table (stack.go:604). The
  model's `Compaction.Pick` skips segments of fewer than two tables. The two
  agree, because every segment of a non-empty stack has at least one table
  (`Compaction.SegmentAt`), and an empty stack has no suggestion.
- `LogRecord.decode` clears the receiver first, and the update index is in neither the key nor the payload, so a decoded log record has update index 0 (`LogRecords.LogDecode`).

## Left out

- Zlib compression of log blocks (c/block.c:130-146) and decompression (c/block.c:165-184) are not modelled: `Blocks.BlockWriter.Finish` and `Blocks.ReaderInit` require a block type other than log.
- Blocks.ReaderInit: the C code reads the four header bytes and the restart count unchecked; the model requires the four header bytes to be present and the block to be at least as long as its header says.
- Blocks.BlockWriter.Finish: it requires room for the restart table after the entries, which `block_writer_add` keeps by refusing an entry that would leave too little room.
- Blocks.RestartOffset: the C code reads the restart table unchecked; the model requires the index to lie within the data. The same holds for `Blocks.FirstKey`.
- `binsearch` is not part of this model. `Blocks.BlockIter.Seek` takes the index it returns and whether a restart key failed to decode. `Blocks.SeekFinished` assumes only that the index is 0 or that the restart key just before it decodes and is not greater than the wanted key (`Blocks.RestartAtMost`). `restart_key_less` (c/block.c:225-249) returns the three-way `slice_compare`, not a less-than test, so a bisection over it gives 0 or one past an exact match rather than the count of smaller restart keys; both meet the assumption.
- `MAX_RESTARTS` comes from constants.h, which is not part of this model. It is taken as 65535, the largest count the two-byte trailer holds.
- The realloc of the restart array is modelled as a sequence with a capacity field. The allocation itself and its failure are left out.
- `block_writer_reset`, `block_writer_clear` and `block_iter_close` (c/block.c:311-313 and c/block.c:366-376) reset counters or free memory; they are not modelled.
- `hash_size` is fixed at 20, the SHA-1 size that record.go uses.
- Blocks.BlockIter.Next: on a broken entry the C receiver may hold a partly decoded record; the model returns the receiver unchanged.
- Records.ObjParse: the capacity hint `make([]uint64, 1, count)` (record.go:320) is not modelled; for a huge count the Go code can fail to allocate where the model reports a format error.
- LogRecords.LogEncodeFits: the panic on a hash of the wrong length is a precondition (`LogRecords.LogEncodable`).
- AnyRecords.NewRecord: the panic on a malformed log key (record.go:28-30) is a precondition.
- The `String` and `CopyFrom` methods of the records (and `Stack.String`) only format or copy; they are not modelled.
- The record writer and reader (`NewWriter`, `NewReader`) and the merged iterators are not part of this model. The write callback of `add` is given by its outcome: the table it writes, or none when it fails. What the merged iterators yield over the tables being compacted is given as a `Merged` value.
- `isDeletion` is taken to be `IsTombstone`.
- I/O failures are given as a set of injected faults, one per step that can fail (`Readers.Step`). Concurrent writers are not modelled: the directory changes only through the stack's own steps.
- Stacks.Stack.Reload: it runs the corrected `Stacks.Stack.ReloadOnce`, which on failure closes only the readers it opened (see the Findings row for stack.go:110-114), and so does every transaction that reloads through it (`TryAdd`, `Add`, `CompactTables`, `AutoCompact`); the as-written step is `Stacks.Stack.ReloadOnceAsWritten`. The retry loop with its 2.5-second deadline and random delay (stack.go:146-172) is not modelled. With no other writer, the names read again are the same, so the first not-exist failure is final, as the code then returns. Building the merged view (stack.go:174-181) is left out.
- Stacks.Stack.constructor: `NewStack` also reloads the stack; the constructor starts with an empty stack and leaves the reload to a call of `Reload`.
- Stacks.Stack.CompactRange: it requires `first <= last < len(stack)` whenever the call is not trivial. The code would index out of range otherwise.
- Stacks.Stack.AutoCompact: when the compaction sizes sum to 2^64 or more, the Go sums wrap; the model states only that the directory and the stack are then unchanged.
- Stacks.Stack.Add: the contract states the early ends of the add and when a compaction may follow. It does not state the directory after the add and the compaction together; `Stacks.Stack.TryAdd` and `Stacks.Stack.AutoCompact` state each half.
- Strings are byte strings, as in Go. No encoding is modelled.
- LogRecords.LogDecode: it is the corrected decoder, which fails on a truncated time or time-zone field where the code as written reports success (see the finding for record.go:617-624 and `LogRecords.LogDecodeAsWritten`); `AnyRecords.Decode`, and the block iterator through it, use the corrected decoder.

## Findings

| source | as written | input that shows it | evidently intended | confidence | as-written member | corrected member |
|---|---|---|---|---|---|---|
| record.go:58-63 | after `ptr++` the guard is `ptr > len(buf)`, which never holds, so `buf[ptr]` is read one past the end | `[0x80]`: a continuation byte with nothing after it | `ptr >= len(buf)`, returning `(0, -1)` for a truncated varint | not executed | VarInt.TrailingContinuationByte | VarInt.GetVarInt |
| record.go:441-449 | `int(prefixLen) > len(prevKey)` compares a converted `uint64`; a prefix length of 2^63 or more turns negative and passes, and the `make` and `prevKey[:prefixLen]` after it panic | the varints 2^63 and 0 against an empty previous key | reject any prefix length longer than the previous key as a format error | not executed | Keys.HugePrefixLength | Keys.DecodeKeyFailures |
| record.go:559-562 | `len(buf) < int(nameLen)` compares a converted `uint64`; a length of 2^63 or more passes, and `buf[:nameLen]` panics (the same lines serve the symbolic target of a ref record, record.go:170-177) | the varint 2^63 with nothing after it | reject any length longer than the bytes left as a format error | not executed | Records.HugeStringLength | Records.DecodeStringFails |
| stack.go:110-114 | the deferred loop closes every reader in `newTables` when the reload fails, including readers reused from the current stack, which the stack still holds | stack `[a]` reloaded with reuse from the names `[a, b]`, table `b` missing | close only the readers this call opened | not executed | Stacks.ReloadClosesReusedReader | Stacks.Stack.ReloadOnce |
| record.go:617-624 | `decode` has named results and `ok` is already true after the email is read, so the bare `return`s after a bad time varint and with fewer than two time-zone bytes report success, with `n` -1 or the length of the time varint | two zero ids and two empty strings, then nothing (`(-1, true)`), or then the bytes 5 and 7 (`(1, true)`) | report failure, as every other truncated field does | not executed | LogRecords.LogDecodeAsWritten | LogRecords.LogDecode |
