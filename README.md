# HuskyLens V2 protocol engine

A Dafny model of the protocol engine of the HuskyLens V2 MakeCode driver
(`huskylensV2.ts`): the packet codec, the byte framer that reassembles
frames from the I²C byte stream, the fixed-offset payload views and text
decoders, the result records, the request/response retry loops, and the
result cache with its read-only queries.

Modules, one file each:

- `Bytes` (`bytes.dfy`): MakeCode `Buffer` semantics as total functions on
  `seq<byte>`. An out-of-range read gives 0, an out-of-range write is
  ignored, a stored value is truncated to its low byte, and
  `slice(offset, length)` takes a length.
- `Protocol` (`protocol.dfy`): the command codes, algorithm IDs, sizes and
  frame offsets.
- `Wire` (`wire.dfy`): `checksum`, `PacketHead.fromFields` (the encoder,
  as an imperative method over an `array`), the `PacketHead` constructor
  (the parser) and `verifyChecksum`.
- `Transport` (`transport.dfy`): `wait` seen as an abstract outcome, and the
  three-attempt loops of `beginInternal` and `switchAlgorithmInternal`.
- `Framer` (`framer.dfy`): `husky_lens_protocol_receive`,
  `validateCheckSum`, the queue-draining loop of `protocolAvailable` and the
  polling loop of `wait`. They are pure functions (`Step`, `Drain`, `Poll`)
  and a class `Receiver` holding `receive_index`, `receive_buffer` (an
  `array` of 261 entries with its JavaScript length) and the cached byte
  queue. Its methods are proved to follow those functions.
- `Payload` (`payload.dfy`): the `PacketData` accessors, the clamp applied
  to the totals, and `toSigned16`.
- `Utf8` (`utf8.dfy`): `decodeUTF8`, `bufferToString` and
  `bufferToStringAtOffset`. These handle the one-byte and three-byte forms
  of UTF-8 (section 3 of RFC 3629) and stop at NUL. The output is a
  sequence of UTF-16 code units.
- `Records` (`records.dfy`): `Result`, `FaceResult`, `HandResult` and
  `PoseResult` as one tagged `Record` value.
- `Queries` (`queries.dfy`): the read-only queries over one row of the
  result table, and `getLineTrackingPropertyValue`.
- `Cache` (`cache.dfy`): `toRealID` and `getResultInternal` over a class
  `ResultCache` holding `result`, `maxID` and `customId`. A fetch is also
  described as a function `FetchResult` of the wait outcomes.

Behaviour of the code worth noting:

- The handshake payload is 10 bytes, with the first byte 1.
- `customId` is never written. IDs of 128 or more therefore resolve to
  themselves, and the resolved row being below 25 is a precondition of the
  cache operations. In the source, the custom-model wrappers
  (huskylensV2.ts:3612-3660) pass IDs `128 + (algorithmId - 1)`, which
  resolve unchanged. `result[algo]` is then undefined, so
  `getResultInternal` (line 819) and `availableInternal` (line 788) fail at
  run time when they index it. `getCachedResultMaxID` (line 803) returns 0
  through `|| 0`. The custom-model path cannot work as written.
- `getBranchInternal(index)` returns the absolute slot `index + 1`.
- A byte other than 0xAA after the first sync byte sends the framer back to
  position 0 without looking at it again. A stray 0x55 right before a
  frame therefore makes that frame's 0x55 fail as the second sync byte, and
  the frame is lost.
- Slots are not compacted after a failed block wait.
- A wrong response code uses up an info attempt, just as a timeout does.
- A face record has 5 landmark points (10 coordinates). A hand has 21, a
  pose 17.

## Model

| member | source | states |
|---|---|---|
| Wire.ComputeChecksum | huskylensV2.ts:97-103 | the masked running sum equals the sum of all the bytes modulo 256 |
| Wire.FromFields | huskylensV2.ts:136-176 | the buffer built is exactly the encoding `Encode(f)`, whose byte layout `EncodeLayout` states |
| Wire.NewPacketBuffer | huskylensV2.ts:146-161 | a fresh buffer of the total length: the five header bytes (sync bytes or overrides, cmd, algo, length byte), then zeros |
| Wire.CopyInto | huskylensV2.ts:162-164 | after the copy loop, the buffer holds `src` at `at` and is unchanged elsewhere |
| Wire.CopyName | huskylensV2.ts:165-170 | after the name loop, the name length byte is followed by the name bytes, with the checksum slot still 0 |
| Wire.FillPacketBuffer | huskylensV2.ts:144-170 | before the checksum is written, the buffer is header, data, optional name length and name, then a 0 byte |
| Wire.EncodeLayout | huskylensV2.ts:136-176 | the length is 6 + data (+ name + 1); bytes are 55 AA (or overrides), cmd, algo, length mod 256, data, name length, name; the last byte is the sum of the others mod 256 |
| Wire.ParseEncoded | huskylensV2.ts:117-134 | parsing an encoding recovers the header bytes and the declared length; `cs` is the last byte; `data` starts with the content; the checksum then verifies |
| Wire.ParseHead | huskylensV2.ts:117-134 | the five header fields are bytes 0-4; a buffer shorter than 6 + length gives empty data and `cs` 0; otherwise `data` is the slice from byte 5 of length 5 + length (clamped), starting with the content, and `cs` is the byte after the content |
| Wire.TruncatedPacket | huskylensV2.ts:125-129 | a buffer shorter than its declared length parses with empty data and checksum 0 |
| Wire.VerifyChecksum | huskylensV2.ts:178-191 | true exactly when the sum of the header fields and the data, cut or zero-padded to the declared length, mod 256 equals `cs` |
| Wire.ChecksumDetectsChange | huskylensV2.ts:97-103 | changing one byte to a different value changes the checksum |
| Wire.CorruptedPacketFails | huskylensV2.ts:178-191 | corrupting any byte of an encoded packet other than the length byte makes `verifyChecksum` fail |
| Wire.KnockPacketBytes | huskylensV2.ts:723-730 | the handshake packet is 55 AA 20 00 0A, then 01 and nine zeros, then checksum 2A |
| Transport.FirstSuccess | huskylensV2.ts:732-739 | the first attempt whose wait succeeds (3 for none): every earlier attempt failed and this one succeeded |
| Transport.Exchange | huskylensV2.ts:732-739 | succeeds iff one of three waits succeeds; writes the packet once per attempt up to and including the first success |
| Transport.BeginInternal | huskylensV2.ts:723-740 | true iff one of the three waits sees RETURN_OK; each attempt writes the 10-byte knock packet |
| Transport.SwitchAlgorithmInternal | huskylensV2.ts:742-759 | true iff one of the three waits sees RETURN_OK; each attempt writes the SET_ALGORITHM packet for `algo` |
| Framer.Step | huskylensV2.ts:646-687 | one byte keeps the position within the frame being received; a reported completion leaves the position at 0 |
| Framer.Drain | huskylensV2.ts:634-641 | the bytes left are a suffix of the queue, empty unless a valid frame was completed, and a non-empty queue always loses a byte |
| Framer.Poll | huskylensV2.ts:702-717 | keeps the framer invariant; after at least one read without a completed frame, the queue is empty |
| Framer.DrainStopsAtFirst | huskylensV2.ts:634-641 | when the m-th queued byte is the first to complete a frame, draining stops there, with the state after those m bytes and the rest of the queue left |
| Framer.PollFindsFrame | huskylensV2.ts:702-717 | a read that, after the queued bytes, holds a frame with a valid checksum from position 0 makes the loop succeed: the frame is in the buffer (so its command byte is read) and the bytes after it stay queued |
| Framer.Receiver.constructor | huskylensV2.ts:602-607 | position 0, 128 zero entries and an empty queue |
| Framer.Receiver.Receive | huskylensV2.ts:646-687 | the new position, buffer and JS length, and the result, are those of `Step` on the old state |
| Framer.Receiver.ValidateCheckSum | huskylensV2.ts:689-700 | true iff the sum of the entries before position `len + 5`, mod 256, equals the entry at that position |
| Framer.Receiver.ProtocolAvailable | huskylensV2.ts:625-643 | the queue is extended by the bytes read; state, result and remaining queue are `Drain` of that |
| Framer.Receiver.Wait | huskylensV2.ts:702-717 | the state is `Poll` over the bus reads; true iff a frame arrived with the expected command; the first argument is ignored |
| Framer.FrameCompletes | huskylensV2.ts:646-700 | from position 0, a frame gives false on all but its last byte, then its checksum verdict; the position is back at 0 and the frame is in the buffer |
| Framer.GarbageIgnored | huskylensV2.ts:649-653 | at position 0, bytes other than 0x55 change nothing and return false |
| Framer.ResyncAfterGarbage | huskylensV2.ts:649-662 | a prefix without 0x55 does not change the outcome of the frame after it |
| Framer.SyncMismatchResets | huskylensV2.ts:656-661 | at position 1, any byte but 0xAA sends the framer back to position 0 unstored, a second 0x55 included |
| Framer.StraySyncLosesFrame | huskylensV2.ts:646-662 | a stray 0x55 just before a frame loses it: after 55 55 AA the framer is at position 0 with nothing found, and scans the rest of the frame as garbage |
| Framer.CorruptedFrameRejected | huskylensV2.ts:689-700 | changing any byte of a valid frame, except the sync bytes and the length byte, makes the framer report no frame |
| Framer.DrainFeeds | huskylensV2.ts:634-641 | the bytes `protocolAvailable` consumes, fed one by one, give false on all but the last, which is the result |
| Framer.FeedAppend | huskylensV2.ts:646-687 | feeding a concatenation is feeding one part after the other |
| Payload.U16 | huskylensV2.ts:238-299 | a 16-bit field is in 0..65535, its low byte at k and its high byte at k + 1 |
| Payload.SetThenGet | huskylensV2.ts:238-299 | reading a 16-bit field after setting it to v gives v mod 65536; no other byte changes |
| Payload.GetThenSet | huskylensV2.ts:238-299 | writing back the value just read changes nothing |
| Payload.ClampU16 | huskylensV2.ts:830-835 | the field becomes min(field, limit); no other byte changes |
| Payload.ToSigned16 | huskylensV2.ts:2937-2940 | maps 0..65535 into -32768..32767, preserving the value mod 65536 |
| Payload.ToSigned16RoundTrip | huskylensV2.ts:2937-2940 | inverts the 16-bit two's-complement encoding of every signed value |
| Payload.ToSigned16Examples | huskylensV2.ts:2937-2940 | the identity below 32768; 65000 gives -536, 65535 gives -1, 32768 gives -32768 |
| Utf8.CodeUnit | huskylensV2.ts:344 | a three-byte sequence gives a code unit below 0x10000 |
| Utf8.DecodeFrom | huskylensV2.ts:330-354 | at most one code unit per byte of the window inside the buffer; every unit is below 0x10000 |
| Utf8.DecodeUTF8 | huskylensV2.ts:325-357 | the decoding loop returns `Decode(buf, start, length)` |
| Utf8.DecodeStopsAtNul | huskylensV2.ts:334-335 | the window's end does not matter once a NUL byte inside it is reached |
| Utf8.DecodeWindow | huskylensV2.ts:330 | the text depends only on the window's bytes that exist in the buffer |
| Utf8.DecodeBound | huskylensV2.ts:325-357 | the output never has more code units than the window has bytes |
| Utf8.DecodeAscii | huskylensV2.ts:334-338 | bytes 1..0x7F decode to themselves |
| Utf8.TwoByteFormSkipped | huskylensV2.ts:351-353 | a two-byte UTF-8 sequence decodes to nothing |
| Utf8.CodeUnitOfEncoding | huskylensV2.ts:340-346 | the three-byte encoding of a unit has a lead byte and two continuation bytes, and decodes back to the unit |
| Utf8.DecodeEncode | huskylensV2.ts:325-357 | decoding the encoding of nonzero code units gives them back |
| Utf8.BufferToString | huskylensV2.ts:360-375 | the text before the first NUL, which is `Decode(buf, 0, \|buf\|)` |
| Utf8.BufferToStringAtOffset | huskylensV2.ts:378-393 | the text of the window at the offset, up to the first NUL: `Decode(buf, offset, maxLength)` |
| Records.ParseText | huskylensV2.ts:409-436 | without a name, the name is empty; the content is empty too unless its length is nonzero and the buffer is longer than 12 + that length |
| Records.LandmarkAt | huskylensV2.ts:503-546 | landmark j reads x at offset + 4j and y at offset + 4j + 2 |
| Records.KindFor | huskylensV2.ts:850-858 | the plain decoder is used exactly for algorithms other than 1, 13 and 14 |
| Records.DecodeRecord | huskylensV2.ts:569-591 | the record keeps its payload, has `used` 0 and the name and content of `ParseText`; it has 5, 21 or 17 points for face, hand or pose, point j read as the 16-bit pair at the landmark offset + 4j and + 4j + 2 |
| Records.RecordRoundTrip | huskylensV2.ts:409-436 | a record's non-empty name and its content, sent as UTF-8 (one byte per unit below 0x80, three bytes for units up to 0xFFFF, including Chinese), decode back to their code units; landmarks start at 12 + name + content bytes |
| Records.NamelessRecord | huskylensV2.ts:413-430 | without a name, UTF-8 content is recovered as its code units only when at least one byte follows it, and dropped otherwise |
| Records.RecordLandmarks | huskylensV2.ts:456-473 | for a face, hand or pose record, with or without a name and whatever its text bytes, point j is read at 12 + name + content + 4j (x) and 2 bytes later (y) |
| Queries.Count | huskylensV2.ts:921-931 | the number of non-null slots is at most 6, and 0 iff every slot is null |
| Queries.CountUpTo | huskylensV2.ts:921-931 | the count of non-null slots among the first n is 0 iff they are all null |
| Queries.AvailableFrom | huskylensV2.ts:783-799 | true iff some slot from i on holds an unused record |
| Queries.AvailableIffCount | huskylensV2.ts:783-799 | as `used` is never set, a row is available iff it holds a record |
| Queries.CenterFrom | huskylensV2.ts:874-894 | the slot chosen is strictly below the starting distance, no farther than any slot, and strictly closer than every earlier slot |
| Queries.CenterIsNearest | huskylensV2.ts:874-894 | none iff no distance is below 999999999; otherwise the nearest record, lowest index on ties |
| Queries.ByIndex | huskylensV2.ts:896-903 | slot `index` for 0 <= index < 6, none otherwise |
| Queries.ByIDFrom | huskylensV2.ts:905-919 | a record iff one has the ID, and then the first one |
| Queries.CountByIDFrom | huskylensV2.ts:938-952 | 0 iff no record has the ID |
| Queries.NthByIDFrom | huskylensV2.ts:954-971 | any record returned has the ID asked for |
| Queries.NthIsNthMatch | huskylensV2.ts:954-971 | the n-th record with an ID is the record of a slot k with that ID, preceded in the scan by exactly n slots with that ID |
| Queries.NthExistsIff | huskylensV2.ts:954-971 | the n-th record with an ID exists iff 0 <= n < the number of records with it |
| Queries.ByIDIsNthZero | huskylensV2.ts:905-971 | the first record with an ID is the 0-th one |
| Queries.CurrentBranch | huskylensV2.ts:973-983 | slot 0 exactly when it holds a record whose level is 1 |
| Queries.UpcomingBranchCount | huskylensV2.ts:985-995 | the number of records minus one, and 0 for an empty row |
| Queries.Branch | huskylensV2.ts:997-1011 | branch `index` is the absolute slot `index + 1` for 0 <= index <= 4, whatever the slots before it hold; none otherwise |
| Queries.BranchScan | huskylensV2.ts:1002-1009 | the scan from slot i returns the target slot when i <= target < 6 |
| Queries.BranchCountPacked | huskylensV2.ts:985-1011 | in a row without gaps, branch `index` exists iff index < the branch count |
| Queries.BranchCountGap | huskylensV2.ts:985-1011 | with a gap at slot 0, the branch count is 0 although branch 0 exists |
| Queries.LineTrackingValue | huskylensV2.ts:2942-2952 | 0 without a record or for an unknown property; X, Y and angle as signed 16-bit; length unsigned |
| Cache.CustomScan | huskylensV2.ts:773-779 | the ID itself iff no custom entry from i on matches, else the row of the first matching entry |
| Cache.RealID | huskylensV2.ts:771-781 | the identity below 128; above, the ID itself or a custom row |
| Cache.RealIDIdempotent | huskylensV2.ts:771-781 | resolving twice is resolving once |
| Cache.RealIDUnassigned | huskylensV2.ts:769-781 | with the custom table at its initial 0, 0, 0, every ID resolves to itself |
| Cache.PayloadIsContent | huskylensV2.ts:824-828 | the decoders' payload is the received buffer from the content index to its last entry |
| Cache.InfoTotals | huskylensV2.ts:828-835 | a fetch uses the announced totals capped at 6 |
| Cache.FetchResult | huskylensV2.ts:806-872 | a fetch writes one to three requests, returns -1 or a count of at most 6, and records a maxID exactly when it does not return -1 |
| Cache.FetchOutcome | huskylensV2.ts:806-872 | -1, an empty row and no maxID iff all three info waits fail; otherwise a count of at most 6 equal to the filled slots, and maxID is info byte 0 |
| Cache.FetchedSlotShape | huskylensV2.ts:842-870 | slot i is filled iff the info wait succeeded, i is below the capped totals and the slot's own wait brought the block or arrow code its position calls for; a filled slot holds that payload, decoded by variant for blocks and as plain for arrows |
| Cache.WrongCodeUsesAttempt | huskylensV2.ts:821-838 | a wrong response code, then the info response, is a fetch on the second attempt |
| Cache.FetchTwoBlocksOneArrow | huskylensV2.ts:842-870 | totals 2 and 3 with two blocks and an arrow fill slots 0-2 in order, leaving 3-5 null |
| Cache.FailedBlockLeavesGap | huskylensV2.ts:842-860 | when the first block wait fails, slot 0 stays null and the next block lands in slot 1 |
| Cache.ResultCache.constructor | huskylensV2.ts:762-769 | every slot null, every maxID 0, and the custom table 0, 0, 0 |
| Cache.ResultCache.ToRealID | huskylensV2.ts:771-781 | the loop returns `RealID` of the custom table |
| Cache.ResultCache.Row | huskylensV2.ts:785-788 | the row read for an algorithm is its own row: with the custom table never written, the resolved row is the ID itself |
| Cache.ResultCache.CachedResultMaxID | huskylensV2.ts:801-804 | the recorded maxID of the algorithm's own row (its resolved row, as the custom table stays 0, 0, 0) |
| Cache.ResultCache.CachedResultLearnedNum | huskylensV2.ts:933-936 | the same value as `getCachedResultMaxID` |
| Cache.ResultCache.GetResultInternal | huskylensV2.ts:806-872 | count, the new row, maxID and the packets written are those of `FetchResult`; no other row changes |
| Cache.ResultCache.AwaitInfo | huskylensV2.ts:821-838 | stops at the first successful info wait; writes one request per attempt; records its byte 0 as maxID |
| Cache.ResultCache.ClearRow | huskylensV2.ts:818-820 | the row becomes six null slots; nothing else changes |
| Cache.ResultCache.FillRow | huskylensV2.ts:842-871 | the row becomes `Slots` of the outcomes; the count is its filled slots |
| Cache.ResultCache.StoreArrival | huskylensV2.ts:843-858 | a successful wait stores the decoded payload in slot i; any other outcome changes nothing |
| Cache.ResultCache.FillBlocks | huskylensV2.ts:842-860 | slots below the block total get their block waits' records; count of those filled |
| Cache.ResultCache.FillArrows | huskylensV2.ts:861-870 | slots from the block total up to the result total get their arrow waits' plain records; count of all filled |

## Left out

- I²C bus I/O (`pins.i2cReadBuffer`, `pins.i2cWriteBuffer`): the bytes read are a parameter of `ProtocolAvailable` and `Wait`. The packets written are returned in order.
- The clock and the pauses (`control.millis`, `timerBegin`, `timerAvailable`, `basic.pause`): each call of `wait` is given its outcome, or the bus reads made before its deadline.
- The exported per-category wrappers, enums and property-switch helpers, except `getLineTrackingPropertyValue`: thin projections over the queries.
- `Buffer.fromUTF8`: the name passed to `fromFields` is given as bytes.
- MakeCode built-ins: `slice(offset, length)` is read with a length as its second argument, clamped. Out-of-range reads give 0 and out-of-range writes are ignored. JavaScript would give `undefined` or `NaN` where the decoders read past the payload.
- Decoded text is a sequence of integer code units, not a string: the decoder can produce lone surrogates.
- Debug helpers `bufferToHex`, `toHex` and `printInfo`: only referenced from commented-out code.
- The single-byte `PacketData` setters: never called by the engine. The 16-bit setters are modelled, as the clamp of the totals uses them.
- The copy of `receive_buffer` into a new buffer before slicing (lines 824-827, 845-848, 864-867): the model slices `receive_buffer` directly.
- Framer.Step: the size guard at the length byte (position at least 122) is not modelled, because the position there is always 4.
- Cache.ResultCache.FillRow: the decoder is a parameter of the fill loops. `GetResultInternal` passes `DecodeRecord`.
- Records.Record: a record keeps its payload, and the fixed-offset fields are read from it through the `Payload` accessors rather than stored as fields.
