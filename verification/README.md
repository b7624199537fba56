# Verified models of the protocol code in BeenHere

A Dafny 4.11 model of the parts of this repository that carry the hardest logic, with proofs of what they promise:

- **nanopb** (`Pb*.dfy`): the Protocol Buffers encoder and decoder that are driven by field descriptors. `PbTypes`, `PbWire`
  and `PbSpec` say what descriptors, structs and bytes mean; `PbEncode`, `PbDecode` and `PbIter` are the streams, loops and
  the field iterator, updated in place; `PbEvolve`, `PbTheorems` and `PbMerge` relate the two directions, and `PbInput`
  says what the decoder makes of input that the encoder did not write.
- **DTLS** (`HandshakeWire`, `DtlsReceive`, `DtlsReceiver`, `DtlsReplay`, `DtlsRecord`, `DtlsFlight`, `DtlsPackets`,
  `DtlsSender`, `DtlsNetwork`, `DtlsDelivery`, `DtlsResend`): the handshake transport of BoringSSL from the flight of the sender to the message of the
  receiver (RFC 6347, sections 4.1 and 4.2). The state machines on values have classes beside them whose methods follow
  them; `DtlsNetwork` puts sender, record layers, network and receiver together, `DtlsDelivery` says what is delivered and
  when, and `DtlsResend` who hears a flight that is sent again.
- **The TLS client handshake** (`TlsClient`, `TlsProgress`, `TlsChoices`, `TlsConnect`, `TlsOverDtls`): the loop of
  `ssl3_connect` up to TLS 1.2 (RFC 5246, section 7.3): what a run may do, when it completes, who decides what, and the client
  and the DTLS receiver together.
- **The reference count** (`Refcount`): compare-and-swap loops against the locked form.
- **Star ratings** (`Stars`): the arithmetic of the star control.

`Bits` gives C's operators on unsigned words as functions on natural numbers, `Wrappers` an option type.
`dafny verify dfyconfig.toml` checks everything.

## How to read the model

- A C struct that nanopb fills is a sequence of slots, one for each field of its descriptor; the decoder returns it. The build
  defines `PB_FIELD_32BIT`, so sizes are 32 bits wide and the size in front of a byte array takes four bytes.
- Machine words are natural numbers with their width written out (`% 0x1_0000`, `Shl(v, s, 64)`).
- What the code cannot decide (the network, write results, ciphers, certificates, signatures, timers) is a parameter:
  lists of records, results of calls, or a function. A cipher only promises a bound on what it adds and that opening undoes
  sealing.
- In `DtlsReceive`, `DtlsNetwork`, `TlsClient` and `Refcount` whole runs are functions of such lists, and the theorems hold for all of them.
- A fatal error ends a connection: what a caller finds who goes on after one is not modelled, except in
  `TlsClient.FailedHashesLeaveStaleState`.

## What the proofs brought to light

Places where the code does not do what its documentation says or its callers may expect. The model follows the code.

- A string that fills its buffer is encoded (pb_encode.c:739-763) but not decoded again (pb_decode.c:1308-1326):
  `PbTheorems.RoundTrip` holds if and only if each string leaves room for its NUL. `PbTheorems.FullStringLost` is one that is
  lost.
- What a struct holds behind a clear flag does not travel; the round trip gives the struct back if and only if that is at its
  default. `PbTheorems.HiddenStringLost` is a struct that is not.
- A field of fixed length under implicit presence is written even when it holds only zeros (pb_encode.c:205-269):
  `PbInput.NothingWrittenIff`. An `int32` field takes the low 32 bits of a longer number without an error
  (pb_decode.c:1165-1200): `PbInput.SignedAccepted`.
- The required-field check shifts a 32-bit word by 32 when a message has exactly 32 required fields, and reads past its bitmap
  from 64 on, once all required fields that have a bit are there (pb_decode.c:937-949): `PbIter.CheckRequired` and
  `PbIter.LastWordInBounds` say exactly when, and `PbIter.NumbersCheckable` gives a well-formed descriptor for every count.
- In an empty descriptor the terminator matches tag 0 (pb_common.c:78-95), and the decoder then fails on it. A zero tag or a
  tag cut off by the end of the input counts as the end of the message (pb_decode.c:251-275).
- A fragment whose number is exactly one past the receive window passes the check that is meant to ignore it
  (d1_both.c:368-372) and is then fatal (d1_both.c:270-275): `DtlsReceive.GenuineRefused`, with
  `DtlsReceive.EighthMessageFatal` as an example.
- Marking an empty range at the end of a message of a multiple of eight bytes would index past the mask
  (d1_both.c:231-241): `DtlsReceiver.MaskInBounds`; `DtlsReceiver.EmptyTailReachesMark` is a fragment that asks for it.
- When sealing fails after part of a packet was made, the flight is not rolled back as it is after a failed write
  (d1_both.c:771-776), so that a later flush skips those pieces: `DtlsPackets.LeftBehindIff` and `CoveredIffNoneSkips`
  say exactly when, and `FirstMessageSkipped` is a flight that loses its first message.
- After 2^48 records of an epoch the counter is zero again (tls_record.c:161-170); the seal that wraps it fails, but the next
  one would use number zero a second time: `DtlsRecord.NumbersUnique` and `DtlsRecord.NumbersRunOut`.
- `hs->state` is set before `tls1_record_handshake_hashes_for_channel_id` can fail and `hs->next_state` after it
  (handshake_client.c:371-383): `TlsClient.FailedHashesLeaveStaleState` and `TlsClient.StaleStateReached`.
- The precise rating exceeds the number of stars just past the last one, and drops back further on (CosmosDistrib.swift:849-875):
  `Stars.PreciseMonotoneIff` says exactly where.

## Model

| member | source | states |
|---|---|---|
| `PbWire.VarintFits` | BeenHere/Pods/nanopb/pb_encode.c:494-514 | a 64-bit number takes at most ten bytes, a 32-bit one at most five |
| `PbWire.VarintSize` | BeenHere/Pods/nanopb/pb_encode.c:494-514 | a number takes n bytes or less if and only if it is below 128^n |
| `PbWire.VarintBytes` | BeenHere/Pods/nanopb/pb_encode.c:494-514 | byte i of an encoded number holds its bits 7i to 7i + 6, and says whether more follow |
| `PbWire.VarintRoundTrip` | BeenHere/Pods/nanopb/pb_decode.c:173-229 | both varint decoders give back every number of their width, whatever follows it |
| `PbWire.Varint32Agrees` | BeenHere/Pods/nanopb/pb_decode.c:173-229 | on any varint that the 64-bit decoder accepts, the 32-bit one agrees modulo 2^32 if it has at most five bytes, and fails if it is longer |
| `PbWire.SkipEncoded` | BeenHere/Pods/nanopb/pb_decode.c:231-240 | skipping consumes exactly an encoded number |
| `PbWire.TagRoundTrip` | BeenHere/Pods/nanopb/pb_decode.c:251-275 | wire type and tag come back from an encoded tag |
| `PbWire.StringRoundTrip` | BeenHere/Pods/nanopb/pb_decode.c:242-249 | a length-delimited string comes back with exactly what follows it |
| `PbWire.WordRoundTrip` | BeenHere/Pods/nanopb/pb_decode.c:1132-1163 | fixed 32- and 64-bit words come back |
| `PbWire.LittleEndianBytes` | BeenHere/Pods/nanopb/pb_encode.c:527-551 | byte i of a fixed word holds its bits 8i to 8i + 7 |
| `PbWire.ZigzagInverse` | BeenHere/Pods/nanopb/pb_encode.c:516-525 | the shift-and-complement zigzag code is 0, -1, 1, -2, ... and the decoder inverts it |
| `PbWire.IntRoundTrip` | BeenHere/Pods/nanopb/pb_decode.c:1165-1248 | at 8, 16, 32 and 64 bits the signed, unsigned and zigzag field codecs are inverse |
| `PbWire.SignedAgrees` | BeenHere/Pods/nanopb/pb_decode.c:1165-1248 | the conversion to a signed size gives the number of that size that agrees with the original in its low bits |
| `PbWire.CStringOfNulFree` | BeenHere/Pods/nanopb/pb_decode.c:1299-1332 | a string without NUL is what is in front of its terminator |
| `PbWire.CStringEnds` | BeenHere/Pods/nanopb/pb_decode.c:1299-1332 | a C string is what comes before the first NUL, or everything if there is none |
| `PbEncode.Write` | BeenHere/Pods/nanopb/pb_encode.c:91-109 | all bytes go to the stream, or it is full and nothing is counted |
| `PbEncode.EncodeVarint` | BeenHere/Pods/nanopb/pb_encode.c:494-514 | the loop writes the base-128 form of the number |
| `PbEncode.EncodeSVarint` | BeenHere/Pods/nanopb/pb_encode.c:516-525 | the zigzag form of a signed number is written |
| `PbEncode.EncodeFixed32` | BeenHere/Pods/nanopb/pb_encode.c:527-536 | four bytes, least significant first |
| `PbEncode.EncodeFixed64` | BeenHere/Pods/nanopb/pb_encode.c:538-551 | eight bytes, least significant first |
| `PbEncode.EncodeTag` | BeenHere/Pods/nanopb/pb_encode.c:553-557 | field number and wire type in one varint |
| `PbEncode.EncodeTagForField` | BeenHere/Pods/nanopb/pb_encode.c:559-590 | the wire type follows from the field type |
| `PbEncode.EncodeString` | BeenHere/Pods/nanopb/pb_encode.c:592-598 | length, then the bytes |
| `PbEncode.EncodeSubmessage` | BeenHere/Pods/nanopb/pb_encode.c:600-648 | the length found by the sizing pass, then the message; the comparison of the two sizes never fails, at any depth |
| `PbEncode.EncodeValue` | BeenHere/Pods/nanopb/pb_encode.c:652-776 | each value encoder writes what its type prescribes or fails as it does |
| `PbEncode.EncodeArray` | BeenHere/Pods/nanopb/pb_encode.c:116-201 | packed arrays with their length, other arrays entry by entry with tags; nothing for an empty one |
| `PbEncode.EncodeBasicField` | BeenHere/Pods/nanopb/pb_encode.c:271-349 | a field is written if and only if its presence flag, count, which_ or nonzero value says so |
| `PbEncode.EncodeMessage` | BeenHere/Pods/nanopb/pb_encode.c:451-473 | the fields in descriptor order; success if and only if the message can be encoded and there is room, and nothing outside the free part of the buffer changes |
| `PbEncode.GetEncodedSize` | BeenHere/Pods/nanopb/pb_encode.c:480-489 | the sizing stream counts exactly the bytes that are written |
| `PbEncode.EncodeToBuffer` | BeenHere/Pods/nanopb/pb_encode.c:62-109 | encoding into a buffer works if and only if it is at least as long as the encoded size |
| `PbDecode.Read` | BeenHere/Pods/nanopb/pb_decode.c:91-123 | exactly count bytes are consumed, or the read fails |
| `PbDecode.DecodeVarint` | BeenHere/Pods/nanopb/pb_decode.c:209-229 | the loop of shifts and ors reads a varint modulo 2^64 and stops after ten bytes |
| `PbDecode.LoopsDecode` | BeenHere/Pods/nanopb/pb_decode.c:173-229 | the shift-and-or loops at 64 and 32 bits compute the two varint decoders |
| `PbDecode.DecodeVarint32` | BeenHere/Pods/nanopb/pb_decode.c:173-207 | the same at 32 bits, with where the stream stands after a failure |
| `PbDecode.Skip` | BeenHere/Pods/nanopb/pb_decode.c:277-287 | skipping consumes precisely a payload of the wire type |
| `PbDecode.DecodeTag` | BeenHere/Pods/nanopb/pb_decode.c:251-275 | a tag, the end of the message, or an error |
| `PbDecode.MakeSubstream` | BeenHere/Pods/nanopb/pb_decode.c:322-335 | the parent gives up exactly the bytes that the substream stands on |
| `PbDecode.CloseSubstream` | BeenHere/Pods/nanopb/pb_decode.c:337-350 | the parent goes on right behind the substream, whatever was left in it |
| `PbDecode.CastNumber` | BeenHere/Pods/nanopb/pb_decode.c:1165-1248 | the overflow checks of the integer decoders |
| `PbDecode.DecodeSubmessage` | BeenHere/Pods/nanopb/pb_decode.c:1334-1356 | a submessage is decoded into what is there, inside its own bounds |
| `PbDecode.DecodePackedField` | BeenHere/Pods/nanopb/pb_decode.c:374-401 | entries until the substream or the array is used up |
| `PbDecode.DecodeStaticField` | BeenHere/Pods/nanopb/pb_decode.c:356-429 | what one record does to the struct, for every kind of field |
| `PbDecode.MarkRequired` | BeenHere/Pods/nanopb/pb_decode.c:908-913 | the bit of a required field is set when it is seen |
| `PbDecode.DecodeRecord` | BeenHere/Pods/nanopb/pb_decode.c:877-917 | one turn of the loop: a known field is decoded, an unknown one skipped |
| `PbDecode.DecodeLoop` | BeenHere/Pods/nanopb/pb_decode.c:863-917 | the records up to the end or a terminator, with the bitmap of required fields kept in step |
| `PbDecode.DecodeNoinit` | BeenHere/Pods/nanopb/pb_decode.c:852-953 | the loop and the required-field check are the specification of a message |
| `PbDecode.DecodeMessage` | BeenHere/Pods/nanopb/pb_decode.c:955-967 | defaults, then the message |
| `PbTypes.DefaultTyped` | BeenHere/Pods/nanopb/pb_decode.c:763-846 | the defaults are a struct of the descriptor |
| `PbIter.FieldIter.Begin` | BeenHere/Pods/nanopb/pb_common.c:8-18 | the iterator starts at the first field; false for an empty descriptor |
| `PbIter.FieldIter.Next` | BeenHere/Pods/nanopb/pb_common.c:20-76 | one field on with pData, pSize and required_field_index at their closed forms, or back to the start |
| `PbIter.FieldIter.Find` | BeenHere/Pods/nanopb/pb_common.c:78-95 | from any position: found if and only if some field has the tag; otherwise the whole iterator is restored |
| `PbIter.IteratorFindsFields` | BeenHere/Pods/nanopb/pb_common.c:20-76 | the accumulated offsets lead to where each field is laid out |
| `PbIter.UnionSharesMemory` | BeenHere/Pods/nanopb/pb_common.c:41-60 | the members of a union share their memory and which_ |
| `PbIter.AllNumbersSeen` | BeenHere/Pods/nanopb/pb_decode.c:919-949 | required fields are numbered without gaps |
| `PbIter.MarkSeen` | BeenHere/Pods/nanopb/pb_decode.c:908-913 | the word-wise marking adds one number to the set that the bitmap holds |
| `PbIter.WordComplete` | BeenHere/Pods/nanopb/pb_decode.c:946-948 | comparing with the shifted mask tests exactly the bits below the count |
| `PbIter.CheckRequired` | BeenHere/Pods/nanopb/pb_decode.c:919-950 | the check fails if and only if one of the first 64 required fields is missing; otherwise it passes, as every required field was seen, if and only if there are fewer than 64 and not exactly 32, and is undefined for the other counts |
| `PbIter.TestWords` | BeenHere/Pods/nanopb/pb_decode.c:937-949 | the same on the words of the bitmap: whole words, then the rest of the last one, with each read past the bitmap and each shift by 32 as undefined |
| `PbIter.LastWordInBounds` | BeenHere/Pods/nanopb/pb_decode.c:946-948 | the last comparison reads inside the bitmap and shifts by less than 32 if and only if the count is less than 64 and not 32 |
| `PbIter.NumbersCheckable` | BeenHere/Pods/nanopb/pb_decode.c:919-950 | for every count there is a well-formed descriptor with so many required fields; it can be checked if and only if the count is less than 64 and not 32 |
| `PbEvolve.ValueDecodes` | BeenHere/Pods/nanopb/pb_decode.c:1165-1379 | every value decoder undoes its encoder, submessages merging into what is there |
| `PbEvolve.PackedDecodes` | BeenHere/Pods/nanopb/pb_decode.c:374-401 | a packed array appends to what is there, and overflows exactly when it does not fit |
| `PbEvolve.PackedRecordDecodes` | BeenHere/Pods/nanopb/pb_decode.c:374-402 | a packed record of any length appends its entries and decoding goes on, or it fails because they do not fit |
| `PbEvolve.UnpackedDecodes` | BeenHere/Pods/nanopb/pb_decode.c:403-414 | entries that come one by one, each with its tag, are appended for every type, also those that the encoder packs |
| `PbEvolve.FieldsDecode` | BeenHere/Pods/nanopb/pb_decode.c:852-953 | decoding encoded fields followed by anything merges them into the struct and goes on |
| `PbEvolve.RequiredWritten` | BeenHere/Pods/nanopb/pb_encode.c:451-473 | what is written satisfies the required check of every compatible reader |
| `PbTheorems.EncodesIffEncodable` | BeenHere/Pods/nanopb/pb_encode.c:114-765 | a struct has an encoding if and only if, in everything that is written, at any depth, integer sizes are known, byte arrays with their header fit their fields, and arrays have room for their entries |
| `PbTheorems.RoundTrip` | BeenHere/Pods/nanopb/pb_decode.c:955-967 | decoding what was encoded succeeds if and only if each string leaves room for its NUL, and gives the struct back if and only if what it leaves unsaid is at its default; packed arrays, unions, implicit presence, any depth |
| `PbTheorems.FullStringLost` | BeenHere/Pods/nanopb/pb_decode.c:1308-1326 | a string of four characters in a buffer of four is encoded, and not decoded again |
| `PbTheorems.HiddenStringLost` | BeenHere/Pods/nanopb/pb_encode.c:271-349 | what a struct holds behind a clear flag is decoded to its default |
| `PbTheorems.ReaderSeesView` | BeenHere/Pods/nanopb/pb_decode.c:852-967 | a reader with another, compatible descriptor sees exactly its view of the message |
| `PbTheorems.RemovedFieldsAreSkipped` | BeenHere/Pods/nanopb/pb_decode.c:877-906 | forward compatibility: fields removed from the descriptor at any depth are skipped, the rest comes through |
| `PbTheorems.EmptyReader` | BeenHere/Pods/nanopb/pb_decode.c:277-287 | even the empty descriptor accepts every message |
| `PbTheorems.ConcatMerges` | BeenHere/Pods/nanopb/pb_decode.c:852-953 | two concatenated encodings decode to the merge of the messages in order |
| `PbMerge.MergesSlotwise` | BeenHere/Pods/nanopb/pb_decode.c:356-429 | when a merge succeeds, and what every slot then holds |
| `PbMerge.RepeatedAppends` | BeenHere/Pods/nanopb/pb_decode.c:374-413 | repeated fields append if they fit |
| `PbMerge.LaterScalarWins` | BeenHere/Pods/nanopb/pb_decode.c:366-372 | later scalars, strings and bytes win |
| `PbMerge.MemberReplaces` | BeenHere/Pods/nanopb/pb_decode.c:415-425 | a union takes its later member whole |
| `PbMerge.SubmessagesMerge` | BeenHere/Pods/nanopb/pb_decode.c:1334-1356 | ordinary submessages merge |
| `PbInput.MixedDecodes` | BeenHere/Pods/nanopb/pb_decode.c:370-415 | a repeated field may come packed, entry by entry or in any mixture: the entries are appended in order, and it fails exactly if they do not fit |
| `PbInput.ArrayIsOneRecord` | BeenHere/Pods/nanopb/pb_encode.c:114-200 | an array of a type that can be packed is written as one length-delimited record |
| `PbInput.NothingWrittenIff` | BeenHere/Pods/nanopb/pb_encode.c:203-349 | exactly the fields that take no bytes: absent, empty, or zero under implicit presence |
| `PbInput.SignExtended` | BeenHere/Pods/nanopb/pb_encode.c:652-668 | a negative number is written with 64 bits whatever the size of its field, so that it takes ten bytes and has the same value for a wider reader |
| `PbInput.SignedAccepted` | BeenHere/Pods/nanopb/pb_decode.c:1165-1200 | which numbers a signed field stores: those in its range that agree with what came in 64 bits, or in 32 if the field is smaller |
| `PbInput.IntegerAccepted` | BeenHere/Pods/nanopb/pb_decode.c:1165-1248 | an integer field takes a number if and only if it is in its range; anything else is an error |
| `PbInput.RawAccepted` | BeenHere/Pods/nanopb/pb_decode.c:1262-1379 | bytes, strings and fixed-length bytes that do not fit their field are refused, an empty one of fixed length is zeros |
| `PbInput.DecodeContained` | BeenHere/Pods/nanopb/pb_decode.c:852-953 | whatever the input is, what was decoded fits the memory of its field at every depth |
| `PbInput.RequiredDecides` | BeenHere/Pods/nanopb/pb_decode.c:919-950 | a written message is accepted if and only if it merges and has every field that the reader requires |
| `PbInput.MissingRequiredFails` | BeenHere/Pods/nanopb/pb_decode.c:919-950 | a message without a field that the reader requires is refused |
| `PbInput.EmptyInput` | BeenHere/Pods/nanopb/pb_decode.c:763-850 | the empty input is a message if and only if nothing is required, and then no flag is set, no array has entries, and values are their defaults or zero |
| `PbInput.DefaultsWriteNothing` | BeenHere/Pods/nanopb/pb_encode.c:203-349 | a struct of defaults is written as the empty message, exactly if nothing is required and defaults under implicit presence are zero or empty |
| `PbInput.WireTypeIgnored` | BeenHere/Pods/nanopb/pb_decode.c:356-433 | the wire type of a known field matters only for telling a packed array from one entry |
| `PbInput.NumberZero` | BeenHere/Pods/nanopb/pb_common.c:78-95 | field number 0 is skipped, but fails in an empty descriptor |
| `PbInput.ZeroTagEnds` | BeenHere/Pods/nanopb/pb_decode.c:251-275 | a zero tag ends the message, whatever follows |
| `PbInput.CutTagEnds` | BeenHere/Pods/nanopb/pb_decode.c:251-275 | a tag cut off by the end of the input ends the message, one of more than five bytes is an error |
| `PbInput.SkipsPayload` | BeenHere/Pods/nanopb/pb_decode.c:231-287 | an unknown field is skipped if a payload of its wire type is there, and exactly that |
| `PbInput.OnlyPayloadSkipped` | BeenHere/Pods/nanopb/pb_decode.c:231-287 | and only then: groups and payloads that are cut off are refused |
| `HandshakeWire.ParseRoundTrip` | BeenHere/Pods/BoringSSL/ssl/d1_both.c:477-491 | parsing a fragment undoes encoding, whatever follows |
| `HandshakeWire.ParsedIsEncoded` | BeenHere/Pods/BoringSSL/ssl/d1_both.c:477-492 | and encoding undoes parsing: only what an encoder writes is taken for a fragment |
| `DtlsReceiver.BitRangeBit` | BeenHere/Pods/BoringSSL/ssl/d1_both.c:212-214 | bit_range has exactly the bits from start to end |
| `DtlsReceiver.SetRange` | BeenHere/Pods/BoringSSL/ssl/d1_both.c:231-241 | partial first and last bytes and whole bytes between: exactly the bits of the range are added |
| `DtlsReceiver.AllReceived` | BeenHere/Pods/BoringSSL/ssl/d1_both.c:243-256 | the completeness test holds if and only if every byte is marked |
| `DtlsReceiver.MaskInBounds` | BeenHere/Pods/BoringSSL/ssl/d1_both.c:220-241 | the calls that stay inside the mask: all but an empty range at the end of a message of a multiple of eight bytes |
| `DtlsReceiver.EmptyTailReachesMark` | BeenHere/Pods/BoringSSL/ssl/d1_both.c:350-391 | a fragment from the network that passes every check and would be marked behind the mask |
| `DtlsReceiver.HmFragment.constructor` | BeenHere/Pods/BoringSSL/ssl/d1_both.c:156-208 | a new message has no bytes, and no mask if it is empty |
| `DtlsReceiver.HmFragment.Mark` | BeenHere/Pods/BoringSSL/ssl/d1_both.c:220-256 | for every range that stays inside the mask: the marked bytes become the union with the range, and the mask goes exactly when none is missing |
| `DtlsReceiver.HmFragment.Take` | BeenHere/Pods/BoringSSL/ssl/d1_both.c:387-390 | a fragment is copied to its place and marked |
| `DtlsReceiver.MessageRing.GetIncomingMessage` | BeenHere/Pods/BoringSSL/ssl/d1_both.c:270-299 | the slot of a message, new or consistent with what came before; refused outside the window, before it or behind it, or if type or length differ |
| `DtlsReceiver.MessageRing.ProcessFragment` | BeenHere/Pods/BoringSSL/ssl/d1_both.c:341-391 | one fragment does to the ring what the state machine says |
| `DtlsReceiver.MessageRing.ProcessPayload` | BeenHere/Pods/BoringSSL/ssl/d1_both.c:336-396 | all fragments of a record |
| `DtlsReceiver.MessageRing.ProcessRecord` | BeenHere/Pods/BoringSSL/ssl/d1_both.c:303-396 | out-of-order ChangeCipherSpec and application data are dropped, other types fatal |
| `DtlsReceiver.MessageRing.ReleaseCurrentMessage` | BeenHere/Pods/BoringSSL/ssl/d1_both.c:440-453 | the current message goes and the next number is expected |
| `DtlsReceiver.MessageRing.GetMessage` | BeenHere/Pods/BoringSSL/ssl/d1_both.c:398-430 | a pushed-back message again, or the next one once it is complete |
| `DtlsReceiver.MessageRing.HasIncomingMessages` | BeenHere/Pods/BoringSSL/ssl/d1_both.c:462-475 | true if and only if something besides the current message is buffered |
| `DtlsReceiver.MessageRing.SetReadState` | BeenHere/Pods/BoringSSL/ssl/dtls_method.c:106-114 | the ring's half of the switch: refused while messages are buffered; otherwise the next epoch |
| `DtlsReceiver.ReadChangeCipherSpec` | BeenHere/Pods/BoringSSL/ssl/d1_pkt.c:284-322 | handshake records are dropped until ChangeCipherSpec, anything else is fatal |
| `DtlsReceive.FragmentKeepsRing` | BeenHere/Pods/BoringSSL/ssl/d1_both.c:270-299 | slot i only ever holds a message whose number is i modulo the ring size and in the window |
| `DtlsReceive.DeliversSendersMessages` | BeenHere/Pods/BoringSSL/ssl/d1_both.c:270-453 | over whole runs with loss, repetition, reordering and any fragment boundaries, the delivered messages are the sender's, byte for byte, in order and without a gap |
| `DtlsReceive.GenuineRefused` | BeenHere/Pods/BoringSSL/ssl/d1_both.c:350-377 | exactly which genuine fragments are fatal, and which are ignored |
| `DtlsReceive.EighthMessageFatal` | BeenHere/Pods/BoringSSL/ssl/d1_both.c:368-372 | the eighth of eight genuine messages, arriving first, is such a fragment |
| `DtlsReceive.BytesCovered` | BeenHere/Pods/BoringSSL/ssl/d1_both.c:386-391 | after genuine fragments of any messages, in any order and with any overlaps, byte k of any message in the window is there if and only if it was before or some fragment covers it |
| `DtlsReceive.ReadyWhenCovered` | BeenHere/Pods/BoringSSL/ssl/d1_both.c:258-264 | the next message is ready exactly when it has begun and every byte was there before or is covered |
| `DtlsReceive.RunKeepsEpoch` | BeenHere/Pods/BoringSSL/ssl/dtls_method.c:106-122 | on every reachable state the buffered messages are of one epoch |
| `DtlsReceive.SwitchIsolates` | BeenHere/Pods/BoringSSL/ssl/dtls_method.c:106-122 | the first message after a switch of the read cipher comes only from records after it, if and only if none was pushed back |
| `DtlsDelivery.FatalFragments` | BeenHere/Pods/BoringSSL/ssl/d1_both.c:270-390 | exactly which fragments are fatal, genuine or not, those that disagree with what is there of their message included |
| `DtlsDelivery.FragmentStores` | BeenHere/Pods/BoringSSL/ssl/d1_both.c:375-390 | a fragment stores its bytes in its message unless that is complete, and changes no others |
| `DtlsDelivery.PayloadIsAll` | BeenHere/Pods/BoringSSL/ssl/d1_both.c:343-392 | a record of several fragments does what they do one after the other |
| `DtlsDelivery.BrokenPayloadFatal` | BeenHere/Pods/BoringSSL/ssl/d1_both.c:346-354 | a record that does not consist of whole fragments is fatal, even behind good ones |
| `DtlsDelivery.OthersPassedOver` | BeenHere/Pods/BoringSSL/ssl/d1_both.c:303-338 | application data in the encrypted epoch and ChangeCipherSpec in the clear one are passed over, any other record that is not of the handshake is fatal |
| `DtlsDelivery.DeliveredWhenCovered` | BeenHere/Pods/BoringSSL/ssl/d1_both.c:398-430 | of records with any fragments, the next message is delivered if and only if they and what was there before cover it, and then it is the sender's |
| `DtlsDelivery.PushedBackComesAgain` | BeenHere/Pods/BoringSSL/ssl/d1_both.c:398-430 | a current message that is pushed back is given again by the next call, and not as a new one |
| `DtlsDelivery.ReadMessageIsLetGo` | BeenHere/Pods/BoringSSL/ssl/d1_both.c:398-430 | one that is not is let go, and the next number is waited for |
| `DtlsDelivery.CcsFound` | BeenHere/Pods/BoringSSL/ssl/d1_pkt.c:284-322 | ChangeCipherSpec is found behind any number of handshake records, if it comes before any other and is the byte it should be |
| `DtlsDelivery.SwitchedIff` | BeenHere/Pods/BoringSSL/ssl/dtls_method.c:106-122 | the read cipher is switched if and only if no message is buffered but the current one |
| `DtlsReplay.DiscardsSeenOrStale` | BeenHere/Pods/BoringSSL/ssl/dtls_record.c:138-150 | a number is discarded if and only if it was recorded or is at least 64 behind the maximum |
| `DtlsReplay.RecordAdds` | BeenHere/Pods/BoringSSL/ssl/dtls_record.c:152-173 | the sliding map refines the set of recorded numbers |
| `DtlsReplay.NoReplay` | BeenHere/Pods/BoringSSL/ssl/dtls_record.c:204-237 | over a whole run with cipher changes no record is accepted twice |
| `DtlsReplay.NoNumberTwice` | BeenHere/Pods/BoringSSL/ssl/dtls_record.c:204-237 | no pair of epoch and sequence number is accepted twice while the 16-bit epoch has not wrapped |
| `DtlsReplay.FreshIsAccepted` | BeenHere/Pods/BoringSSL/ssl/dtls_record.c:204-213 | a record of the epoch that decrypts is accepted if and only if it is new and inside the window |
| `DtlsRecord.ParseEncoded` | BeenHere/Pods/BoringSSL/ssl/dtls_record.c:181-200 | the header comes back from an encoded record |
| `DtlsRecord.ParsedIsRecord` | BeenHere/Pods/BoringSSL/ssl/dtls_record.c:182-202 | and only what an encoder writes is taken for a record: of the right version and not too long |
| `DtlsRecord.OpenedIff` | BeenHere/Pods/BoringSSL/ssl/dtls_record.c:182-250 | exactly which records are dropped, too long, alerts or given out, and which count as accepted |
| `DtlsRecord.EpochOnTop` | BeenHere/Pods/BoringSSL/ssl/dtls_record.c:204-205 | the 64-bit number has the epoch in its top 16 bits |
| `DtlsRecord.ToU64` | BeenHere/Pods/BoringSSL/ssl/dtls_record.c:126-136 | the shift-and-or loop reads the big-endian number |
| `DtlsRecord.SequenceUpdate` | BeenHere/Pods/BoringSSL/ssl/tls_record.c:161-170 | the byte-wise increment with carry; false when all bytes wrap to zero |
| `DtlsRecord.IncrementCounts` | BeenHere/Pods/BoringSSL/ssl/tls_record.c:161-170 | it adds one to the big-endian number, or wraps to zero |
| `DtlsRecord.RecordReader.OpenRecord` | BeenHere/Pods/BoringSSL/ssl/dtls_record.c:175-250 | the result of opening a record, the bytes used up, and the window, which only an accepted record changes |
| `DtlsRecord.RecordReader.SetReadState` | BeenHere/Pods/BoringSSL/ssl/dtls_method.c:115-121 | next epoch, empty window, new cipher |
| `DtlsRecord.RecordReader.GetRecord` | BeenHere/Pods/BoringSSL/ssl/d1_pkt.c:158-196 | within one packet: the first record that is not dropped, what follows it, and the window |
| `DtlsRecord.DroppedLeaveNoTrace` | BeenHere/Pods/BoringSSL/ssl/dtls_record.c:196-228 | what is found in a packet is its first record that is not dropped: everything in front of it is dropped, the rest follows it, and the window is as if only that record had come; otherwise nothing changes |
| `DtlsRecord.RecordWriter.SealRecord` | BeenHere/Pods/BoringSSL/ssl/dtls_record.c:275-334 | when sealing succeeds, the bytes it writes, and the number that is used up, also when it then fails |
| `DtlsRecord.RecordWriter.SetWriteState` | BeenHere/Pods/BoringSSL/ssl/dtls_method.c:124-133 | the counter of the old epoch is kept and a new one starts at zero, also when the 16-bit epoch wraps |
| `DtlsRecord.NumbersUnique` | BeenHere/Pods/BoringSSL/ssl/dtls_record.c:285-319 | no epoch and number are sealed twice if and only if no epoch has more than 2^48 records; retransmissions under the old epoch included |
| `DtlsRecord.NumbersRunOut` | BeenHere/Pods/BoringSSL/ssl/tls_record.c:161-170 | 2^48 + 1 records of an epoch use a number twice |
| `DtlsRecord.SealedOpens` | BeenHere/Pods/BoringSSL/ssl/dtls_record.c:175-334 | the receiver of a sealed record gets back its type and contents |
| `DtlsFlight.WalkCovers` | BeenHere/Pods/BoringSSL/ssl/d1_both.c:717-758 | pieces that lead from the start of a flight to its end carry each message whole and each byte exactly once, in order |
| `DtlsFlight.WholeIff` | BeenHere/Pods/BoringSSL/ssl/d1_both.c:656-668 | what is queued is taken if and only if it is a message serialised as one fragment |
| `DtlsFlight.WalkGenuine` | BeenHere/Pods/BoringSSL/ssl/d1_both.c:671-711 | every fragment that is sent is a genuine piece of a message of the connection |
| `DtlsFlight.EndToEnd` | BeenHere/Pods/BoringSSL/ssl/d1_both.c:622-811 | flights sent and re-sent at different sizes, over any network: the receiver delivers the sender's messages |
| `DtlsNetwork.PacketsHeard` | BeenHere/Pods/BoringSSL/ssl/d1_pkt.c:129-196 | of the packets that arrive the handshake is given exactly the records of its epoch that are neither replays nor too old, whole and in order |
| `DtlsNetwork.ContentsTaken` | BeenHere/Pods/BoringSSL/ssl/d1_pkt.c:310-322 | what the sender puts into a record is what the receiver takes it for, ChangeCipherSpec included |
| `DtlsNetwork.LeftIsReadNext` | BeenHere/Pods/BoringSSL/ssl/d1_pkt.c:141-196 | what a call leaves of a packet is what the next one reads; nothing of it is lost |
| `DtlsNetwork.LeftBehindCcs` | BeenHere/Pods/BoringSSL/ssl/d1_pkt.c:284-322 | what is left behind ChangeCipherSpec is what came after it |
| `DtlsNetwork.PacketsToMessages` | BeenHere/Pods/BoringSSL/ssl/d1_both.c:398-811 | from flights that are cut, sealed and packed, over a network that loses, repeats and reorders packets, through opening, window, switches of the cipher and reassembly: the receiver delivers a prefix of the sender's messages, and record layer and handshake are in the same epoch |
| `DtlsPackets.SealedEpoch` | BeenHere/Pods/BoringSSL/ssl/d1_both.c:628-635 | a message is sealed in the epoch in which it was queued, under the null cipher if that is over |
| `DtlsPackets.ChosenFits` | BeenHere/Pods/BoringSSL/ssl/d1_both.c:657-683 | a piece is cut so that its sealed record fits the room, within the overhead bound of the cipher |
| `DtlsPackets.ChosenFills` | BeenHere/Pods/BoringSSL/ssl/d1_both.c:640-690 | there is no progress exactly if the room is too small, and a piece that does not end its message fills the room |
| `DtlsPackets.NullCipherFills` | BeenHere/Pods/BoringSSL/ssl/d1_both.c:670-680 | under the null cipher a record that does not end its message takes all the room there is |
| `DtlsPackets.FailsIffUnsealable` | BeenHere/Pods/BoringSSL/ssl/d1_both.c:622-711 | sealing the next message fails if and only if it does not parse, the cipher refuses the piece, the text takes 2^16 bytes or more, or the number is 2^48 - 1 |
| `DtlsPackets.PacketWalks` | BeenHere/Pods/BoringSSL/ssl/d1_both.c:717-758 | the records of a packet fit the room and lead on from where the flight stood without gap or repetition, even when sealing fails after them |
| `DtlsPackets.PacketIsFull` | BeenHere/Pods/BoringSSL/ssl/d1_both.c:717-758 | a packet only ends with the flight, behind a message that did not fit whole, or where nothing more fits |
| `DtlsPackets.MakerSteady` | BeenHere/Pods/BoringSSL/ssl/d1_both.c:622-711 | the records that are made of a flight are such: no longer than the room, and a message that one does not end is in progress |
| `DtlsPackets.BrokenIff` | BeenHere/Pods/BoringSSL/ssl/d1_both.c:717-758 | a packet breaks after j records if and only if j records seal and the next one does not |
| `DtlsPackets.BreaksIffUnsealable` | BeenHere/Pods/BoringSSL/ssl/d1_both.c:717-758 | that is so exactly if the packet gets as far as j records and the next message does not parse, is refused by the cipher, gives a text of 2^16 bytes or more, or would take number 2^48 - 1 |
| `DtlsPackets.FlushWalks` | BeenHere/Pods/BoringSSL/ssl/d1_both.c:760-800 | what a flush writes leads on in packets that fit the MTU, and the flight stands at their end or, after a failure only, behind it |
| `DtlsPackets.WalkWeighs` | BeenHere/Pods/BoringSSL/ssl/d1_both.c:717-758 | what is left of the flight, in messages and bytes, gets less with every record |
| `DtlsPackets.LeftBehindIff` | BeenHere/Pods/BoringSSL/ssl/d1_both.c:771-789 | a flush leaves the flight past the last written packet if and only if in some packet at least one record seals and a later one does not |
| `DtlsPackets.CoveredIffNoneSkips` | BeenHere/Pods/BoringSSL/ssl/d1_both.c:760-800 | over any number of flushes, with failed writes and other records sealed in between, a flight sent to its end is covered, each byte exactly once, if and only if that happened in none of them |
| `DtlsPackets.FirstMessageSkipped` | BeenHere/Pods/BoringSSL/ssl/d1_both.c:771-776 | two messages at number 2^48 - 2 under the null cipher: the first flush writes nothing, the next one only the second message, and is done |
| `DtlsPackets.DoneIffNothingBreaks` | BeenHere/Pods/BoringSSL/ssl/d1_both.c:760-800 | with working writes and room for every message, a flush sends the flight to its end if and only if no record fails to seal |
| `DtlsPackets.FlushFinishes` | BeenHere/Pods/BoringSSL/ssl/d1_both.c:760-800 | ciphers that refuse nothing, a sensible MTU, and enough numbers and writes: the flush is done and the flight covered |
| `DtlsResend.SealedInOwnEpoch` | BeenHere/Pods/BoringSSL/ssl/d1_both.c:628-635 | whatever is flushed and however often, each message is sealed in the epoch in which it was queued: one from before the switch under the null cipher |
| `DtlsResend.OwnEpochHeard` | BeenHere/Pods/BoringSSL/ssl/dtls_record.c:200-215 | a reader in either epoch that has seen only earlier numbers takes exactly the records of its epoch, all of them |
| `DtlsResend.FlightIsHeard` | BeenHere/Pods/BoringSSL/ssl/d1_both.c:760-811 | packets of a flight that is sent again reach a peer in either epoch: its handshake is given every record of the messages of that epoch, in order |
| `DtlsSender.SealNextMessage` | BeenHere/Pods/BoringSSL/ssl/d1_both.c:622-711 | one record of the next message as the model says, with the exact condition for failing |
| `DtlsSender.SealNextPacket` | BeenHere/Pods/BoringSSL/ssl/d1_both.c:717-758 | the loop makes the packet of the model and fails exactly if a record does not seal or none fits |
| `DtlsSender.OutgoingFlight.Clear` | BeenHere/Pods/BoringSSL/ssl/d1_both.c:496-504 | the flight is empty |
| `DtlsSender.OutgoingFlight.AddMessage` | BeenHere/Pods/BoringSSL/ssl/d1_both.c:506-576 | a message gets the next number, modulo 2^16, and is queued; refused exactly if it is too long, the flight is full or the transcript fails |
| `DtlsSender.OutgoingFlight.AddChangeCipherSpec` | BeenHere/Pods/BoringSSL/ssl/d1_both.c:578-580 | ChangeCipherSpec is queued unless the flight is full |
| `DtlsSender.OutgoingFlight.UpdateMtu` | BeenHere/Pods/BoringSSL/ssl/d1_both.c:593-610 | the MTU that is used |
| `DtlsSender.OutgoingFlight.SendPacket` | BeenHere/Pods/BoringSSL/ssl/d1_both.c:771-789 | after a failed write the flight stands where the packet began, after a failure to seal where sealing stopped; the status is determined |
| `DtlsSender.OutgoingFlight.Flush` | BeenHere/Pods/BoringSSL/ssl/d1_both.c:760-800 | the flush of the model: what is written, where the flight stands and what numbers are used up are determined; it skips exactly as said above, is done whenever it can be, and seals each message in the epoch in which it was queued |
| `DtlsSender.OutgoingFlight.Retransmit` | BeenHere/Pods/BoringSSL/ssl/d1_both.c:802-811 | the same from the start of the flight; when it is done the flight is covered, it is done whenever it can be, and each message is sealed in its own epoch |
| `TlsClient.CompletesInOrder` | BeenHere/Pods/BoringSSL/ssl/handshake_client.c:190-511 | the whole trace of a handshake that completes, over any number of calls and blocked steps, is exactly the listed parts in order and nothing else: at most one cookie round, and only over DTLS; optional messages only where announced or requested; a server key exchange if the cipher needs one; and both ChangeCipherSpec and Finished pairs |
| `TlsClient.ServerFirstIffResumed` | BeenHere/Pods/BoringSSL/ssl/handshake_client.c:412-437 | on every run, complete or not: the server's Finished precedes the client's ChangeCipherSpec if and only if the session is resumed, and the client's Finished the server's ChangeCipherSpec if and only if it is not |
| `TlsClient.CertificateVerifiedFirst` | BeenHere/Pods/BoringSSL/ssl/handshake_client.c:250-296 | on every run, complete or not: with a certificate cipher in a full handshake the certificate is read, then verified, before the key exchange is read or sent |
| `TlsClient.StepKeeps` | BeenHere/Pods/BoringSSL/ssl/handshake_client.c:197-500 | every turn, also a blocked or failed one, keeps the invariant: what has happened and what is queued are exactly the parts that the state says, unless the connection is dead |
| `TlsClient.FlightNeverFull` | BeenHere/Pods/BoringSSL/ssl/d1_both.c:540-550 | on every run fewer than seven messages are queued whenever one is added, so the assertion in add_outgoing holds |
| `TlsClient.QueueLength` | BeenHere/Pods/BoringSSL/ssl/d1_lib.c:206-215 | on every run there are never more than seven messages in the flight between clears |
| `TlsClient.FlushesWholeFlight` | BeenHere/Pods/BoringSSL/ssl/handshake_client.c:298-397 | on every run: when the client's second flight is flushed, it consists of exactly the messages from its certificate (or, resumed, its ChangeCipherSpec) to its Finished, in order |
| `TlsClient.PushBackSound` | BeenHere/Pods/BoringSSL/ssl/handshake_client.c:1358-1371 | on every run a pushed-back message is there to be read, and none is pushed back when the read cipher changes |
| `TlsClient.StepProgresses` | BeenHere/Pods/BoringSSL/ssl/handshake_client.c:197-500 | a successful turn decreases a measure |
| `TlsProgress.DiesIffUnexpected` | BeenHere/Pods/BoringSSL/ssl/handshake_client.c:197-500 | a turn whose call succeeds ends the connection if and only if the state reads a message of a type it does not go on with, or the channel ID hashes of a full handshake cannot be recorded |
| `TlsProgress.Completes` | BeenHere/Pods/BoringSSL/ssl/handshake_client.c:190-511 | of as many successful turns as the measure says, the handshake completes if none is unexpected in that sense, and otherwise the connection ends |
| `TlsProgress.CanComplete` | BeenHere/Pods/BoringSSL/ssl/handshake_client.c:190-511 | from every live state with nothing pushed back some turns lead to the end |
| `TlsProgress.HandshakesComplete` | BeenHere/Pods/BoringSSL/ssl/handshake_client.c:190-511 | full and resumed handshakes complete, over TLS and DTLS, whatever the ServerHello asks for and the client chooses; the session is resumed if and only if it was offered, usable and taken up |
| `TlsChoices.MessagesReadInOrder` | BeenHere/Pods/BoringSSL/ssl/handshake_client.c:190-511 | on every run the handshake messages that came in are those that were read, in that order, and the one that is pushed back: an optional message that did not come costs none |
| `TlsChoices.ChoicesHonoured` | BeenHere/Pods/BoringSSL/ssl/handshake_client.c:190-511 | on every run: the ServerHello that came is the one that counts, the session is resumed if offered, usable and named, and CertificateVerify is sent if and only if requested and possible |
| `TlsChoices.CookieIffAsked` | BeenHere/Pods/BoringSSL/ssl/handshake_client.c:206-240 | on every run over DTLS a HelloVerifyRequest is looked for before the ServerHello, and the cookie is sent if and only if one came |
| `TlsChoices.FalseStartIffAllowed` | BeenHere/Pods/BoringSSL/ssl/handshake_client.c:366-397 | on every run False Start is decided on if and only if it is allowed when Finished is sent, not over DTLS and not for a resumed session |
| `TlsChoices.SucceedsEarlyIff` | BeenHere/Pods/BoringSSL/ssl/handshake_client.c:399-403 | a call succeeds before the handshake is over exactly when it comes to False Start, which is only where that is allowed |
| `TlsChoices.FalseStartHappens` | BeenHere/Pods/BoringSSL/ssl/handshake_client.c:391-450 | where it is allowed, the call that flushes the client's flight comes to it and succeeds |
| `TlsChoices.OverSucceeds` | BeenHere/Pods/BoringSSL/ssl/handshake_client.c:484-497 | once the handshake is over every call succeeds and changes nothing |
| `TlsChoices.FinishingSucceeds` | BeenHere/Pods/BoringSSL/ssl/handshake_client.c:455-497 | the call that finishes the handshake succeeds, and cannot fail for a resumed session |
| `TlsChoices.BlockingIsInvisible` | BeenHere/Pods/BoringSSL/ssl/handshake_client.c:190-511 | a step that is blocked ends nothing and leaves no trace: it is taken up again as if it had not been tried |
| `TlsChoices.NothingToDoCannotFail` | BeenHere/Pods/BoringSSL/ssl/handshake_client.c:190-511 | the states that have nothing to send, read or check are passed whatever happens, and every other one ends the connection if its call fails |
| `TlsChoices.NothingToDoMovesOn` | BeenHere/Pods/BoringSSL/ssl/handshake_client.c:190-511 | and they go on to a later state with no message sent or read |
| `TlsClient.FailedHashesLeaveStaleState` | BeenHere/Pods/BoringSSL/ssl/handshake_client.c:366-397 | after the Finished of any run, next_state is still that of the first flight if and only if the channel ID hashes of a full handshake could not be recorded |
| `TlsClient.StaleStateReached` | BeenHere/Pods/BoringSSL/ssl/handshake_client.c:366-397 | a run of seventeen turns that ends there |
| `TlsClient.GetHelloVerifyKeeps` | BeenHere/Pods/BoringSSL/ssl/handshake_client.c:773-813 | a cookie request, which restarts the hello and clears the flight, and any other message, which is pushed back, keep the invariant and lower the measure |
| `TlsClient.GetCertificateRequestKeeps` | BeenHere/Pods/BoringSSL/ssl/handshake_client.c:1358-1423 | the same for a request, for a ServerHelloDone in its place, which is pushed back, and for ciphers without certificates |
| `TlsClient.SendFinishedKeeps` | BeenHere/Pods/BoringSSL/ssl/s3_both.c:365-411 | the client's Finished is the last part of its flight, in a full and in a resumed handshake |
| `TlsClient.GetFinishedKeeps` | BeenHere/Pods/BoringSSL/ssl/s3_both.c:413-463 | the server's Finished empties the flight and leads to the client's flight or to the end |
| `TlsOverDtls.MessageWaitsOrFails` | BeenHere/Pods/BoringSSL/ssl/d1_both.c:398-430 | a message that has not come is waited for, and a failure of the receiver ends the connection |
| `TlsOverDtls.CcsWaitsOrFails` | BeenHere/Pods/BoringSSL/ssl/d1_pkt.c:284-322 | and so is ChangeCipherSpec |
| `TlsOverDtls.AlwaysAgreed` | BeenHere/Pods/BoringSSL/ssl/d1_both.c:398-430 | client and receiver run together: on every run they agree on the current message, on whether it was pushed back, and on the epoch |
| `TlsOverDtls.EpochsIsolated` | BeenHere/Pods/BoringSSL/ssl/handshake_client.c:412-431 | on every such run a message that is read anew was put together only from records of the epoch it is read in, and the server's Finished only from protected ones |
| `TlsConnect.ClientHandshake.Connect` | BeenHere/Pods/BoringSSL/ssl/handshake_client.c:190-511 | the loop over the fields follows the machine; it keeps the record of the handshake, and succeeds only when the handshake is over or, in a full handshake over TLS, once at False Start |
| `TlsConnect.ClientHandshake.TakeTurn` | BeenHere/Pods/BoringSSL/ssl/handshake_client.c:197-500 | one pass through the switch keeps the record of the handshake straight, ends the connection after a successful call exactly if something unexpected happened, and otherwise brings the handshake nearer to its end |
| `TlsConnect.ClientHandshake.DoGetServerKeyExchange` | BeenHere/Pods/BoringSSL/ssl/handshake_client.c:1119-1141 | an optional ServerKeyExchange that does not come is pushed back |
| `TlsConnect.ClientHandshake.DoSendFinished` | BeenHere/Pods/BoringSSL/ssl/handshake_client.c:366-397 | the state after Finished in all four cases |
| `Refcount.LockedCount.IncUnderLock` | BeenHere/Pods/BoringSSL/crypto/refcount_lock.c:29-35 | a saturating increment |
| `Refcount.LockedCount.DecAndTestZero` | BeenHere/Pods/BoringSSL/crypto/refcount_lock.c:37-51 | a decrement that saturates, aborts at zero and reports reaching it |
| `Refcount.LockFreeRefinesLocked` | BeenHere/Pods/BoringSSL/crypto/refcount_c11.c:37-65 | under any interleaving, with spurious failures, every operation takes effect in one step between call and return, as the locked operations in that order |
| `Refcount.SaturationSticks` | BeenHere/Pods/BoringSSL/crypto/refcount_c11.c:37-65 | a saturated count stays saturated |
| `Refcount.BalancedUse` | BeenHere/Pods/BoringSSL/crypto/refcount_c11.c:37-65 | under proper use nothing aborts, and exactly one decrement reports zero when the last reference goes, none if the count saturated |
| `Stars.CreateStarLayers` | BeenHere/BeenHere/CosmosDistrib.swift:513-528 | the fill levels of the star loop are between 0 and 1, fall from the first star on, and sum to the displayed rating |
| `Stars.CutThenRounded` | BeenHere/BeenHere/CosmosDistrib.swift:952-985 | cutting to the number of stars before or after rounding gives the same rating |
| `Stars.TouchMonotone` | BeenHere/BeenHere/CosmosDistrib.swift:814-838 | the touch rating is monotone in the position and stays between its bounds |
| `Stars.RoundNearest` | BeenHere/BeenHere/CosmosDistrib.swift:926-936 | rounding gives the nearest whole number, halves away from zero |
| `Stars.RoundedNearest` | BeenHere/BeenHere/CosmosDistrib.swift:952-967 | the rating shown is the nearest whole or half rating, or the rating itself |
| `Stars.PreciseInStar` | BeenHere/BeenHere/CosmosDistrib.swift:849-875 | the rating of a position is the stars in front of it and the part of its star before it, all of it in the margin |
| `Stars.TouchSelects` | BeenHere/BeenHere/CosmosDistrib.swift:814-836 | a touch selects a star from its first twentieth on, or its half up to eleven twentieths |
| `Stars.PreciseDropsBack` | BeenHere/BeenHere/CosmosDistrib.swift:849-875 | an input at which the precise rating itself drops back past the last star |
| `Stars.PreciseMonotoneIff` | BeenHere/BeenHere/CosmosDistrib.swift:849-875 | it exceeds the number of stars exactly between the start and the end of the star after the last one, and goes up from p to q unless p lies there and q behind |
| `Stars.PreciseWithinStars` | BeenHere/BeenHere/CosmosDistrib.swift:849-875 | it exceeds the number of stars by one at most, and is cut only where it would exceed it |

## Left out

- nanopb callbacks, extensions, pointer fields and `PB_ENABLE_MALLOC`: compiled out or supplied by the application.
- `pb_encode_delimited` and `pb_decode_delimited`: a length in front of a message, as in a submessage.
- Overflow of `size_t` in the encoder: the theorems assume lengths that fit (`Sized`, and less than 2^32 bytes in the round trip).
- A static submessage under implicit presence: excluded by `WfField`, because `pb_check_proto3_default_value` does not look at
  counts and flags inside it.
- Aliasing of the decoder's destination: the struct is the value that the decoder returns, and what a failed decode leaves in it
  is not modelled.
- Aliasing of input and output in `dtls_seal_record`: the model seals from one value into another.
- DtlsSender.OutgoingFlight.AddMessage: after 65536 messages `handshake_write_seq` wraps; messages are still queued, but no
  longer known by their number.
- DtlsReceiver.HmFragment.Mark: asks for a range that starts inside the mask; the source would index past the mask.
- DtlsReceiver.HmFragment.Take: marks nothing for an empty range at the end of a message of a multiple of eight bytes, because
  what the source does there is undefined.
- DtlsReceiver.MessageRing.SetReadState: the window, the counter and the cipher that the source resets in the same function are
  those of `DtlsRecord.RecordReader.SetReadState`.
- PbDecode.DecodeNoinit: asks that the required fields of the descriptor and its submessages can be checked; for the others
  the source's behaviour is undefined, as `PbIter.CheckRequired` says.
- DtlsRecord.RecordReader.GetRecord: timeouts and the shutdown state; further packets are read in `DtlsNetwork.Pull`.
- DtlsNetwork.PacketsToMessages: more than 2^16 epochs, of which records carry only the low sixteen bits; the source has two.
- DtlsSender.OutgoingFlight.Flush: sending places move when a packet is written, not while it is being made; the two differ
  only inside the call.
- DTLS timers, the number of timeouts and the growth of the timeout (d1_lib.c:76-240): clocks.
- Alerts: a record of that type is reported, what `ssl_process_alert` does with it is not part of this model.
- TLS 1.3, renegotiation, the server side, and the SSL 3.0 warning alert in place of a client certificate.
- The contents of handshake messages, the transcript and key derivation: each is a call that succeeds or fails.
- `dtls1_read_app_data`: application data after the handshake.
- Memory order of the atomic operations: each load and compare-and-swap is one step on one shared counter.
- Rounding of floating point in the star control, and its drawing and layout.
- Stars.TouchMonotone: asks for stars of positive width that a negative margin does not use up; the source divides by their
  width and by the sum of both without a check.
- The app's screens, map, sign-in and Firebase code: user interface and network plumbing.
