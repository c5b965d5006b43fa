# nanopb: encoder, decoder and field iterator

This project models nanopb 0.3.9.8, the Protocol Buffers implementation for small systems
that is vendored under `Apartment/Pods/nanopb`, and proves what it promises. The functions
implement the sections "Base 128 Varints", "Message Structure", "Signed Integers", "Packed
Repeated Fields" and "Last One Wins" of the Protocol Buffers Encoding specification.

`dafny verify dfyconfig.toml` checks everything.

## How it is built

There are two layers, and each imperative method is proved against a function.

* **Meaning.** `Encoding` says which bytes a message struct becomes, `Decoding` what a byte
  string does to a struct. The decoder's functions recurse on the number of bytes left alone,
  never on the table, so decoding ends on every input: each turn of the main loop consumes at
  least one byte, and a substream is shorter than its parent was. The main
  theorems (`RoundTrip`, `Exactness`, `Lengths`, `Sizes`, `Reencoding`, `Records`, `Merging`,
  `Ordering`, `Packed`, `Repeated`, `Submessages`, `LastOneWins`, `InitialValues`, `Omission`,
  `Foreign`, `Framing`, `Safety`, `RequiredFields`, `RecursiveTables`, `Varint`, `Varint32`,
  `Scalars`) are about these functions. `WireFormat` writes the format down a second time,
  with the numbers of the specification, and compares both sides with it.
* **Code.** `Output`, `Encoder`, `NegativeVarint`, `Input`, `Decoder`, `RequiredBits`,
  `FieldIter` (module `FieldIterator`) and `PointerArrays` are the C functions: classes for
  `pb_ostream_t`, `pb_istream_t`, `pb_field_iter_t`, the destination struct, the
  `fields_seen` bitset and a growing heap array, with the original's loops. `|`, `^`, shifts
  and truncations are written out on natural numbers in `Bits`.

A struct is a sequence of slots, one for each member together with its `has_`, `_count` or
`which_` companion; the members of a union share a slot. Byte offsets appear in the iterator
only, where the addresses recovered from the table are compared with a direct layout.

The configuration is the default one: `pb_size_t` has 8 bits, `size_t` 64, arrays are packed.
Fields have static allocation, except in `PointerArrays`. `WellFormed` lists what generated
tables guarantee: distinct nonzero tags, no default pointer on a proto3 singular field,
storage for a NUL, and defaults that fit. Tags may be as large as 2^29 - 1, as in builds with
a wider `pb_size_t`. Encoders take any struct of the right type (`Typed`): strings may lack
their NUL and selectors may be wrong. `NestedBelow` bounds the encoded size of nested
messages: below 2^64 where sizes are counted, below 2^32 where the decoder, whose length
prefixes have 32 bits, reads them back. `Sizes` proves it for tables whose data_size covers
the nested struct, as generated ones do.

## Edges of what is promised

* The Encoding specification lets concatenated encodings merge, and `pb_decode.h:74-75` offers
  pb_decode_noinit for merging. A zero tag in the first part ends the decoding, so what
  follows is then ignored (`Merging.NoMergeBehindTerminator`). Joined bytes are refused when
  the second part begins its fixed-count arrays with the one that the first part filled last
  (`Merging.MergeByConcatenation`, `Merging.ArrayReceivedTwice`).
* `PB_DATAOFFSET_UNION` is an in-band marker: two unions exactly PB_SIZE_MAX bytes apart are
  taken for one (`FieldIterator.LayoutRecoveredIff`).
* A string without a NUL is encoded without complaint and cannot be decoded
  (`Exactness.RoundTripExactly`).
* Required fields beyond the 64th are not checked (`RequiredFields.RequiredFieldsExactly`).
* For an empty message type the table's terminator answers to tag 0, and the field is decoded
  as a bool instead of being skipped (`Records.TagZeroOnEmptyTable`).

## Model

| member | source | states |
|---|---|---|
| `RoundTrip.MessageRoundTrip` | Apartment/Pods/nanopb/pb_decode.c:928-1090 | For every well-formed table of static required, optional, repeated, oneof and nested fields: decoding what pb_encode wrote succeeds, uses up the bytes, and gives the same message, absent optionals compared as absent |
| `Exactness.RoundTripExactly` | Apartment/Pods/nanopb/pb_decode.c:928-1090 | The same as an if-and-only-if: for every struct that pb_encode accepts, the trip gives the message back exactly when every string present has its NUL inside its buffer, every oneof selector is 0 or names a member of its union, and every nested message is shorter than 2^32 bytes |
| `Lengths.MessagePassed` | Apartment/Pods/nanopb/pb_decode.c:372-385 | When the main loop succeeds on what pb_encode wrote, from whatever state, every nested message is shorter than 2^32 bytes |
| `Lengths.DelimitedReadable` | Apartment/Pods/nanopb/pb_decode.c:372-385 | A length prefix below 2^32 is read back with its payload, one from there to 2^63 is refused |
| `Reencoding.DecodedReencodes` | Apartment/Pods/nanopb/pb_decode.c:1078-1090 | For every byte string that decodes: the result can be encoded exactly when its fixed-count arrays have been received, and the bytes written then decode to the same message and are written again unchanged |
| `Reencoding.GeneratedReencodes` | Apartment/Pods/nanopb/pb_decode.c:1078-1090 | The same for generated tables without any assumption on sizes |
| `Reencoding.MessageDefined` | Apartment/Pods/nanopb/pb_encode.c:528-550 | pb_encode of a struct within its storage is defined exactly when its fixed-count arrays are full |
| `Ordering.AnyOrder` | Apartment/Pods/nanopb/pb_decode.c:946-1024 | Records may arrive in any order: two arrangements in which each slot, and the fixed-count arrays together, see the same records in the same order decode alike, in success and failure, wherever unknown fields lie |
| `Ordering.Exchange` | Apartment/Pods/nanopb/pb_decode.c:946-1024 | Two neighbouring records of different parts of the struct may be exchanged |
| `Exactness.UnterminatedString` | Apartment/Pods/nanopb/pb_encode.c:875-899 | The encoder accepts a string that fills its buffer without a NUL, and the decoder refuses the result (concrete bytes) |
| `WireFormat.MessageForm` | Apartment/Pods/nanopb/pb_encode.c:528-550 | What pb_encode writes is the wire format of the specification: in front of each value the varint of 8 * tag + w, with w the number 0, 1, 2 or 5 by type, then the value in the prescribed bytes, entry by entry in the order of the table; arrays of scalars are one packed record, and a proto3 value is left out exactly when it is blank |
| `WireFormat.ScalarForm` | Apartment/Pods/nanopb/pb_encode.c:769-850 | Bools are 0 or 1, negative numbers ten-byte two's complement or zigzag, fixed members their bytes from the lowest on |
| `WireFormat.BlankIsOmitted` | Apartment/Pods/nanopb/pb_encode.c:240-337 | Nothing is written for a proto3 field exactly when its value is 0, an empty string, no bytes, or a message in which everything is |
| `WireFormat.TagExactly` | Apartment/Pods/nanopb/pb_decode.c:298-319 | A zero ends the message; otherwise the lower three bits are the wire type and the others the tag |
| `WireFormat.SkipExactly` | Apartment/Pods/nanopb/pb_decode.c:321-331 | Wire types 0, 1, 2 and 5 skip a varint, eight bytes, a counted string and four bytes; too few bytes and all other wire types fail |
| `WireFormat.BlobsExactly` | Apartment/Pods/nanopb/pb_decode.c:1441-1517 | Which lengths the bytes, string and fixed-length decoders accept; an empty fixed-length value is all zeros |
| `WireFormat.BoolsExactly` | Apartment/Pods/nanopb/pb_decode.c:1328-1337 | Any varint that the 32-bit reader takes, true unless it is zero |
| `WireFormat.SignedExactly` | Apartment/Pods/nanopb/pb_decode.c:1339-1374 | Every complete varint as a signed member: two's complement in 64 bits, or in the low 32 for smaller members |
| `WireFormat.UnsignedExactly` | Apartment/Pods/nanopb/pb_decode.c:1376-1398 | Every complete varint as an unsigned member |
| `WireFormat.ZigZagExactly` | Apartment/Pods/nanopb/pb_decode.c:1400-1422 | Every complete varint as a zigzag member |
| `WireFormat.FixedExactly` | Apartment/Pods/nanopb/pb_decode.c:1424-1439 | Fixed members are read lowest byte first |
| `WireFormat.InvalidSizes` | Apartment/Pods/nanopb/pb_decode.c:1339-1422 | Integer members that are not of 1, 2, 4 or 8 bytes are refused on both sides |
| `Foreign.ForeignMessage` | Apartment/Pods/nanopb/pb_decode.c:976-988 | A receiver that shares no tag with the writer makes of its bytes what it makes of none, and leaves nothing unread |
| `Submessages.SubmessageRecord` | Apartment/Pods/nanopb/pb_decode.c:1519-1541 | One record of a required, optional or oneof submessage leaves what decoding its payload makes of the struct that was there, has_ set and the union selected; a newly selected member starts from defaults |
| `Submessages.SubmessageItem` | Apartment/Pods/nanopb/pb_decode.c:1519-1541 | One record of a repeated submessage appends what its payload makes of defaults |
| `Submessages.SubmessageTwice` | Apartment/Pods/nanopb/pb_decode.c:466-478 | Two records of a submessage do what one with the joined payload does: it is merged, not replaced, unless a filled fixed-count array would go on |
| `LastOneWins.LastWins` | Apartment/Pods/nanopb/pb_decode.c:406-483 | A value that is neither a message nor repeated replaces what was there, in a union also other members: the earlier record might as well be missing |
| `LastOneWins.PlainRecord` | Apartment/Pods/nanopb/pb_decode.c:406-483 | One record stores the value that its bytes stand for, has_ set or the union selected, whatever its wire type says and whatever the slot held |
| `LastOneWins.PlainItem` | Apartment/Pods/nanopb/pb_decode.c:455-464 | One unpacked record of an array appends its value |
| `InitialValues.DefaultsAreInitial` | Apartment/Pods/nanopb/pb_decode.c:839-922 | Every part of the struct starts with the default of its descriptor, or else 0, no bytes or all zero bytes; has_, counts and selectors are 0, at any depth |
| `InitialValues.AbsentFieldsStay` | Apartment/Pods/nanopb/pb_decode.c:928-1090 | A field that is not on the wire keeps what it held; after pb_decode that is its initial value |
| `InitialValues.InitialIsEmpty` | Apartment/Pods/nanopb/pb_encode.c:240-337 | A struct as the defaults leave it encodes to no bytes, at any depth, unless the table has required fields, fixed-count arrays or proto3 fixed-length bytes |
| `RoundTrip.MessageReceived` | Apartment/Pods/nanopb/pb_decode.c:928-1076 | The bytes of a message are a whole number of records, so that the main loop is at a field boundary behind them with the message restored, the required fields seen and fixed-count arrays full |
| `RoundTrip.FieldRoundTrip` | Apartment/Pods/nanopb/pb_decode.c:406-483 | Decoding what encode_basic_field wrote for entry n restores entry n and disturbs no other entry, unions included |
| `RoundTrip.ValueRoundTrip` | Apartment/Pods/nanopb/pb_decode.c:1328-1564 | Every pb_dec function undoes its pb_enc function, whatever follows in the stream |
| `RoundTrip.OmittedIsDefault` | Apartment/Pods/nanopb/pb_encode.c:240-337 | A message that the proto3 check calls default means the same as the defaults the receiver starts from |
| `Records.UnknownFieldIsTransparent` | Apartment/Pods/nanopb/pb_decode.c:946-1024 | A skippable field with an unknown tag (not tag 0 on an empty table), inserted at any field boundary, changes neither success nor the message nor the bytes left unread |
| `Records.TagZeroOnEmptyTable` | Apartment/Pods/nanopb/pb_decode.c:962-994 | The terminator of an empty table answers to tag 0: a skippable field that the decoder refuses (concrete bytes) |
| `Records.EmptyTableTransparency` | Apartment/Pods/nanopb/pb_decode.c:946-1024 | For a message type without fields, bytes are transparent whatever follows exactly when the decoder itself reads them as whole records |
| `Merging.MergeByConcatenation` | Apartment/Pods/nanopb/pb_decode.c:928-1076 | When a and then b decode into the same struct, a without a zero tag, a ++ b gives the same struct, nested messages and oneofs included, if and only if b does not begin its fixed-count arrays with the one that a filled last; otherwise a ++ b is refused |
| `Merging.ArrayReceivedTwice` | Apartment/Pods/nanopb/pb_decode.c:991-1013 | A fixed-count array received in both halves: each half decodes, the joined bytes do not (concrete bytes) |
| `Merging.LoopForgetsFixed` | Apartment/Pods/nanopb/pb_decode.c:991-1013 | States that differ in the array filled last agree from the next fixed-count array on |
| `Merging.FullArrayRefuses` | Apartment/Pods/nanopb/pb_decode.c:991-1013 | Bytes that fill an empty array overflow the full one |
| `Merging.NoMergeBehindTerminator` | Apartment/Pods/nanopb/pb_decode.c:310-314 | Behind a zero tag nothing is merged, b stays unread |
| `Repeated.ItemsInWireOrder` | Apartment/Pods/nanopb/pb_decode.c:424-464 | Whatever fields lie between: a repeated field of any type holds its earlier items and then those of all its records in wire order, never more than array_size; a fixed-count array starts anew behind each record of another one, so that those since the last restart count |
| `Records.LoopAfterRun` | Apartment/Pods/nanopb/pb_decode.c:946-1024 | After whole records the main loop goes on as if it started with what follows |
| `Packed.PackedUnpackedMix` | Apartment/Pods/nanopb/pb_decode.c:424-464 | Any mix of packed chunks and single elements decodes to the concatenation in wire order after what the array holds, a fixed-count array beginning anew unless it is being filled; it fails exactly when the total exceeds array_size or another fixed-count array is incomplete |
| `Packed.DecodePackedChunk` | Apartment/Pods/nanopb/pb_decode.c:435-453 | The packed loop appends the chunk or reports the overflow |
| `Safety.DecodeFits` | Apartment/Pods/nanopb/pb_decode.c:928-1076 | For every byte string: after a successful decode every count is at most array_size, every string has room for its NUL, every number is in range, every selector is valid and every fixed-count array is full or untouched, in nested messages too |
| `Safety.RecordWithin` | Apartment/Pods/nanopb/pb_decode.c:406-483 | The same invariant for one turn of the main loop, for storage and for C types |
| `Safety.DecodeTyped` | Apartment/Pods/nanopb/pb_decode.c:928-1076 | Into a struct of the right type, with whatever unterminated strings and excessive counts, only values of the right type are written |
| `RequiredFields.RequiredFieldsExactly` | Apartment/Pods/nanopb/pb_decode.c:1015-1073 | Decoding succeeds exactly when all fields decode, the last fixed-count array is full and the tag of each of the first 64 required fields was on the wire |
| `RequiredFields.SeenMeansOnWire` | Apartment/Pods/nanopb/pb_decode.c:1015-1020 | A required entry is marked exactly when a field with its tag was processed |
| `RequiredFields.RequiredIndexCounts` | Apartment/Pods/nanopb/pb_common.c:65-70 | required_field_index is the number of required entries before the current one |
| `Omission.OmissionIsSound` | Apartment/Pods/nanopb/pb_encode.c:240-337 | The recursive default check is true exactly when pb_encode writes zero bytes and the struct hides nothing: no selector outside its union and no fixed-count array of length 0 |
| `Omission.HiddenSelector` | Apartment/Pods/nanopb/pb_encode.c:262-266 | Why the second condition is there: a stray selector writes nothing and yet is not default |
| `Omission.EncodingDependsOnMeaning` | Apartment/Pods/nanopb/pb_encode.c:341-426 | Messages that mean the same are encoded alike: storage behind a has_ flag, inactive union members and bytes behind a NUL never reach the wire |
| `Sizes.GeneratedRoundTrip` | Apartment/Pods/nanopb/pb_decode.c:928-1090 | The if-and-only-if for generated tables without any assumption on encoded sizes: data_size covers the struct and messages nest at most 600000 levels deep |
| `Sizes.MessageIsShort` | Apartment/Pods/nanopb/pb_encode.c:528-550 | An encoding has at most 25 bytes for each byte of the struct and each level of nesting, a union counting once |
| `Sizes.NestedAreShort` | Apartment/Pods/nanopb/pb_encode.c:717-735 | So nested messages of generated tables stay below the limits of the length prefix and of size_t |
| `RecursiveTables.Walk` | Apartment/Pods/nanopb/pb_decode.c:1519-1541 | For every byte string, refused ones included, and every environment of tables, cyclic or not: the way through all records and into every nested message with a readable prefix ends, and substreams nest at most half as deep as there are bytes |
| `RecursiveTables.WalkFollowsDecoder` | Apartment/Pods/nanopb/pb_decode.c:946-1024 | Wherever the decoder succeeds the walk has gone through the same records to the end |
| `RecursiveTables.SelfNested` | Apartment/Pods/nanopb/pb_decode.c:1519-1541 | A message type with a field of its own type reaches every depth |
| `RecursiveTables.RefusedInside` | Apartment/Pods/nanopb/pb_decode.c:1519-1541 | So it does when the innermost message is refused |
| `Framing.DelimitedStream` | Apartment/Pods/nanopb/pb_decode.c:1107-1120 | Any number of delimited messages and arbitrary bytes behind them: each message comes back in order and exactly the tail is left |
| `Framing.DelimitedMessage` | Apartment/Pods/nanopb/pb_encode.c:552-555 | The same for one message |
| `Framing.NullTerminatedMessage` | Apartment/Pods/nanopb/pb_encode.c:557-565 | A zero-terminated message and arbitrary bytes behind it: the decoder stops just behind the zero |
| `Framing.FramesExactly` | Apartment/Pods/nanopb/pb_encode.c:552-565 | The length as a varint and the message, or the message and a zero |
| `Encoder.Encode` | Apartment/Pods/nanopb/pb_encode.c:528-550 | pb_encode succeeds exactly when the encoding is defined and fits, appends precisely it, and otherwise keeps what was written, bytes_written <= max_size and all memory outside the window |
| `Encoder.EncodeIntoBuffer` | Apartment/Pods/nanopb/pb_encode.c:86-124 | Into n bytes it succeeds exactly when the encoded size is defined and at most n; bytes from n on are never written |
| `Encoder.GetEncodedSize` | Apartment/Pods/nanopb/pb_encode.c:567-576 | Exactly the number of bytes that pb_encode writes |
| `Encoder.WriteSubmessage` | Apartment/Pods/nanopb/pb_encode.c:717-765 | Sizing pass, prefix and writing pass together write the length-prefixed message |
| `Encoder.WriteBody` | Apartment/Pods/nanopb/pb_encode.c:737-764 | The substream of the counted size is filled exactly, so that "submsg size changed" is unreachable |
| `Encoder.WriteArray` | Apartment/Pods/nanopb/pb_encode.c:147-236 | An array is one packed record, or one record an item, or an error above array_size |
| `Encoder.PackedSize` | Apartment/Pods/nanopb/pb_encode.c:168-190 | The 4*count and 8*count shortcuts and the sizing stream give the length of the payload that is then written |
| `Packed.PayloadBound` | Apartment/Pods/nanopb/pb_encode.c:168-176 | A payload of n items has at most 10*n bytes, and exactly 4*n or 8*n for the fixed types |
| `Encoder.WriteItems` | Apartment/Pods/nanopb/pb_encode.c:197-205 | The writing loop emits the items in order |
| `Encoder.WriteTaggedItems` | Apartment/Pods/nanopb/pb_encode.c:207-233 | The unpacked loop emits tag and item each time |
| `Encoder.WriteField` | Apartment/Pods/nanopb/pb_encode.c:341-426 | encode_basic_field with its has_, count and which_ decisions, fixed-count arrays being full |
| `Encoder.WriteValue` | Apartment/Pods/nanopb/pb_encode.c:769-912 | The PB_ENCODERS table writes the value as the wire format has it |
| `Encoder.WriteScalar` | Apartment/Pods/nanopb/pb_encode.c:769-850 | The integer encoders, invalid data_size included |
| `Encoder.StringLength` | Apartment/Pods/nanopb/pb_encode.c:875-899 | The strnlen loop finds the bytes in front of the NUL, cut at data_size |
| `Encoder.CheckDefault` | Apartment/Pods/nanopb/pb_encode.c:240-270 | pb_check_proto3_default_value decides as the definition of a default slot |
| `Encoder.CheckAllDefault` | Apartment/Pods/nanopb/pb_encode.c:298-311 | The iterator loop over a submessage finds a non-default field if there is one |
| `Encoder.WriteNullTerminated` | Apartment/Pods/nanopb/pb_encode.c:557-565 | The message and a zero byte |
| `Encoder.WriteDelimited` | Apartment/Pods/nanopb/pb_encode.c:552-555 | The message behind its length |
| `Output.OStream.Write` | Apartment/Pods/nanopb/pb_encode.c:103-124 | pb_write: all or nothing, never beyond max_size |
| `Output.OStream.BufWrite` | Apartment/Pods/nanopb/pb_encode.c:74-84 | The copying loop changes exactly count bytes |
| `Output.WriteVarint` | Apartment/Pods/nanopb/pb_encode.c:608-628 | Emits the varint of any uint64 |
| `Output.FillGroups` | Apartment/Pods/nanopb/pb_encode.c:619-625 | The seven-bit loop stays within ten bytes and produces the varint |
| `Output.WriteTag` | Apartment/Pods/nanopb/pb_encode.c:669-673 | The tag as one varint of number and wire type |
| `Output.WriteString` | Apartment/Pods/nanopb/pb_encode.c:709-715 | Length prefix and bytes |
| `Decoder.DecodeNoinit` | Apartment/Pods/nanopb/pb_decode.c:928-1076 | The loop over stream, cursor, bitset and fixed-count counter computes the decoded message, on success leaves the stream exactly behind it, and fails exactly where that is undefined |
| `Decoder.DecodeOne` | Apartment/Pods/nanopb/pb_decode.c:962-1023 | One turn: the cursor finds the field from wherever it stands; it is decoded or skipped |
| `Decoder.DecodeKnown` | Apartment/Pods/nanopb/pb_decode.c:991-1023 | The fixed-count bookkeeping and the write into the slot |
| `Decoder.DecodeStaticField` | Apartment/Pods/nanopb/pb_decode.c:406-483 | decode_static_field with the packed, repeated and oneof branches |
| `Decoder.ReadItems` | Apartment/Pods/nanopb/pb_decode.c:435-450 | The packed loop stops at the end of the payload, at a full array or at a bad item |
| `Decoder.ReadPacked` | Apartment/Pods/nanopb/pb_decode.c:424-456 | The packed branch inside its substream |
| `Decoder.ReadValue` | Apartment/Pods/nanopb/pb_decode.c:1328-1564 | The PB_DECODERS table |
| `Decoder.ReadSubmessage` | Apartment/Pods/nanopb/pb_decode.c:1519-1541 | Array entries start from defaults, other submessages merge; the parent moves on by prefix and length exactly |
| `Decoder.ReadScalar` | Apartment/Pods/nanopb/pb_decode.c:1328-1439 | The integer decoders with their clamping checks |
| `Decoder.ReadBlob` | Apartment/Pods/nanopb/pb_decode.c:1441-1517 | Strings, bytes and fixed-length bytes with their size checks |
| `Decoder.SetToDefaults` | Apartment/Pods/nanopb/pb_decode.c:839-922 | Every slot gets its default, recursively, union members once; the result is initial in the sense of DefaultsAreInitial |
| `Decoder.CountRequired` | Apartment/Pods/nanopb/pb_decode.c:1047-1060 | Seeking the end from any cursor position counts all required fields |
| `Decoder.CheckRequired` | Apartment/Pods/nanopb/pb_decode.c:1042-1073 | The bitset comparison is true exactly when each of the first 64 required entries was marked |
| `Decoder.Decode` | Apartment/Pods/nanopb/pb_decode.c:1078-1090 | Defaults and then pb_decode_noinit; the result fits its storage |
| `Decoder.DecodeDelimited` | Apartment/Pods/nanopb/pb_decode.c:1107-1120 | On success the stream has advanced by exactly the prefix and the announced length |
| `Decoder.DecodeNullTerminated` | Apartment/Pods/nanopb/pb_decode.c:1122-1126 | Stops behind the zero, as pb_decode does |
| `Input.IStream.Read` | Apartment/Pods/nanopb/pb_decode.c:87-137 | Position plus bytes_left is constant; succeeds exactly when count bytes are left |
| `Input.IStream.Skip` | Apartment/Pods/nanopb/pb_decode.c:102-137 | The loop in chunks of 16 consumes exactly count bytes, as skipping in memory does |
| `Input.IStream.ReadByte` | Apartment/Pods/nanopb/pb_decode.c:141-157 | One byte |
| `Input.ReadVarint32` | Apartment/Pods/nanopb/pb_decode.c:187-247 | Shifts, sign-extension test and the 8-bit bit position compute the 32-bit reading |
| `Input.ReadVarint` | Apartment/Pods/nanopb/pb_decode.c:255-275 | The shift loop gives the low 64 bits of at most ten groups |
| `Input.SkipVarint` | Apartment/Pods/nanopb/pb_decode.c:278-287 | Skips exactly one varint |
| `Input.ReadTag` | Apartment/Pods/nanopb/pb_decode.c:298-319 | Tag, end by zero, or error, with the eof flag |
| `Input.SkipOneField` | Apartment/Pods/nanopb/pb_decode.c:321-331 | Skips by wire type, unknown wire types fail |
| `Input.MakeSubstream` | Apartment/Pods/nanopb/pb_decode.c:372-385 | The substream covers the announced bytes, is strictly shorter than the parent was, and the parent keeps what follows |
| `Input.CutSubstream` | Apartment/Pods/nanopb/pb_decode.c:378-383 | The first size bytes for the substream, the rest for the parent |
| `Input.CloseSubstream` | Apartment/Pods/nanopb/pb_decode.c:387-400 | Whatever the substream left is skipped; the parent goes on right behind it |
| `FieldIterator.FieldIter.Begin` | Apartment/Pods/nanopb/pb_common.c:8-18 | The first entry, or nothing for an empty table |
| `FieldIterator.FieldIter.Next` | Apartment/Pods/nanopb/pb_common.c:20-76 | The incremental pData, pSize and required_field_index equal the values computed from the table prefix; past the end it wraps |
| `FieldIterator.FieldIter.Find` | Apartment/Pods/nanopb/pb_common.c:78-95 | Succeeds exactly when an entry has the tag, stops at the first match in cyclic order within one lap, otherwise is back where it began |
| `FieldIterator.CursorMatchesLayout` | Apartment/Pods/nanopb/pb.h:395-412 | From the table the cursor recovers the offset of every member and companion, unions, static arrays and pointers included |
| `FieldIterator.LayoutRecoveredIff` | Apartment/Pods/nanopb/pb.h:399-405 | Right for all entries if and only if no two unions are exactly PB_SIZE_MAX bytes apart |
| `FieldIterator.GapOf255` | Apartment/Pods/nanopb/pb.h:405 | A generated layout that hits the marker: the bool of the second union is found at address 1 instead of 257 |
| `Descriptor.FindField` | Apartment/Pods/nanopb/pb_common.c:78-95 | The specification of the search: the entry, or none exactly when no entry matches |
| `Descriptor.SharedSlots` | Apartment/Pods/nanopb/pb_common.c:43-49 | Entries share a slot exactly when each continues the union before it |
| `RequiredBits.FieldsSeen.Mark` | Apartment/Pods/nanopb/pb_decode.c:1015-1020 | Sets one bit and no other |
| `RequiredBits.FieldsSeen.AllMarked` | Apartment/Pods/nanopb/pb_decode.c:1055-1072 | Whole words and remaining bits are as expected exactly when all the first fields are marked |
| `RequiredBits.WordFull` | Apartment/Pods/nanopb/pb_decode.c:1063-1072 | A word equals the expected mask exactly when its low bits are all set |
| `Varint.VarintRoundTrip` | Apartment/Pods/nanopb/pb_decode.c:255-275 | pb_decode_varint undoes pb_encode_varint for every uint64, whatever follows |
| `Varint.VarintExactly` | Apartment/Pods/nanopb/pb_decode.c:255-275 | Every complete varint, padded ones included: up to ten bytes give the low 64 bits of their groups, longer and unfinished ones are refused |
| `Varint.GroupBits` | Apartment/Pods/nanopb/pb_decode.c:262-272 | The groups are the seven-bit digits of the number, lowest first |
| `Varint.EncodedIsMinimal` | Apartment/Pods/nanopb/pb_encode.c:608-628 | No varint for the same number is shorter |
| `Varint.EncodedAtMostTen` | Apartment/Pods/nanopb/pb_encode.c:608-628 | One to ten bytes |
| `Varint.EncodedLength` | Apartment/Pods/nanopb/pb_encode.c:608-628 | Exactly the numbers below 128^n take at most n bytes |
| `Varint32.Varint32IsLowHalf` | Apartment/Pods/nanopb/pb_decode.c:187-275 | Whenever both readers accept the same bytes, the 32-bit one returns the low 32 bits and stops at the same place |
| `Varint32.Varint32Exactly` | Apartment/Pods/nanopb/pb_decode.c:187-247 | Every complete varint of at most ten bytes, padded ones included: which are accepted, byte by byte, and with what value |
| `Varint32.Varint32OfEncoding` | Apartment/Pods/nanopb/pb_decode.c:187-247 | On pb_encode_varint output the 32-bit reader accepts exactly v < 2^32 and the values that look like a sign extension |
| `Varint32.NegativeInt32Accepted` | Apartment/Pods/nanopb/pb_decode.c:221-234 | Sign-extended negative int32 values come back as their 32 bits |
| `Varint32.Varint32RoundTrip` | Apartment/Pods/nanopb/pb_decode.c:187-247 | Every uint32 survives |
| `Scalars.ZigZagRoundTrip` | Apartment/Pods/nanopb/pb_encode.c:630-639 | Zigzag decoding undoes encoding for every int64 |
| `Scalars.UnZigZagRoundTrip` | Apartment/Pods/nanopb/pb_decode.c:1279-1291 | And encoding undoes decoding for every uint64 |
| `Scalars.ZigZagOrders` | Apartment/Pods/nanopb/pb_encode.c:630-639 | Zigzag codes are the small codes of the format, no bit being lost in 64-bit arithmetic |
| `Scalars.FixedReencodes` | Apartment/Pods/nanopb/pb_decode.c:1293-1325 | Writing a fixed32 or fixed64 that was read gives the same bytes |
| `Scalars.ScalarRoundTrip` | Apartment/Pods/nanopb/pb_decode.c:1328-1439 | Every number a member of 1, 2, 4 or 8 bytes can hold is written and read back |
| `Scalars.CastsKeepLowBits` | Apartment/Pods/nanopb/pb_decode.c:1347-1372 | Casts to the member sizes change a number by multiples of the range only |
| `Scalars.ScalarAcceptance` | Apartment/Pods/nanopb/pb_decode.c:1339-1422 | Unsigned and zigzag readers reject exactly what does not fit; the plain reader looks at 32 bits only unless the member has 64 |
| `Scalars.DecodedScalarFits` | Apartment/Pods/nanopb/pb_decode.c:1328-1439 | Whatever is read fits the member |
| `NegativeVarint.FillNegative` | Apartment/Pods/nanopb/pb_encode.c:583-602 | The xor loop ends although it refills the word, and fills exactly the ten bytes of the sign extension |
| `NegativeVarint.WriteNegativeVarint` | Apartment/Pods/nanopb/pb_encode.c:583-605 | pb_encode_negative_varint writes what a 64-bit build writes for the sign-extended number |
| `NegativeVarint.WriteInt32` | Apartment/Pods/nanopb/pb_encode.c:776-797 | A build without 64-bit integers writes every int32 as a build with them does |
| `NegativeVarint.ShiftRefills` | Apartment/Pods/nanopb/pb_encode.c:591-600 | Shifting and xor-ing at bit 25 is shifting the 64-bit number |
| `NegativeVarint.NegativeRecovered` | Apartment/Pods/nanopb/pb_decode.c:221-234 | The 32-bit reader gives back the word exactly when its sign bit is set |
| `NegativeVarint.Int32Interoperates` | Apartment/Pods/nanopb/pb_decode.c:187-275 | Both readers agree on every int32 so written |
| `PointerArrays.SizeAccepted` | Apartment/Pods/nanopb/pb_decode.c:490-522 | The half-width and division test accepts exactly the nonzero products that fit in a size_t, for every even width |
| `PointerArrays.Allocate` | Apartment/Pods/nanopb/pb_decode.c:490-533 | For any sizes of a size_t: fails exactly when a size is zero, the product does not fit or memory is refused; contents survive, and a failure leaves the block alone |
| `PointerArrays.FillPointer` | Apartment/Pods/nanopb/pb_decode.c:609-650 | The growth loop keeps *size <= allocated_size <= PB_SIZE_MAX, writes inside the block only, keeps earlier items and appends the payload |
| `PointerArrays.FixedArrayGrowsOnce` | Apartment/Pods/nanopb/pb_decode.c:618-637 | The guess at the remaining entries is right for fixed-size items: one request, for exactly the entries that arrive |
| `PointerArrays.PointerCapacity` | Apartment/Pods/nanopb/pb_decode.c:611-617 | Up to 255 items are accepted, however they are encoded |
| `PointerArrays.PointeesExactly` | Apartment/Pods/nanopb/pb_decode.c:1441-1517 | Bytes up to 255 and strings up to 2^32 - 2 are accepted behind pointers |
| `PointerArrays.DecodePackedPointer` | Apartment/Pods/nanopb/pb_decode.c:597-655 | Unless memory is refused it accepts what a static array of PB_SIZE_MAX items would and appends the same items |
| `PointerArrays.ReadPointerBlob` | Apartment/Pods/nanopb/pb_decode.c:1441-1517 | Strings and bytes behind pointers: bounded by their length field only, and no memory is asked for before the stream is known to be long enough |
| `PointerArrays.DecodeOnePointer` | Apartment/Pods/nanopb/pb_decode.c:656-671 | One item more of any type, strings, bytes and submessages included, inside the block even when decoding it fails |

## Left out

- Decoder.DecodeNoinit: on failure says only that the stream stays within its bounds; what a failed call leaves in the struct is not modelled.
- Framing.DelimitedStream: asks that each message encodes to fewer than 2^32 bytes, because the length prefix is read with 32 bits.
- Encoder.Encode: asks that no nested message reaches 2^64 bytes, so that size_t does not wrap.
- Encoder.WriteField: a fixed-count array that has not been filled counts as undefined, because its storage has no contents here; the source encodes whatever is there.
- PointerArrays.DecodeOnePointer: nested messages have static fields; pointers inside them, and releasing memory, are not modelled.
- Exactness.RoundTripExactly: asks that nested messages encode to fewer than 2^63 bytes; from there on a length prefix can look like a sign extension.
- Sizes.GeneratedRoundTrip: asks for at most 600000 levels of messages, since the levels of a table add bytes without adding to any struct.
- Fixed-count arrays are modelled as the items received so far.
- A nested message is decoded into a struct of its own that is stored afterwards, and a slot is written when its value is complete; in C both happen in place, so aliasing between a message and its parts is not modelled.
- Array elements behind the count, and the storage of a union before its first member is written, have no contents in the model.
- `iter.pSize == iter.pData` is modelled as a size_offset of 0.
- Callback fields, custom output callbacks and streams that fail with I/O errors: foreign code. A custom input stream appears only in the loop that skips in chunks of 16 bytes.
- Extension fields: tables are free of them; a table entry of that type is never matched.
- RecursiveTables.Walk: follows the records and the nesting of self-containing message types, not the values; with static fields a struct cannot contain itself, so everywhere else a table is a finite tree.
- Pointer fields within messages, pb_release and the release of unions: only the growing array loops are modelled.
- Floating point members and the layout of fixed32 and fixed64: raw bits.
- Error messages: failure is a boolean.
- The builds with PB_BUFFER_ONLY, PB_ENCODE_ARRAYS_UNPACKED, PB_OLD_CALLBACK_STYLE and the AVR workaround; of PB_WITHOUT_64BIT only the negative varint.
- The iOS application around the library: view controllers and request code without an algorithm of their own.
