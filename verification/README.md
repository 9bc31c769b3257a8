# Verified model of the nanopb runtime and of the services around it

This project models four parts of the repository in Dafny and proves their central laws.

1. **The nanopb 0.4.8 runtime** (`pb_encode.c`, `pb_decode.c`, `pb_common.c`, the record macros of `pb.h`).
   `Schema.dfy` describes message types and struct contents. `Encoding.dfy` and `Decoding.dfy` say as functions what the
   encoder writes and what the decoder does to a struct, error returns included. `Encoder.dfy`, `InputStream.dfy`,
   `FieldsSeen.dfy`, `FieldIter.dfy` and `Decoder.dfy` hold the code itself: streams and the field iterator are classes whose
   methods change their fields, loops are loops, and each method is proved to do what the functions say. The laws are proved
   about the functions: `RoundTrip.dfy` and `Content.dfy` (decoding inverts encoding), `Merge.dfy`, `MergeCounted.dfy` and
   `Merging.dfy` (concatenation, unknown fields, last one wins, merging of submessages), `Reencode.dfy` (the same bytes again),
   `Reorder.dfy` (the order of records), `WireFormat.dfy`, `LeafFormat.dfy` and `Records.dfy` (which bytes, in numbers),
   `Acceptance.dfy` (what is rejected, skipped and left out),
   `Typing.dfy` and `StaleMemory.dfy` (arbitrary input stays in bounds, and what memory has to do with it).
   `EndToEnd.dfy` composes encoder and decoder. `Utf8.dfy`, `DoubleFloat.dfy` and `DoubleStreams.dfy` belong to
   the builds with `PB_VALIDATE_UTF8` and `PB_CONVERT_DOUBLE_FLOAT`.
2. **The generator's static analyses** (`nanopb_generator.py`): `SizeBound.dfy` proves that `encoded_size` bounds what the
   encoder of part 1 can emit, and `SizeExact.dfy` that it is no larger than it must be;
   `TypeGraph.dfy` proves the cycle breaking of the parse and the emission order.
3. **The hierarchical state machine** (`pdtsw_sm.c`): `StateMachine.dfy`, and `Transitions.dfy` and `SkipRequests.dfy` for
   its tables and skip variables.
4. **The island-exit wait protocol** (`pdtsw_platform.c`): `Island.dfy`, interleaved steps of any number of clients.

`Wire.dfy` holds the wire format shared by the parts: varints, zigzag, words, keys, skipping.

Conventions. Bytes, words and pointers' targets are integers with their ranges stated; masks and shifts by constants appear as
`%`, `/` and `*` by powers of two, and `|=` of bits that do not overlap as `+`. A struct is a sequence of slots; the slot number
stands for the data offset, so the members of one oneof share a slot. As in the descriptor, a proto3 singular field is an
optional field without a size offset and a fixed-count array is a repeated field without one. `None`, `Err` and `false` stand for
the C code's `return false`; what the struct or the output buffer holds after a failure is not stated. The model is of the
default build: 16-bit `pb_size_t`, 64-bit varints, no malloc, 64 tracked required fields.

Facts about the code that came out of the proofs:

- The merge law fails for fixed-count arrays in exactly one situation, stated in `MergeCounted.MergeIff`;
  `MergeCounted.CountedMessagesDoNotMerge` is an input.
- A `bytes` member with odd `max_size` is padded by one byte, and the checks of encoder and decoder compare with the padded size.
  So one byte more than `max_size` is accepted, and a decoded struct can encode to more bytes than the generated size
  (`SizeBound.BytesWithinIff`, `SizeBound.OddBytesExceed`).
- `pb_decode` initialises everything but the fixed-count arrays, which keep what was in memory if the input does not name them
  (`Typing.UntouchedArraysKept`). That holds of every new element of an array of submessages too: it starts from the memory
  behind the count, so a struct decoded into uninitialised memory can hold byte arrays or strings outside their buffers, and
  `pb_encode` refuses it (`StaleMemory.StaleElementSurvives`).
- A proto3 submessage with nothing but a selector that names no member of its oneof costs two bytes the first time and fewer the
  second (`Reencode.StraySelectorIsLost`).
- A double that is a NaN with only low fraction bits set becomes infinity as a float (`DoubleFloat.NanSurvivesIff`,
  `DoubleFloat.LowNanIsLost`).
- `pdtsw_sm_skip_state_transition` marks the variable of the current state, not of the state whose handler is running; with
  separate variables the request is lost for the one and stays behind in the other (`StateMachine.SkipWorksIff`,
  `StateMachine.SkipMissesItsTransition`; the charts for which it works are those of `SkipRequests.AskingWorksIff`).
- A client can be left waiting in non-island mode if an island-change callback enters its locked section before the mode it
  reports can be read, and only then (`Island.TimelyIff`); whether that happens is decided by code outside this repository.
- A message converted to callback whose field options keep a static member of its own type leaves a cycle, and a search that
  leads into a cycle without meeting its root is cut off at every recursion limit (`TypeGraph.LeftoverNeverEnds`,
  `TypeGraph.SearchNeverEnds`).

## Model

| member | source | states |
|---|---|---|
| Wire.VarintRoundTrip | non_HLOS/adsp_proc/bt/nanopb/src/pb_decode.c:242-262 | every 64-bit value decodes to itself from its base-128 form whatever follows, consuming exactly that form |
| Wire.VarintShortest | non_HLOS/adsp_proc/bt/nanopb/src/pb_encode.c:606-622 | no byte string the decoder accepts for a value is shorter than the form the encoder emits |
| Wire.VarintAtMostTen | non_HLOS/adsp_proc/bt/nanopb/src/pb_encode.c:572-604 | a 64-bit value takes at most 10 bytes |
| Wire.VarintLengthMonotone | non_HLOS/adsp_proc/bt/nanopb/src/pb_encode.c:606-622 | larger values never encode shorter |
| Wire.VarintDecodeExtends | non_HLOS/adsp_proc/bt/nanopb/src/pb_decode.c:242-262 | bytes after an accepted varint do not change its decoding |
| Wire.Varint32Refines | non_HLOS/adsp_proc/bt/nanopb/src/pb_decode.c:170-239 | whatever the 32-bit decoder accepts the 64-bit decoder accepts, with the same length and the same value modulo 2^32 |
| Wire.Varint32Accepts | non_HLOS/adsp_proc/bt/nanopb/src/pb_decode.c:170-239 | the 32-bit decoder accepts the form of every value below 2^32 and returns it |
| Wire.Varint32AcceptsNegative | non_HLOS/adsp_proc/bt/nanopb/src/pb_decode.c:204-229 | it accepts every negative int32 sign-extended to 64 bits and returns its low 32 bits |
| Wire.Varint32Extends | non_HLOS/adsp_proc/bt/nanopb/src/pb_decode.c:170-239 | bytes after an accepted 32-bit varint do not change its decoding |
| Wire.ZigZagRoundTrip | non_HLOS/adsp_proc/bt/nanopb/src/pb_encode.c:624-634 | zigzag decoding inverts zigzag encoding on every signed 64-bit value |
| Wire.ZigZagOnto | non_HLOS/adsp_proc/bt/nanopb/src/pb_decode.c:1355-1367 | zigzag encoding inverts zigzag decoding on every 64-bit pattern |
| Wire.FixedRoundTrip | non_HLOS/adsp_proc/bt/nanopb/src/pb_encode.c:636-672 | 4- and 8-byte little-endian words read back as written |
| Wire.TagRoundTrip | non_HLOS/adsp_proc/bt/nanopb/src/pb_encode.c:674-678 | a field key reads back as its tag and wire type |
| Wire.DelimitedRoundTrip | non_HLOS/adsp_proc/bt/nanopb/src/pb_encode.c:715-721 | a length-prefixed string reads back as its content |
| Wire.SkipExtends | non_HLOS/adsp_proc/bt/nanopb/src/pb_decode.c:307-320 | what follows a complete field does not change how it is skipped |
| WireFormat.VarintIff | non_HLOS/adsp_proc/bt/nanopb/src/pb_decode.c:242-262 | the varint decoder accepts exactly the varints of at most ten bytes whose sum of groups is below 2^64, and returns that sum |
| WireFormat.VarintMeans | non_HLOS/adsp_proc/bt/nanopb/src/pb_encode.c:606-622 | the varint encoder writes the groups that sum up to the value, the last one not zero |
| WireFormat.Varint32Iff | non_HLOS/adsp_proc/bt/nanopb/src/pb_decode.c:170-234 | the 32-bit decoder accepts exactly the varints of at most ten bytes whose bits from 32 on are all clear or agree with a sign extension, and returns the low 32 bits of the sum |
| WireFormat.FixedIff | non_HLOS/adsp_proc/bt/nanopb/src/pb_decode.c:1369-1417 | a word is taken in full, as the sum of its bytes weighted from the least significant on |
| WireFormat.FixedMeans | non_HLOS/adsp_proc/bt/nanopb/src/pb_encode.c:636-672 | a word is written as the bytes that sum up to it |
| WireFormat.KeyIff | non_HLOS/adsp_proc/bt/nanopb/src/pb_decode.c:290-305 | a key is a varint of eight times the tag plus the wire type |
| WireFormat.KeyMeans | non_HLOS/adsp_proc/bt/nanopb/src/pb_encode.c:674-678 | a key is written as the varint of that number |
| WireFormat.DelimitedIff | non_HLOS/adsp_proc/bt/nanopb/src/pb_decode.c:361-374 | a delimited region is a length and exactly as many bytes |
| WireFormat.SkipIff | non_HLOS/adsp_proc/bt/nanopb/src/pb_decode.c:307-320 | exactly a varint, eight bytes, a delimited string or four bytes are skipped, for the wire types 0, 1, 2 and 5 and no other |
| LeafFormat.NumberWritten | non_HLOS/adsp_proc/bt/nanopb/src/pb_encode.c:782-828 | an integer is written as the shortest varint of what stands for it: itself, 2^64 more if it is negative, or its zigzag code; a negative one without zigzag takes ten bytes at every width |
| LeafFormat.PackedNumbersWritten | non_HLOS/adsp_proc/bt/nanopb/src/pb_encode.c:150-194 | packed integers and bools are what stands for them, one varint after the other |
| LeafFormat.WordWritten | non_HLOS/adsp_proc/bt/nanopb/src/pb_encode.c:830-853 | a fixed32 or fixed64 is written in 4 or 8 bytes that sum up to it |
| LeafFormat.PackedWordsWritten | non_HLOS/adsp_proc/bt/nanopb/src/pb_encode.c:150-194 | packed words are those bytes, one word after the other |
| LeafFormat.BodyWritten | non_HLOS/adsp_proc/bt/nanopb/src/pb_encode.c:855-952 | bytes, a string up to its terminator or the encoding of a submessage are written with their length, or the encoder fails exactly when the member cannot hold them |
| LeafFormat.RecordKey | non_HLOS/adsp_proc/bt/nanopb/src/pb_encode.c:680-713 | a record begins with its tag and the wire type of its type, in numbers, and the payload follows |
| LeafFormat.UnsignedTaken | non_HLOS/adsp_proc/bt/nanopb/src/pb_decode.c:1431-1446 | an unsigned member takes exactly the numbers it can hold and rejects the others |
| LeafFormat.ZigZagTaken | non_HLOS/adsp_proc/bt/nanopb/src/pb_decode.c:1448-1494 | a sint member takes exactly the numbers whose zigzag value it can hold |
| LeafFormat.SignedTaken | non_HLOS/adsp_proc/bt/nanopb/src/pb_decode.c:1448-1494 | an int member of 8 bytes takes every number as two's complement, a narrower one exactly those whose low 32 bits it can hold so |
| LeafFormat.BoolTakenIff | non_HLOS/adsp_proc/bt/nanopb/src/pb_decode.c:1419-1422 | a bool member takes every 32-bit varint; all but zero are true |
| LeafFormat.WordTakenIff | non_HLOS/adsp_proc/bt/nanopb/src/pb_decode.c:412-441 | a word member takes exactly the 4 or 8 bytes of its wire type, alone or packed |
| LeafFormat.BlobTakenIff | non_HLOS/adsp_proc/bt/nanopb/src/pb_decode.c:1496-1671 | byte strings and strings are taken exactly if they fit, fixed-length bytes if they have the length or none |
| LeafFormat.WireTypeChecked | non_HLOS/adsp_proc/bt/nanopb/src/pb_decode.c:395-464 | a record of another wire type is refused |
| Records.MessageRead | non_HLOS/adsp_proc/bt/nanopb/src/pb_encode.c:511-533 | a reader without a schema finds in an encoded message exactly the keys of the present fields, once for an array of numbers or words and once for every other element |
| Records.TagsAscend | non_HLOS/adsp_proc/bt/nanopb/src/pb_encode.c:511-533 | their tags ascend |
| Records.NumbersArrayWritten | non_HLOS/adsp_proc/bt/nanopb/src/pb_encode.c:150-194 | the one record of an array of numbers or words holds what stands for its elements |
| Records.ElementsWritten | non_HLOS/adsp_proc/bt/nanopb/src/pb_encode.c:196-239 | any other array is the records of its elements, and one above the array size is refused |
| Records.PackedTaken | non_HLOS/adsp_proc/bt/nanopb/src/pb_decode.c:479-508 | a packed record is taken exactly when all of it is elements the member takes and there is room for them |
| Records.ElementCounted | non_HLOS/adsp_proc/bt/nanopb/src/pb_decode.c:1078-1100 | a record of a fixed-count array goes to the next place and is counted; it is refused when the array is full or another one is incomplete |
| Encoder.SplitVarint | non_HLOS/adsp_proc/bt/nanopb/src/pb_encode.c:572-604 | the two-halves loop builds the shortest base-128 form of low + high * 2^32 |
| Encoder.OStream.Write | non_HLOS/adsp_proc/bt/nanopb/src/pb_encode.c:83-104 | appends the bytes exactly when the stream is sizing or has room, and touches nothing outside its window |
| Encoder.OStream.EncodeVarint32 | non_HLOS/adsp_proc/bt/nanopb/src/pb_encode.c:572-604 | appends the base-128 form of the 64-bit value its halves make up, if there is room |
| Encoder.OStream.EncodeVarint | non_HLOS/adsp_proc/bt/nanopb/src/pb_encode.c:606-622 | appends the base-128 form of the value, if there is room |
| Encoder.OStream.EncodeTag | non_HLOS/adsp_proc/bt/nanopb/src/pb_encode.c:674-678 | appends the field key, if there is room |
| Encoder.OStream.EncodeString | non_HLOS/adsp_proc/bt/nanopb/src/pb_encode.c:715-721 | appends length prefix and data, if there is room |
| Encoder.EncVarintField | non_HLOS/adsp_proc/bt/nanopb/src/pb_encode.c:782-828 | writes an integer member of 1, 2, 4 or 8 bytes as the wire format specification of its type says |
| Encoder.EncFixedField | non_HLOS/adsp_proc/bt/nanopb/src/pb_encode.c:830-853 | writes a 4- or 8-byte word |
| Encoder.EncStringField | non_HLOS/adsp_proc/bt/nanopb/src/pb_encode.c:876-927 | writes a string up to its terminator and fails exactly when the terminator is missing from the buffer |
| Encoder.CheckDefault | non_HLOS/adsp_proc/bt/nanopb/src/pb_encode.c:243-355 | decides whether a singular field is at its proto3 default, through submessages |
| Encoder.EncodeBasicField | non_HLOS/adsp_proc/bt/nanopb/src/pb_encode.c:361-404 | writes key and payload of one item, or fails exactly when the item cannot be encoded or does not fit |
| Encoder.EncodeSubmessage | non_HLOS/adsp_proc/bt/nanopb/src/pb_encode.c:723-771 | sizing pass, prefix and writing pass append the length-prefixed encoding of the submessage |
| Encoder.WriteSubmessage | non_HLOS/adsp_proc/bt/nanopb/src/pb_encode.c:749-770 | the writing pass cannot fail, and the branch reporting a changed size is unreachable, at every depth |
| Encoder.EncodeArray | non_HLOS/adsp_proc/bt/nanopb/src/pb_encode.c:127-239 | writes an array packed or unpacked; fails on a count above the array size |
| Encoder.EncodePacked | non_HLOS/adsp_proc/bt/nanopb/src/pb_encode.c:150-194 | the pre-computed packed size is the size of the items then written |
| Encoder.EncodeField | non_HLOS/adsp_proc/bt/nanopb/src/pb_encode.c:417-466 | writes the field if it is present, in the form its rule asks for |
| Encoder.Encode | non_HLOS/adsp_proc/bt/nanopb/src/pb_encode.c:511-533 | succeeds exactly when the message has an encoding and the stream has room, and then has appended exactly it; the same contract holds of sizing and writing streams |
| Encoder.GetEncodedSize | non_HLOS/adsp_proc/bt/nanopb/src/pb_encode.c:556-565 | returns the number of bytes a successful encode writes |
| Content.EncodesIff | non_HLOS/adsp_proc/bt/nanopb/src/pb_encode.c:511-533 | a message has an encoding exactly when its present arrays, bytes and strings, at every depth, fit their members |
| RoundTrip.DefaultsAreClean | non_HLOS/adsp_proc/bt/nanopb/src/pb_decode.c:868-983 | setting defaults gives each required, optional and singular field its own default or zero (number 0, no bytes, fixed-length bytes all zero), recursively, and clears all has flags, counts and selectors |
| RoundTrip.ZeroFits | non_HLOS/adsp_proc/bt/nanopb/src/pb_decode.c:536-541 | zeroed memory has every member at zero, at every depth, with flags, counts and selectors clear |
| Typing.FreshArraysZeroed | non_HLOS/adsp_proc/bt/nanopb/src/pb_decode.c:525-541 | in a newly selected submessage the fixed-count arrays are zero too |
| Typing.SubmessageCleared | non_HLOS/adsp_proc/bt/nanopb/src/pb_decode.c:907-927 | a required or optional submessage is zeroed whole if its type has neither default values nor submessages; otherwise its fixed-count arrays stay |
| RoundTrip.LeafRoundTrip | non_HLOS/adsp_proc/bt/nanopb/src/pb_decode.c:1419-1584 | every leaf value that fits its member decodes from its own encoding, at every integer width |
| RoundTrip.IntRoundTrip | non_HLOS/adsp_proc/bt/nanopb/src/pb_decode.c:1424-1494 | width casts and clamping lose nothing on a value that fits the member |
| RoundTrip.PackedRoundTrip | non_HLOS/adsp_proc/bt/nanopb/src/pb_decode.c:479-508 | a packed array decodes to its elements, counted or fixed-count |
| RoundTrip.UnpackedRoundTrip | non_HLOS/adsp_proc/bt/nanopb/src/pb_decode.c:509-519 | an unpacked array decodes element by element to its elements |
| RoundTrip.FieldRoundTrip | non_HLOS/adsp_proc/bt/nanopb/src/pb_decode.c:466-554 | the encoding of one field of any rule takes the decode loop to the field laid over the previous memory |
| RoundTrip.MessageRoundTrip | non_HLOS/adsp_proc/bt/nanopb/src/pb_decode.c:989-1151 | decoding an encoded message over fresh memory gives exactly the message laid over that memory, passing the fixed-count and required-field checks |
| Content.DecodeInvertsEncode | non_HLOS/adsp_proc/bt/nanopb/src/pb_decode.c:989-1151 | whole-message round trip: decoding an encoded message succeeds whatever the struct held, and present content is equal, absent fields are at their defaults, and a selector is kept exactly if it names a member |
| Content.EncodingDeterminesContent | non_HLOS/adsp_proc/bt/nanopb/src/pb_encode.c:511-533 | decoding equal encodings of two messages, into whatever memory, gives one struct with the content of both |
| Reencode.ReencodeIff | non_HLOS/adsp_proc/bt/nanopb/src/pb_encode.c:243-355 | encoding what was decoded gives the same bytes exactly when every present field lasts, at every depth (a submessage whose only content is a selector naming no member does not); otherwise fewer bytes |
| Reencode.NamedExact | non_HLOS/adsp_proc/bt/nanopb/src/pb_encode.c:243-355 | if every selector is zero or names a member of its oneof, everything present lasts |
| Reencode.ReencodeStable | non_HLOS/adsp_proc/bt/nanopb/src/pb_encode.c:511-533 | from the second time on encoding and decoding change no byte |
| Reencode.StraySelectorIsLost | non_HLOS/adsp_proc/bt/nanopb/src/pb_encode.c:312-332 | such a submessage is encoded to 0A 00 the first time and to fewer bytes the second |
| Reorder.RecordsSwap | non_HLOS/adsp_proc/bt/nanopb/src/pb_decode.c:1015-1111 | two neighbouring records of different fields, not both fixed-count arrays, can be swapped without changing what the loop does, failures included |
| Reorder.MessageSwap | non_HLOS/adsp_proc/bt/nanopb/src/pb_decode.c:989-1151 | so they can at any record boundary of a message |
| Reorder.CountedRecordsIff | non_HLOS/adsp_proc/bt/nanopb/src/pb_decode.c:1078-1100 | records of two fixed-count arrays not begun before can follow each other exactly when the first completes its array |
| Merge.LoopConcat | non_HLOS/adsp_proc/bt/nanopb/src/pb_decode.c:1015-1111 | the decode loop over a ++ b is the loop over a followed by the loop over b |
| Merge.MergeLaw | non_HLOS/adsp_proc/bt/nanopb/src/pb_decode.c:1015-1111 | without fixed-count arrays, decoding b with NOINIT on top of the struct decoded from a equals decoding a ++ b |
| MergeCounted.MergeIff | non_HLOS/adsp_proc/bt/nanopb/src/pb_decode.c:1078-1118 | with fixed-count arrays the law holds exactly when b does not begin its counted arrays with the one a ended with; otherwise the concatenation is rejected |
| MergeCounted.CountedMessagesDoNotMerge | non_HLOS/adsp_proc/bt/nanopb/src/pb_decode.c:1078-1110 | an input at which the law fails: a one-element fixed-count array, twice 0A 01 01; both halves decode, the whole is rejected |
| MergeCounted.LoopOverflows | non_HLOS/adsp_proc/bt/nanopb/src/pb_decode.c:1078-1110 | going on with a fixed-count array that is already full makes the whole decode fail |
| Merge.UnknownFieldIgnored | non_HLOS/adsp_proc/bt/nanopb/src/pb_decode.c:1041-1076 | an unknown field at any top-level boundary leaves the outcome unchanged, valid or not, also between elements of a fixed-count array |
| Merging.LastWins | non_HLOS/adsp_proc/bt/nanopb/src/pb_decode.c:470-476 | last one wins: a further record of a scalar, string or byte field replaces whatever the field or the oneof held, whatever the state |
| Merging.SubmessagesMerge | non_HLOS/adsp_proc/bt/nanopb/src/pb_decode.c:1586-1636 | a record of a submessage is decoded into what is there, or into a fresh struct for another oneof member, and fails with its body |
| Merging.TwoRecordsMergeIff | non_HLOS/adsp_proc/bt/nanopb/src/pb_decode.c:1586-1636 | two records of a submessage with bodies b1 and b2 leave what one record with body b1 ++ b2 leaves exactly unless b2 goes on with the fixed-count array b1 ended with; then the one record is rejected |
| Merging.RepeatedAppends | non_HLOS/adsp_proc/bt/nanopb/src/pb_decode.c:509-519 | a further element goes behind those there are, a submessage being decoded over the memory that lies there, and is refused exactly when the array is full |
| Merging.PackedAppends | non_HLOS/adsp_proc/bt/nanopb/src/pb_decode.c:479-508 | a further packed record appends all its elements, and is refused exactly when they do not all fit |
| Acceptance.AcceptedIff | non_HLOS/adsp_proc/bt/nanopb/src/pb_decode.c:1113-1148 | readable input is accepted exactly when the fixed-count array decoded last has all its elements and every required field among the first 64 occurs |
| Acceptance.UnreadableRejected | non_HLOS/adsp_proc/bt/nanopb/src/pb_decode.c:1015-1111 | a record at any boundary without a key, with a payload that cannot be skipped, or refused by its field makes the decode fail |
| Acceptance.ZeroTagRejected | non_HLOS/adsp_proc/bt/nanopb/src/pb_decode.c:1029-1039 | a zero key at any boundary makes the decode fail |
| Acceptance.SkipInvertsEncode | non_HLOS/adsp_proc/bt/nanopb/src/pb_decode.c:307-320 | skipping by wire type passes over exactly the bytes the encoder writes after a key, for every field type |
| Acceptance.ForeignFieldIgnored | non_HLOS/adsp_proc/bt/nanopb/src/pb_decode.c:1041-1076 | a field encoded under any other schema is invisible where its tag is not known |
| Acceptance.EmptyEncodingIff | non_HLOS/adsp_proc/bt/nanopb/src/pb_encode.c:417-466 | a message costs no bytes exactly when no field is present; one that is all proto3 defaults costs none |
| Acceptance.SingularAbsentIff | non_HLOS/adsp_proc/bt/nanopb/src/pb_encode.c:270-304 | a singular field is left out exactly when no field of the message has a default of its own and it is zero or empty; fixed-length bytes only if they have no length |
| Typing.LeafSound | non_HLOS/adsp_proc/bt/nanopb/src/pb_decode.c:1424-1584 | a leaf decoded from arbitrary bytes is a value of its C type within its buffer |
| Typing.RepeatedSound | non_HLOS/adsp_proc/bt/nanopb/src/pb_decode.c:478-519 | arrays decoded from arbitrary bytes never exceed the array size |
| Typing.MessageFits | non_HLOS/adsp_proc/bt/nanopb/src/pb_decode.c:989-1151 | whatever the bytes and whatever the struct held, a successful decode leaves a well-typed struct |
| Typing.MessageSound | non_HLOS/adsp_proc/bt/nanopb/src/pb_decode.c:989-1151 | whatever the bytes, a successful decode leaves counts, byte sizes and strings in bounds; with initialisation it asks of the old struct only that its fixed-count arrays are in bounds, those in the memory of array elements beyond the count included |
| Typing.DefaultsBoundedIff | non_HLOS/adsp_proc/bt/nanopb/src/pb_decode.c:868-983 | setting defaults brings a struct within its bounds exactly when what it leaves alone is: fixed-count arrays, and what array elements beyond the count will keep of them |
| Typing.UntouchedArraysKept | non_HLOS/adsp_proc/bt/nanopb/src/pb_decode.c:868-948 | no more can be promised: after an initialising decode of the empty input the fixed-count arrays are the old ones, and the struct is in bounds exactly if what was left alone was |
| Typing.DecodedCanBeEncoded | non_HLOS/adsp_proc/bt/nanopb/src/pb_decode.c:989-1151 | whatever the bytes, a decoded message can be encoded again, on the same terms |
| StaleMemory.EmptyElementIff | non_HLOS/adsp_proc/bt/nanopb/src/pb_decode.c:1603-1627 | an empty record adds to an array of submessages an element that holds the memory there was, its defaults set: in bounds exactly when its fixed-count arrays were |
| StaleMemory.StaleElementSurvives | non_HLOS/adsp_proc/bt/nanopb/src/pb_decode.c:933-939 | an input: 0A 00 decoded into a struct that was never initialised is accepted, and the struct it leaves cannot be encoded |
| InputStream.IStream.Read | non_HLOS/adsp_proc/bt/nanopb/src/pb_decode.c:81-120 | consumes exactly the bytes asked for or nothing; position plus bytes left is conserved |
| InputStream.IStream.ReadByte | non_HLOS/adsp_proc/bt/nanopb/src/pb_decode.c:124-140 | takes one byte, never past the limit |
| InputStream.IStream.DecodeVarint | non_HLOS/adsp_proc/bt/nanopb/src/pb_decode.c:242-262 | the shift-and-or loop returns the value and length of the reference varint decoder, or fails with it |
| InputStream.IStream.DecodeVarint32Eof | non_HLOS/adsp_proc/bt/nanopb/src/pb_decode.c:170-234 | the 32-bit loop with its overflow and sign-extension checks equals the reference decoder; end of stream is reported exactly when nothing was left |
| InputStream.AddGroup32 | non_HLOS/adsp_proc/bt/nanopb/src/pb_decode.c:204-227 | refusing a group means that the reference decoder rejects the input; otherwise the result holds the low 32 bits with which its decoding goes on |
| InputStream.IStream.DecodeTag | non_HLOS/adsp_proc/bt/nanopb/src/pb_decode.c:290-305 | reads one key and consumes exactly its bytes |
| InputStream.IStream.SkipOneField | non_HLOS/adsp_proc/bt/nanopb/src/pb_decode.c:307-320 | skips exactly one field of wire type 0, 1, 2 or 5 and fails on others |
| InputStream.IStream.MakeStringSubstream | non_HLOS/adsp_proc/bt/nanopb/src/pb_decode.c:361-374 | the substream holds exactly the delimited bytes, which the parent no longer counts |
| InputStream.IStream.CloseStringSubstream | non_HLOS/adsp_proc/bt/nanopb/src/pb_decode.c:376-389 | the parent ends exactly behind the delimited region, whatever of it was read |
| Decoder.DecodeInt | non_HLOS/adsp_proc/bt/nanopb/src/pb_decode.c:1424-1494 | reads an integer member and rejects exactly the values that do not survive the cast to its width |
| Decoder.DecodeBlob | non_HLOS/adsp_proc/bt/nanopb/src/pb_decode.c:1496-1584 | reads bytes, a string or a fixed-length array within its buffer, or fails |
| Decoder.DecodeLeaf | non_HLOS/adsp_proc/bt/nanopb/src/pb_decode.c:395-464 | dispatches on type and checks the wire type |
| Decoder.DecodeSubmessage | non_HLOS/adsp_proc/bt/nanopb/src/pb_decode.c:1586-1636 | decodes exactly the delimited region and leaves the parent behind it; nesting ends because the region is smaller |
| Decoder.DecodePackedItems | non_HLOS/adsp_proc/bt/nanopb/src/pb_decode.c:491-500 | the loop over a packed array fills elements until region or array is used up |
| Decoder.DecodeRepeated | non_HLOS/adsp_proc/bt/nanopb/src/pb_decode.c:478-519 | packed and unpacked elements append to the array, a submessage over the memory behind the count |
| Decoder.DecodeStaticField | non_HLOS/adsp_proc/bt/nanopb/src/pb_decode.c:466-554 | updates has flag, array or selector and value as the rule of the field says |
| Decoder.OneOfMemory | non_HLOS/adsp_proc/bt/nanopb/src/pb_decode.c:521-546 | a newly selected submessage alternative starts from zeroed and defaulted memory, a selected one is merged into |
| Decoder.FieldSetToDefault | non_HLOS/adsp_proc/bt/nanopb/src/pb_decode.c:868-948 | clears one field, recursively, before its default is read |
| Decoder.SetToDefaults | non_HLOS/adsp_proc/bt/nanopb/src/pb_decode.c:950-983 | the single merge of the field walk with the encoded defaults never fails, equals setting every default separately, and leaves the iterator valid at field 0 |
| Decoder.DefaultsForField | non_HLOS/adsp_proc/bt/nanopb/src/pb_decode.c:964-980 | one pass of that merge: the pending default is consumed exactly when the field has one |
| Decoder.DefaultDecodes | non_HLOS/adsp_proc/bt/nanopb/src/pb_decode.c:969-975 | a default value survives its encoding in the descriptor |
| Decoder.TrackFixedCount | non_HLOS/adsp_proc/bt/nanopb/src/pb_decode.c:1078-1100 | the three count variables are those of the reference state; switching arrays requires the previous one complete |
| Decoder.DecodeFoundField | non_HLOS/adsp_proc/bt/nanopb/src/pb_decode.c:1078-1110 | decodes one known field, noting required fields and counts, as the reference step does |
| Decoder.SkipUnknown | non_HLOS/adsp_proc/bt/nanopb/src/pb_decode.c:1041-1076 | an unknown field is skipped and the iterator keeps its place |
| Decoder.DecodeOneField | non_HLOS/adsp_proc/bt/nanopb/src/pb_decode.c:1015-1111 | one loop pass equals one reference step, conserves position plus bytes left, and consumes at least a byte |
| Decoder.CheckComplete | non_HLOS/adsp_proc/bt/nanopb/src/pb_decode.c:1113-1148 | the final checks accept exactly a complete fixed-count array and all of the first 64 required fields |
| Decoder.DecodeInner | non_HLOS/adsp_proc/bt/nanopb/src/pb_decode.c:989-1151 | same verdict on every input, same struct and the whole stream consumed, as the reference decoder |
| FieldsSeen.MarkSeen | non_HLOS/adsp_proc/bt/nanopb/src/pb_decode.c:1102-1107 | sets the bit of one required field and no other |
| FieldsSeen.AllRequiredSeen | non_HLOS/adsp_proc/bt/nanopb/src/pb_decode.c:1120-1148 | the comparison of whole words and of the remaining bits holds exactly when every required field below 64 was seen |
| FieldsSeen.OnesIff | non_HLOS/adsp_proc/bt/nanopb/src/pb_decode.c:1138-1146 | a word equals the mask exactly when its set bits are the low ones |
| FieldIter.UnpackInvertsPack | non_HLOS/adsp_proc/bt/nanopb/inc/pb.h:756-806 | the loaded values are those packed, at widths 1, 2, 4 and 8 |
| FieldIter.Layout | non_HLOS/adsp_proc/bt/nanopb/inc/pb.h:729-782 | the bits of a record stand where its documentation says, at all four widths |
| FieldIter.TypeBytes | non_HLOS/adsp_proc/bt/nanopb/inc/pb.h:228-286 | the type byte has the codes of the header, in numbers, for every kind of field and every type |
| FieldIter.ReadRecord | non_HLOS/adsp_proc/bt/nanopb/src/pb_common.c:8-120 | reading the record at the prefix count of the fields before it gives that field, its size pointer and its submessage descriptor |
| FieldIter.Iterator.constructor | non_HLOS/adsp_proc/bt/nanopb/src/pb_common.c:156-164 | starts at field 0 with its values loaded |
| FieldIter.Iterator.LoadDescriptorValues | non_HLOS/adsp_proc/bt/nanopb/src/pb_common.c:8-120 | loads the values of the current field |
| FieldIter.Iterator.AdvanceIterator | non_HLOS/adsp_proc/bt/nanopb/src/pb_common.c:122-154 | moves to the next field, wrapping, and keeps the word, required and submessage indices the prefix counts |
| FieldIter.Iterator.Next | non_HLOS/adsp_proc/bt/nanopb/src/pb_common.c:188-193 | the next field with its values loaded; false exactly when it wrapped |
| FieldIter.Iterator.Candidate | non_HLOS/adsp_proc/bt/nanopb/src/pb_common.c:223-237 | comparing the low tag bits first misses no field |
| FieldIter.Iterator.Find | non_HLOS/adsp_proc/bt/nanopb/src/pb_common.c:195-244 | from any position true exactly when the tag exists, then on that field; on failure back at its start |
| FieldIter.Iterator.FindExtension | non_HLOS/adsp_proc/bt/nanopb/src/pb_common.c:246-275 | when no extension is found it has looked at every field once and is back at its start |
| EndToEnd.EncodeThenDecode | non_HLOS/adsp_proc/bt/nanopb/src/pb_decode.c:1181-1193 | encoder and decoder composed: encoding succeeds exactly when the encoding exists and fits, decoding then succeeds with the same content, and no byte beyond the given size changes |
| EndToEnd.EncodeExactly | non_HLOS/adsp_proc/bt/nanopb/src/pb_encode.c:556-565 | a buffer of the size computed beforehand is filled exactly |
| SizeBound.VarintMaxSize | non_HLOS/adsp_proc/bt/nanopb/generator/nanopb_generator.py:253-260 | the loop returns the least n with the measured value below 128^n and an error exactly from 2^70 on |
| SizeBound.VarintLength | non_HLOS/adsp_proc/bt/nanopb/generator/nanopb_generator.py:253-260 | a varint takes at most n bytes exactly when its value is below 128^n |
| SizeBound.EnumEncodedSize | non_HLOS/adsp_proc/bt/nanopb/generator/nanopb_generator.py:423-424 | the largest size of a declared value |
| SizeBound.FieldEncodedSize | non_HLOS/adsp_proc/bt/nanopb/generator/nanopb_generator.py:985-1057 | agrees with the recursive definition of field size, being no plain number for callbacks, pointers and unresolved submessages |
| SizeBound.OneOfEncodedSize | non_HLOS/adsp_proc/bt/nanopb/generator/nanopb_generator.py:1225-1240 | the largest member, or no plain number if any member has none |
| SizeBound.MessageEncodedSize | non_HLOS/adsp_proc/bt/nanopb/generator/nanopb_generator.py:1574-1585 | the sum over the members, or no plain number if any member has none |
| SizeExact.VarintSizeIs | non_HLOS/adsp_proc/bt/nanopb/generator/nanopb_generator.py:253-260 | the size of a number from 0 on is the least number of groups of seven bits that holds it, or an error above ten |
| SizeExact.NegativeSizeIs | non_HLOS/adsp_proc/bt/nanopb/generator/nanopb_generator.py:255-260 | the size of a negative number is ten, or an error from 2^64 - 2^70 down |
| SizeExact.EnumIsLargest | non_HLOS/adsp_proc/bt/nanopb/generator/nanopb_generator.py:423-424 | the size of an enum is the size of one of its values and at least that of each |
| SizeExact.UnionIsLargest | non_HLOS/adsp_proc/bt/nanopb/generator/nanopb_generator.py:1225-1240 | the size of a oneof is the size of one of its members and at least that of each; there is none exactly when a member has none |
| SizeExact.MembersAddUp | non_HLOS/adsp_proc/bt/nanopb/generator/nanopb_generator.py:1574-1585 | the size of members put together is the sum of their sizes |
| SizeExact.OneMember | non_HLOS/adsp_proc/bt/nanopb/generator/nanopb_generator.py:1574-1585 | the size of one member is that of the field or oneof |
| SizeExact.NoSizeIff | non_HLOS/adsp_proc/bt/nanopb/generator/nanopb_generator.py:1574-1585 | a message has no size exactly when a member has none |
| SizeExact.FieldNoSizeIff | non_HLOS/adsp_proc/bt/nanopb/generator/nanopb_generator.py:985-1057 | a field has no size exactly when it is not static, or a submessage or enum whose size is not known |
| SizeExact.TableIsTight | non_HLOS/adsp_proc/bt/nanopb/generator/nanopb_generator.py:84-129 | every entry of the datatypes table is used up by some value |
| SizeExact.UnknownEnumIsTight | non_HLOS/adsp_proc/bt/nanopb/generator/nanopb_generator.py:1035-1037 | the ten bytes for an enum without known values are used up by a negative value |
| SizeExact.BytesAreTight | non_HLOS/adsp_proc/bt/nanopb/generator/nanopb_generator.py:985-1042 | byte strings of max_size bytes use up the size of the item |
| SizeExact.StringIsTight | non_HLOS/adsp_proc/bt/nanopb/generator/nanopb_generator.py:985-1042 | a string of max_size - 1 characters uses it up, but for a byte where max_size takes a longer prefix |
| SizeExact.SubmessageIsTight | non_HLOS/adsp_proc/bt/nanopb/generator/nanopb_generator.py:1016-1018 | a submessage that uses up the size of its type uses up the size of the item |
| SizeExact.RecordIsTight | non_HLOS/adsp_proc/bt/nanopb/generator/nanopb_generator.py:1044 | then the record uses up the size of the field |
| SizeExact.ArrayIsTight | non_HLOS/adsp_proc/bt/nanopb/generator/nanopb_generator.py:1046-1055 | a full array sent unpacked uses up the size of the field, but for the byte allowed at max_count 1 |
| SizeBound.TableBound | non_HLOS/adsp_proc/bt/nanopb/generator/nanopb_generator.py:84-129 | no integer, float or bool of the type and int_size encodes to more bytes than the datatypes table says |
| SizeBound.EnumBound | non_HLOS/adsp_proc/bt/nanopb/generator/nanopb_generator.py:423-424 | a declared enum value encodes within the enum size, negative ones in ten bytes |
| SizeBound.PackedPays | non_HLOS/adsp_proc/bt/nanopb/generator/nanopb_generator.py:1046-1055 | the keys of n unpacked items pay for one key and the packed length prefix, with a byte more for n = 1 only |
| SizeBound.ExtraByteIsNeeded | non_HLOS/adsp_proc/bt/nanopb/generator/nanopb_generator.py:1054-1055 | with max_count 1 a packed bool array uses the additional byte up |
| SizeBound.ItemBound | non_HLOS/adsp_proc/bt/nanopb/generator/nanopb_generator.py:985-1042 | one item without its key never exceeds the size computed for it, byte strings being within max_size |
| SizeBound.FieldBound | non_HLOS/adsp_proc/bt/nanopb/generator/nanopb_generator.py:985-1057 | one field never encodes to more than its encoded_size, byte strings being within max_size |
| SizeBound.ChargeBound | non_HLOS/adsp_proc/bt/nanopb/generator/nanopb_generator.py:1225-1240 | at most one alternative of a oneof is on the wire, so its members together stay below the largest |
| SizeBound.MessageBound | non_HLOS/adsp_proc/bt/nanopb/generator/nanopb_generator.py:1574-1585 | whenever encoded_size is a plain number no value of the type with byte strings within max_size encodes to more bytes |
| SizeBound.BytesWithinIff | non_HLOS/adsp_proc/bt/nanopb/generator/nanopb_generator.py:985-1042 | every byte string the encoder accepts stays within the size computed for it exactly when the member has no padding, that is when max_size is even |
| SizeBound.OddBytesExceed | non_HLOS/adsp_proc/bt/nanopb/inc/pb.h:371 | a message with a bytes field of max_size 5 and encoded_size 7 that is decoded from eight bytes and encoded to eight |
| TypeGraph.AppendAcyclicIff | non_HLOS/adsp_proc/bt/nanopb/generator/nanopb_generator.py:1889-1894 | adding a message keeps the graph acyclic exactly when it does not reach itself over those before it |
| TypeGraph.CheckRecursiveDependencies | non_HLOS/adsp_proc/bt/nanopb/generator/nanopb_generator.py:1700-1716 | the recursive loop returns what the search as a function returns, on every graph and at every recursion limit |
| TypeGraph.SearchExact | non_HLOS/adsp_proc/bt/nanopb/generator/nanopb_generator.py:1700-1716 | whenever the search answers, it says exactly whether the root is reached |
| TypeGraph.CutOffIff | non_HLOS/adsp_proc/bt/nanopb/generator/nanopb_generator.py:1700-1716 | a search for a root that is not reached is cut off exactly when some walk visits more messages than the limit allows nested calls |
| TypeGraph.AcyclicSearchEnds | non_HLOS/adsp_proc/bt/nanopb/generator/nanopb_generator.py:1700-1716 | over an acyclic graph one nested call per message is enough, although no visited set is kept |
| TypeGraph.SearchNeverEnds | non_HLOS/adsp_proc/bt/nanopb/generator/nanopb_generator.py:1700-1716 | a search that leads into a cycle and not to its root is cut off at every limit |
| TypeGraph.ParseAcyclicIff | non_HLOS/adsp_proc/bt/nanopb/generator/nanopb_generator.py:1875-1894 | the graph is acyclic at every step of the parse exactly when every conversion to callback breaks its cycle |
| TypeGraph.EmptyBreaks | non_HLOS/adsp_proc/bt/nanopb/generator/nanopb_generator.py:1890-1893 | a conversion that removes all dependencies breaks the cycle |
| TypeGraph.LeftoverCycle | non_HLOS/adsp_proc/bt/nanopb/generator/nanopb_generator.py:1890-1893 | a converted message that keeps a member of its own type leaves a cycle behind |
| TypeGraph.LeftoverNeverEnds | non_HLOS/adsp_proc/bt/nanopb/generator/nanopb_generator.py:1890-1893 | on that cycle the check of the next message that embeds the first is cut off at every limit |
| TypeGraph.ProtoFile.Parse | non_HLOS/adsp_proc/bt/nanopb/generator/nanopb_generator.py:1875-1894 | builds the accepted messages, converting exactly those that reach themselves, or stops at the first check the limit cuts off; ends acyclic within one nested call per message if every conversion breaks its cycle |
| TypeGraph.StuckIsCyclic | non_HLOS/adsp_proc/bt/nanopb/generator/nanopb_generator.py:1736-1740 | if no remaining message is free of remaining dependencies there is a cycle |
| TypeGraph.OrderedIsAcyclic | non_HLOS/adsp_proc/bt/nanopb/generator/nanopb_generator.py:1718-1740 | an order with every dependency first exists only for acyclic graphs |
| TypeGraph.Candidate | non_HLOS/adsp_proc/bt/nanopb/generator/nanopb_generator.py:1730-1735 | picks the first message none of whose dependencies remain, or shows that every one needs another |
| TypeGraph.SortDependencies | non_HLOS/adsp_proc/bt/nanopb/generator/nanopb_generator.py:1718-1740 | every message once, after all it embeds, each time the first one that is free; the fallback, which takes the first of all, fires exactly when there is a cycle |
| StateMachine.KeptIff | non_HLOS/wm_proc/productsw/common/src/pdtsw_sm.c:14-45 | the states kept are exactly the common proper ancestors |
| StateMachine.MovesIff | non_HLOS/wm_proc/productsw/common/src/pdtsw_sm.c:50-90 | exactly the active states that are not common proper ancestors are left, and those of the new path entered |
| StateMachine.MovesReplay | non_HLOS/wm_proc/productsw/common/src/pdtsw_sm.c:92-124 | exits pop the active stack top-down, entries push children of the top, and the result is the root path of the new state |
| StateMachine.RunKeepsStack | non_HLOS/wm_proc/productsw/common/src/pdtsw_sm.c:168-186 | after every run that does not hang the active stack is the root path of the current state |
| StateMachine.EventVisits | non_HLOS/wm_proc/productsw/common/src/pdtsw_sm.c:168-186 | an event is shown to the ancestors of the state current at entry, innermost first, up to the first HANDLED |
| StateMachine.EventIsPlain | non_HLOS/wm_proc/productsw/common/src/pdtsw_sm.c:126-166 | with one shared skip variable an event runs as if a state that asked to skip had no transition, and leaves the variable clear |
| StateMachine.RunIsPlain | non_HLOS/wm_proc/productsw/common/src/pdtsw_sm.c:126-191 | over every run a skip request suppresses its own transition and never leaks to a later event |
| StateMachine.SkipWorksIff | non_HLOS/wm_proc/productsw/common/src/pdtsw_sm.c:188-191 | without sharing, requests suppress the transition of the visited state exactly when one was made while the current state had its variable, and none stays behind exactly when all were |
| StateMachine.SkipMissesItsTransition | non_HLOS/wm_proc/productsw/common/src/pdtsw_sm.c:188-191 | a chart with two skip variables in which the transition is taken and the request stays behind |
| Transitions.SetStateIs | non_HLOS/wm_proc/productsw/common/src/pdtsw_sm.c:92-124 | setting a state leaves and enters the states on the way and makes it current, or hangs exactly for a state that does not exist or is current |
| Transitions.RowDecides | non_HLOS/wm_proc/productsw/common/src/pdtsw_sm.c:126-166 | with the skip variable clear the first row for the event decides, by its own condition: it stays, moves to the next state of the row, or hangs |
| Transitions.NoRowStays | non_HLOS/wm_proc/productsw/common/src/pdtsw_sm.c:126-166 | without a row for the event nothing happens |
| Transitions.SkipStays | non_HLOS/wm_proc/productsw/common/src/pdtsw_sm.c:128-166 | with the skip variable set nothing happens but that it is cleared |
| Transitions.AskingMarks | non_HLOS/wm_proc/productsw/common/src/pdtsw_sm.c:188-191 | a skip request sets the variable of the current state and no other |
| Transitions.HandlerThenMove | non_HLOS/wm_proc/productsw/common/src/pdtsw_sm.c:168-186 | the handler is called first, and the transition is taken whether or not it says that the event is handled |
| Transitions.PassedOver | non_HLOS/wm_proc/productsw/common/src/pdtsw_sm.c:168-186 | a state without a handler is passed over, its table too |
| SkipRequests.RequestsWorkIff | non_HLOS/wm_proc/productsw/common/src/pdtsw_sm.c:126-191 | over all events and environments in which handlers may also set states, requests work and none stays behind exactly when all states have the same variable or nobody handles anything |
| SkipRequests.AskingWorksIff | non_HLOS/wm_proc/productsw/common/src/pdtsw_sm.c:126-191 | if handlers only ask to be skipped, exactly when every state with a handler has the variable of all states that can be current in it |
| StateMachine.StateMap.FindCommonParent | non_HLOS/wm_proc/productsw/common/src/pdtsw_sm.c:14-45 | the nested loops return the last common proper ancestor |
| StateMachine.StateMap.ExecuteStateExitSequence | non_HLOS/wm_proc/productsw/common/src/pdtsw_sm.c:50-64 | calls the exit functions from the current state up to the parent |
| StateMachine.StateMap.ExecuteStateEntrySequence | non_HLOS/wm_proc/productsw/common/src/pdtsw_sm.c:69-90 | calls the entry functions from below the parent down to the target |
| StateMachine.StateMap.SetState | non_HLOS/wm_proc/productsw/common/src/pdtsw_sm.c:92-124 | moves to the new state over the common ancestor, or hangs exactly on a bad or unchanged state |
| StateMachine.StateMap.DoTransition | non_HLOS/wm_proc/productsw/common/src/pdtsw_sm.c:126-166 | takes the first matching row if its condition holds and no skip is pending, then clears the skip variable |
| StateMachine.StateMap.HandleEvent | non_HLOS/wm_proc/productsw/common/src/pdtsw_sm.c:168-186 | the loop up the chain of the state current at entry, as the reference dispatch, with handlers that set states and ask to skip themselves |
| StateMachine.StateMap.RunHandler | non_HLOS/wm_proc/productsw/common/src/pdtsw_sm.c:168-191 | a handler that sets states and asks to skip leaves the machine as the reference dispatch does, or hangs with it |
| StateMachine.StateMap.SkipStateTransition | non_HLOS/wm_proc/productsw/common/src/pdtsw_sm.c:188-191 | marks the skip variable of the current state |
| Island.RunKeepsInv | non_HLOS/wm_proc/productsw/common/src/pdtsw_platform.c:283-306 | the lock excludes and tokens are conserved over every interleaving of any number of clients |
| Island.ParkedConserved | non_HLOS/wm_proc/productsw/common/src/pdtsw_platform.c:367-393 | outside the locked sections the parked clients are exactly the waiting count plus the semaphore count |
| Island.TimelyTokens | non_HLOS/wm_proc/productsw/common/src/pdtsw_platform.c:283-306 | after a run in which no callback enters its section before its change, whenever the callback that reports non-island mode is over every parked client has its token |
| Island.CanStrandIff | non_HLOS/wm_proc/productsw/common/src/pdtsw_platform.c:283-306 | from any state a client can be stranded without a further premature callback exactly when the state is not safe |
| Island.TimelyIff | non_HLOS/wm_proc/productsw/common/src/pdtsw_platform.c:367-393 | a run has no premature callback exactly when from no state on its way a client can be stranded without a further one |
| Island.Stranded | non_HLOS/wm_proc/productsw/common/src/pdtsw_platform.c:283-306 | the run that strands a client when the callback is over before the mode it reports is visible |
| Island.TokenForEach | non_HLOS/wm_proc/productsw/common/src/pdtsw_platform.c:379-393 | then any parked client can take its token without putting another at risk |
| Utf8.TextIff | non_HLOS/adsp_proc/bt/nanopb/src/pb_common.c:334-385 | the grammar of RFC 3629 section 4 without U+FFFE and U+FFFF generates exactly the encodings of sequences of such characters |
| Utf8.HeadDecided | non_HLOS/adsp_proc/bt/nanopb/src/pb_common.c:339-381 | the mask tests on the first bytes decide the character at the head |
| Utf8.ValidateUtf8 | non_HLOS/adsp_proc/bt/nanopb/src/pb_common.c:334-385 | accepts a NUL-terminated string exactly when it matches that grammar, and never reads past the terminator |
| DoubleFloat.NarrowDouble | non_HLOS/adsp_proc/bt/nanopb/src/pb_decode.c:1662-1726 | the result is the float pattern the double rounds to, with its sign, subnormals and overflow to infinity included |
| DoubleFloat.NarrowsNearest | non_HLOS/adsp_proc/bt/nanopb/src/pb_decode.c:1678-1717 | for every double that is not a NaN no float is nearer, and ties go away from zero |
| DoubleFloat.RoundingUnique | non_HLOS/adsp_proc/bt/nanopb/src/pb_decode.c:1678-1717 | a magnitude rounds to one float only |
| DoubleFloat.NanSurvivesIff | non_HLOS/adsp_proc/bt/nanopb/src/pb_decode.c:1679-1684 | a NaN stays a NaN exactly when one of its 23 highest fraction bits is set |
| DoubleFloat.LowNanIsLost | non_HLOS/adsp_proc/bt/nanopb/src/pb_decode.c:1679-1684 | the NaN 0x7FF0000000000001 becomes infinity |
| DoubleFloat.WidenFloat | non_HLOS/adsp_proc/bt/nanopb/src/pb_encode.c:954-999 | the double pattern has exactly the value of the float pattern, subnormals normalised |
| DoubleFloat.NarrowInvertsWiden | non_HLOS/adsp_proc/bt/nanopb/src/pb_encode.c:954-999 | narrowing gives back every 32-bit pattern that was widened, NaNs included |
| DoubleStreams.EncodeFloatAsDouble | non_HLOS/adsp_proc/bt/nanopb/src/pb_encode.c:954-999 | writes the eight bytes of the widened float |
| DoubleStreams.DecodeDoubleAsFloat | non_HLOS/adsp_proc/bt/nanopb/src/pb_decode.c:1662-1726 | reads eight bytes and narrows them |
| DoubleStreams.FloatSurvives | non_HLOS/adsp_proc/bt/nanopb/src/pb_decode.c:1662-1726 | the eight bytes written for a float are read back as the same pattern |

## Left out

- Callback fields, extension lists, custom stream callbacks and submessage pre-decode callbacks: they run user code that is not part of this model; `FindExtension` is kept, for messages without extension fields.
- `PB_ENABLE_MALLOC` pointer fields and `pb_release`: off in the modelled build.
- `PB_DECODE_DELIMITED` and `PB_DECODE_NULLTERMINATED`, `pb_decode_ex` and `pb_encode_ex` flags: thin wrappers around the modelled functions.
- C struct layout: update in place of the destination struct, aliasing of its members and bytes beyond a count are not captured; a struct is a value that decoding functions return, its memory, also behind the count of an array, is read as values of the members' types.
- Error messages (`stream->errmsg`).
- Wrap-around of `size_t`: the encoder is stated for messages whose submessage sizes fit the length prefix (`SizesFit`), the round trip for encodings below 2^32 bytes.
- FieldIter.UnpackInvertsPack: demands a size offset below 128 at widths 4 and 8, because the record keeps eight bits of it and the C code reads them as signed.
- Content.DecodeInvertsEncode: strings are compared up to their first NUL, because the encoder writes no more of them.
- Decoder.SetToDefaults: the default stream is an exact buffer rather than one of unlimited length; a descriptor's stream always ends with a zero tag.
- Merge.MergeLaw: without fixed-count arrays; `MergeCounted.MergeIff` covers every schema.
- SizeBound.MessageBound: byte strings are within `max_size`, which for an odd one neither encoder nor decoder enforces (`SizeBound.BytesWithinIff`); symbolic sizes (submessages of other files without known options) are not numbers and are not bounded; the relation between a descriptor and the generator's message is a predicate, the text of the generated files is not modelled.
- Generator naming, option parsing and text emission, and the protoc plugin.
- TypeGraph.ProtoFile.Parse: names are distinct; nested enums and extensions of the loop are not modelled.
- StateMachine.StateMap.HandleEvent: conditions, entry and exit functions do not call back into the machine, and a handler does not raise a nested event; what a handler answers and does is a parameter. The endless loops of the error paths are modelled as a result from which nothing continues. The root's own parent entry is taken to be the root.
- Island.TimelyIff: fewer than K_SEM_MAX_LIMIT clients, so that the counting semaphore never saturates; voting itself, logging and the diagnostics call are not modelled.
- Sensor drivers, GLink transport, NPA voting and the remaining services: wrappers over code that is not part of this repository.
