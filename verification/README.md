# Verification of the nanopb codec

This project models the Protocol Buffers codec nanopb 0.3.9.5, which the iOS app vendors under
`procon-proj/Pods/nanopb`, and proves that it does what it is for: what the encoder writes, the decoder reads
back, within the buffers and blocks that the two are given.

nanopb has no code for particular messages. Encoder and decoder walk over a table of field descriptors and a C
struct that the table describes. The configuration that is modelled is the one the app builds: 32-bit field
sizes (`PB_FIELD_32BIT`), allocation enabled (`PB_ENABLE_MALLOC`), a 64-bit `size_t`. The wire format is that of
the Protocol Buffers Encoding specification (sections "Base 128 Varints", "Signed Integers", "Submessages",
"Packed Repeated Fields" and "Last One Wins").

The model has two levels.

* Specifications are functions on byte strings and structs: `Wire` (varints, fixed integers, tags, skipping),
  `Descriptors` (tables, structs, initial values), `Encoding` (`EncMsg`, `EncodableMsg`) and `Decoding` (`DecRun`,
  `DecMsg`, `Decode`). The theorems about the format are lemmas about them: `Scalars`, `Composition`, `Arrays`,
  `Normal`, `Merging`, `RoundTrip`, `Framing`, `Stopping`, `Required`, `Work`. What the specifications mean is stated
  again without their names, in numbers and case by case: `Format` and `Reading` (the bytes of each value), `Initial`
  (what is absent), `Presence` and `Refusal` (what is left out and what is refused), `ByField` (the round trip and the
  merging of messages, field by field), with `Samples` from the app's messages.
* The C code, which works by updating streams, iterators, buffers and bitmaps, is modelled by classes and methods
  of the same shape, each proved against a specification: `Output`, `ZeroCheck` and `Encoder` (streams that store or
  only count, the zero check, two passes for submessages), `Input`, `ScalarDecoders`, `PackedArrays` and `Decoder`
  (substreams, field loop), `Iteration` (the cyclic iterator over relative offsets), `Bitmap` (required fields) and
  `NegativeVarint` (the encoder for platforms without 64-bit integers). Memory is modelled by `Memory` (the pointers
  of a struct), `Agreement`, `Storage` (initialization), `Allocation` (the heap and release), `StaleMemory` and
  `UnionMemory`. `Codec` puts encoder and decoder together.

How to read the contracts of the methods:

* `Outcome(ok, ..., b, good)` on the output side: the call succeeds if and only if `good` holds and there is room
  for `b`; on success it has appended `b`, on failure with `good` a prefix of it.
* `Reads(ok, v, rest, r)` and `Gives(..., outOfMemory)` on the input side: the call returns what the parser result
  `r` says, value and rest, and fails if and only if `r` is a failure, or an allocation of this call failed.
* `Conserved(ok)`: position plus bytes left is what it was; after a failure it may be less.
* A struct is held in two halves, its data (`Msg`) and its pointers, counts and which_ fields (`Node`). `Agrees` ties
  them: the counts and which_ fields are those of the data, a pointer is set exactly where the data have a value, and
  an array on the heap has a block, its strings and its structs. Every successful call keeps the agreement.
* `frame` and `Kept`: `frame` stands for all live blocks that do not belong to the struct at hand; before and after
  the call the live blocks are the frame and the blocks of the struct, each once. Blocks can only be freed while they
  are live, so no block is freed twice. Any allocation may fail. `Lost`: which blocks have lost their last pointer.
* `Walkable`: the counts match what there is to release. A static array has entries in use, which the count covers,
  and spare ones, which may hold anything; `tidy` says that they hold no pointers, as those of `Clean` memory.
* `stale`: the call has failed on its input and left an entry of a static array in use that holds what the memory held
  before, with pointers that release must not follow. It is not part of the code; the heap after such a call is open.
* `misread`: whether the zero check takes a set pointer for NULL or NULL for a set pointer, which depends on addresses.

Messages may contain each other in cycles through pointers and through repeated fields on the heap; a struct that is
stored inside another one precedes it in the table.

Places where the code and its description differ, modelled as the code has them:

* `pb_decode.h` offers `pb_decode_noinit` for merging two messages. Merging differs from decoding the concatenated
  bytes when the first part has a zero tag (`pb_decode.c:310-314`): see `Stopping.MergeExactly`. What the encoder
  writes has none: see `RoundTrip.MergingEncoded`.
* `pb_decode.h:55-56` says that `pb_decode` initializes the whole struct. It leaves the entries of static arrays as
  they were (`pb_decode.c:863-869`), and an entry is counted before it is initialized. A success is right in any
  memory; the release on failure is proved for memory in which these entries hold no pointers, which zeroing it
  ensures, and any memory does exactly when no such entry has pointers: see `StaleMemory.CleanExactly`,
  `StaleMemory.FailStale` and `StaleMemory.StaleReleased`.
* A member of a union that occurs again is said to be merged (`pb_decode.c:1136-1137`). A struct in a union is cleared
  and not released (`pb_decode.c:468-474`), so what it owned is lost: see `UnionMemory.ReadField` for when, and
  `UnionMemory.SameMemberTwice`.
* The zero check on a pointer field in a proto3 submessage compares as many bytes at the place of the pointer as one
  entry of the field has (`pb_encode.c:307-327`). This is a test for NULL exactly when an entry is as large as a
  pointer: see `ZeroCheck.ExactlyPointerSize`. A struct therefore has on record, for each pointer, whether the check
  misreads it, which it can do in the cases of `ZeroCheck.MisreadExactly`; everything about the encoder holds for all
  tables and all such structs, and the round trip exactly as far as `RoundTrip.RoundTripMsg` says.
* The 32-bit varint decoder says that it checks for overflow. It looks at bits 32 to 34 only if the varint ends
  there (`pb_decode.c:238`): see `Scalars.NarrowVarint` for what it accepts.

A message type without fields matches a field of number 0 against the end marker of its descriptor and reads it as
a required boolean (`pb_common.c:82-92`); `Decoding.SkipUnknown` has that case.

Check the project with `dafny verify dfyconfig.toml`.

## Model

| member | source | states |
|---|---|---|
| `RoundTrip.RoundTripMsg` | procon-proj/Pods/nanopb/pb_decode.c:1075-1087 | For every descriptor table and every encodable struct whose encoding is shorter than 2^32 bytes, decoding the encoding into an initialized struct succeeds and consumes all of it. The result is the struct in normal form (the storage behind an absent field holds its initial value, everything else is unchanged) if and only if no set pointer is in a submessage that the proto3 zero check took for empty |
| `ByField.FieldSurvives` | procon-proj/Pods/nanopb/pb_decode.c:1075-1087 | The round trip field by field, in terms of encoding and decoding alone: each entry of an array and each value that was written comes back as it was, behind its flag, in its union or behind its pointer, a struct as it is read back from its own encoding; and the storage of what nobody wrote is initial |
| `RoundTrip.RoundTripWide` | procon-proj/Pods/nanopb/pb_encode.c:307-327 | On tables in which the entries behind optional pointers of proto3 submessages are at least as large as a pointer, every such struct is read back in normal form |
| `RoundTrip.LostPointer` | procon-proj/Pods/nanopb/pb_encode.c:319-325 | A table and a struct (a pointer to a boolean, at an address that ends in a zero byte, in a proto3 submessage) that is encoded to nothing and not read back |
| `Codec.Transfer` | procon-proj/Pods/nanopb/pb_decode.c:1075-1087 | Encoder and decoder one after the other, on a buffer: the encoding succeeds if and only if the struct is encodable and fits; if it is shorter than 2^32 bytes and no allocation fails, decoding it into any memory succeeds with the struct as the round trip has it, in normal form exactly if no such pointer was set, and its two halves agree |
| `RoundTrip.LastOneWins` | procon-proj/Pods/nanopb/pb_decode.c:943-1021 | Two encodings in a row decode to the second message merged into the first: arrays are appended, structs in place are merged, and of everything else the last value wins; the call fails exactly when the arrays of the two do not fit |
| `ByField.LastOneWinsByField` | procon-proj/Pods/nanopb/pb_decode.c:943-1021 | The same field by field, without reference to the merged struct: an array holds the entries that the first encoding decodes to and then those of the second; a struct stored in place is what its own two encodings decode to in a row; any other field is as in the second if that wrote it, and as in the first otherwise |
| `ByField.BothFitExactly` | procon-proj/Pods/nanopb/pb_decode.c:454-464 | Two encodings in a row fail exactly if an array of both has entries in the second and more in all than its declared size, or than 2^32 - 1 on the heap, or if this is so inside of a struct stored in place |
| `Merging.MergeRun` | procon-proj/Pods/nanopb/pb_decode.c:925-1073 | Decoding the encoding of a message into a struct that holds any other one of its type gives the merged struct and leaves nothing unread, or fails, exactly when some array at any depth has no room |
| `Merging.FreshFits` | procon-proj/Pods/nanopb/pb_decode.c:836-919 | Every array of an encodable struct, at any depth, has room for it in an initialized struct |
| `Merging.RebuiltIsNorm` | procon-proj/Pods/nanopb/pb_decode.c:836-919 | An initialized struct takes over the normal form of what is merged into it, at any depth, if and only if no set pointer is in a submessage that the zero check took for empty |
| `Normal.ZeroMsgIsDefault` | procon-proj/Pods/nanopb/pb_encode.c:237-328 | A struct that the proto3 zero check calls empty is, in normal form, the struct that initialization produces, at any depth of nesting, if and only if no pointer in it is set; then leaving it out of the encoding loses nothing |
| `Normal.ZeroValIsDefault` | procon-proj/Pods/nanopb/pb_encode.c:264-327 | A single proto3 value that the zero check omits is the value that the decoder starts from, if and only if no pointer in it is set |
| `Normal.AbsentIsDefault` | procon-proj/Pods/nanopb/pb_encode.c:332-417 | Whatever the reason for which the encoder writes nothing for a field that is not repeated (no presence flag, a NULL pointer, a zero value), its normal form is its initial value, with the one exception above |
| `Normal.WideIsHonest` | procon-proj/Pods/nanopb/pb_encode.c:307-327 | No struct of a table with entries at least as large as a pointer has that exception |
| `Initial.InitialExactly` | procon-proj/Pods/nanopb/pb_decode.c:836-904 | The struct that initialization makes is the only one in which, at every depth in place, presence flags are off, arrays and unions empty, pointers NULL, and scalars hold the default of their descriptor |
| `Initial.Untouched` | procon-proj/Pods/nanopb/pb_decode.c:925-1021 | A field that does not occur in the bytes, nor another member of its union, keeps what its storage held, whatever else is decoded |
| `Initial.AbsentIsInitial` | procon-proj/Pods/nanopb/pb_decode.c:1075-1087 | After a message has been decoded, a field that did not occur holds exactly the default of its descriptor behind a flag that is off, no entries, no member, or NULL, according to its kind |
| `Initial.AbsentInside` | procon-proj/Pods/nanopb/pb_decode.c:1503-1525 | The same for the fields of a struct inside: what its own bytes do not mention is as before, and initial if the struct was |
| `Presence.ZeroIsBlank` | procon-proj/Pods/nanopb/pb_encode.c:286-305 | The zero check calls a struct empty exactly when each of its fields is zero, empty or off by its kind, and none is required |
| `Presence.LeftOutExactly` | procon-proj/Pods/nanopb/pb_encode.c:332-417 | A field puts nothing on the wire exactly when it is an empty array, another member of its union, NULL, off, or a proto3 value that is zero throughout; otherwise it is its value behind its tag |
| `Presence.ScalarWritten` | procon-proj/Pods/nanopb/pb_encode.c:316-326 | A proto3 scalar is left out exactly when it is 0, false or empty |
| `Presence.InitialEncodesToNothing` | procon-proj/Pods/nanopb/pb_encode.c:519-541 | An initialized struct is encoded to nothing exactly when it has no required field in place and its proto3 fields have none and no byte array of a fixed length, at any depth |
| `Refusal.EncodableExactly` | procon-proj/Pods/nanopb/pb_encode.c:144-157 | A struct is refused exactly when, in it or in a struct that is written in it, at any depth, a static array holds more than its declared entries, a written byte array with its header of four bytes exceeds its static field, or a required pointer is NULL |
| `Refusal.NothingRefused` | procon-proj/Pods/nanopb/pb_encode.c:144-157 | On tables whose arrays and byte arrays are all on the heap and whose pointers are not required, every struct is accepted, with arrays of any length |
| `Merging.MergeRunVal` | procon-proj/Pods/nanopb/pb_decode.c:1503-1525 | One value of any type, read into storage that holds another one, decodes to the merged value from the front of any byte string, a struct through its own length, and fails exactly when an array in it has no room |
| `Merging.EntriesRun` | procon-proj/Pods/nanopb/pb_decode.c:454-464 | Entries that are written one by one with their tags are appended to the array in order if they fit, and fail otherwise |
| `Merging.FieldRun` | procon-proj/Pods/nanopb/pb_encode.c:332-417 | Decoding what one field of a struct was encoded to takes exactly the storage of that field from its old to its merged value, including unions and fields of which nothing is written |
| `Framing.DelimitedInverse` | procon-proj/Pods/nanopb/pb_decode.c:1104-1117 | A message behind its length decodes to its normal form and leaves exactly the bytes behind it |
| `Framing.StreamInverse` | procon-proj/Pods/nanopb/pb_encode.c:543-546 | The concatenation of any list of delimited messages decodes back to that list |
| `Framing.NullTerminatedInverse` | procon-proj/Pods/nanopb/pb_decode.c:949-955 | A message before a zero byte decodes to its normal form, whatever follows the zero, which stays unread |
| `Composition.RunConcat` | procon-proj/Pods/nanopb/pb_decode.c:943-1021 | The field loop on a concatenation continues on the second part from the struct that the first part left, unless a zero tag has ended the first part |
| `Composition.Merge` | procon-proj/Pods/nanopb/pb_decode.h:74-75 | If decoding a and then b into the same struct succeeds and no zero tag ends a, one decoding of the concatenation succeeds with the same struct; if a zero tag ends a, it stops there and leaves the rest, with b, unread |
| `Stopping.StoppedExactly` | procon-proj/Pods/nanopb/pb_decode.c:949-955 | A run is ended by a zero tag if and only if at some position a tag of value 0, in any spelling, stands after fields that are read to their end |
| `Stopping.MergeExactly` | procon-proj/Pods/nanopb/pb_decode.h:74-75 | When both parts are consumed, merging and a single decoding agree if and only if the first part has no zero tag after complete fields, or the second part is empty |
| `Stopping.OverlongZeroTag` | procon-proj/Pods/nanopb/pb_decode.c:207-233 | No test on the last byte could replace that condition: a zero tag of 42 bytes ends in 02, because the bit position of the 32-bit decoder wraps around |
| `RoundTrip.EncodedIsComplete` | procon-proj/Pods/nanopb/pb_decode.c:943-1021 | A run over what the encoder wrote, on any struct of the type, meets no zero tag: if it does not fail it reads all fields and all bytes |
| `RoundTrip.MergingEncoded` | procon-proj/Pods/nanopb/pb_decode.h:74-75 | So merging agrees with one decoding of the concatenation whenever the first part is an encoded message, whatever the second part is |
| `Composition.MergeFails` | procon-proj/Pods/nanopb/pb_decode.c:310-314 | Concrete bytes (00, then 08 05) on which the two ways of merging differ |
| `Composition.StopsAtZero` | procon-proj/Pods/nanopb/pb_decode.c:310-314 | A zero byte completes any message without required fields and hides from the decoder whatever follows |
| `Composition.UnknownFieldsTransparent` | procon-proj/Pods/nanopb/pb_decode.c:957-986 | Any complete fields whose numbers the message lacks, in any spelling of number, length and value, put between complete fields, change neither outcome, struct nor unread bytes |
| `Composition.WireFieldUnknown` | procon-proj/Pods/nanopb/pb_decode.c:321-331 | What an encoder writes for a field of any of the four wire types is such a complete field |
| `Composition.SkipInverse` | procon-proj/Pods/nanopb/pb_decode.c:321-331 | Skipping a field by its wire type consumes exactly the bytes that the encoder of that wire type wrote |
| `Composition.RunSeen` | procon-proj/Pods/nanopb/pb_decode.c:1012-1017 | The struct that is decoded does not depend on which required fields have been seen; the set of seen fields only grows, by the same amount |
| `Required.CompleteExactly` | procon-proj/Pods/nanopb/pb_decode.c:1030-1070 | When every field on the wire can be read, the message is accepted if and only if each required field with fewer than 64 required fields before it occurs at least once |
| `Required.SeenIsOccurring` | procon-proj/Pods/nanopb/pb_decode.c:1012-1017 | What the decoder has seen in the end is what it began with and the required fields among those that occur |
| `Arrays.PiecesAgree` | procon-proj/Pods/nanopb/pb_decode.c:423-464 | However an array of packable scalars is cut into packed chunks and single elements, it is decoded if and only if the entries fit, and then the struct has gained the same entries in the same order |
| `Arrays.RoundTripPacked` | procon-proj/Pods/nanopb/pb_decode.c:436-448 | A packed chunk appends exactly its entries when they fit and fails when they do not, whatever follows inside the chunk |
| `Arrays.RoundTripScalar` | procon-proj/Pods/nanopb/pb_decode.c:1318-1548 | Every scalar, string and byte field decodes back from what its encoder wrote, at each of its widths |
| `Scalars.VarintLength` | procon-proj/Pods/nanopb/pb_encode.c:599-619 | A varint takes at most k bytes if and only if the value has at most 7k bits |
| `Scalars.VarintMinimal` | procon-proj/Pods/nanopb/pb_encode.c:599-619 | No byte string spells a value in fewer bytes than the encoder uses |
| `Scalars.VarintFitsBuffer` | procon-proj/Pods/nanopb/pb_encode.c:601-615 | No 64-bit value needs more than the ten bytes of the local buffer |
| `Format.VarintByte` | procon-proj/Pods/nanopb/pb_encode.c:599-619 | Byte k of a varint is bits 7k to 7k + 6 of the value, with the top bit set on all bytes but the last |
| `Format.DecVarintExactly` | procon-proj/Pods/nanopb/pb_decode.c:255-275 | Any bytes as a 64-bit varint: the number ends at the first byte below 128, is the sum of the groups of seven bits modulo 2^64, and is refused after ten bytes or without an end |
| `Scalars.VarintInverse` | procon-proj/Pods/nanopb/pb_decode.c:255-275 | Every 64-bit value decodes back, leaving what follows |
| `Scalars.NarrowVarint` | procon-proj/Pods/nanopb/pb_decode.c:187-247 | The 32-bit decoder on the minimal encoding of any 64-bit value, exactly: it accepts everything below 2^32, nothing from there to 2^63, and from 2^63 on exactly the values with bit 31 set whose four groups of seven bits from bit 35 up are each all zeros or all ones; what it returns is the value modulo 2^32 |
| `Scalars.Varint32Inverse` | procon-proj/Pods/nanopb/pb_decode.c:249-252 | Every 32-bit value decodes back |
| `Scalars.NarrowNegative` | procon-proj/Pods/nanopb/pb_decode.c:221-229 | Every negative int32, encoded with its 64-bit sign extension, is accepted and gives its 32-bit image |
| `Scalars.ZigZagBijection` | procon-proj/Pods/nanopb/pb_encode.c:621-630 | Zigzag maps the signed 64-bit integers one to one onto the unsigned ones and the decoder's map is its inverse on both sides |
| `Format.ZigZagOrder` | procon-proj/Pods/nanopb/pb_encode.c:621-630 | Zero is written as 0, a larger magnitude as a larger number, and a negative number directly before the positive one of its magnitude, which determines the map |
| `Format.ZigZagFormula` | procon-proj/Pods/nanopb/pb_encode.c:621-630 | Zigzag is the exclusive or of twice the value on 64 bits with all ones for a negative value and all zeros otherwise |
| `Format.TwosComplement` | procon-proj/Pods/nanopb/pb_encode.c:767-788 | A signed integer is written as itself modulo 2^64 |
| `Scalars.SignedInverse` | procon-proj/Pods/nanopb/pb_decode.c:1329-1364 | A signed integer of 1, 2, 4 or 8 bytes survives sign extension to 64 bits and the decoder's casts |
| `Scalars.FixedInverse` | procon-proj/Pods/nanopb/pb_decode.c:1283-1316 | Little-endian fixed integers decode back |
| `Format.FixedByte` | procon-proj/Pods/nanopb/pb_encode.c:632-657 | Byte k of a fixed-size integer is bits 8k to 8k + 7 |
| `Format.FixedValueExactly` | procon-proj/Pods/nanopb/pb_decode.c:1283-1316 | Bytes read as a fixed-size integer count 256 times as much each as the one before |
| `Format.ValueBytes` | procon-proj/Pods/nanopb/pb_encode.c:760-901 | What each type of value is written as: a varint, the zigzag varint, four or eight bytes, or a length and its bytes |
| `Format.TaggedBytes` | procon-proj/Pods/nanopb/pb_encode.c:660-698 | A value is written behind the varint of eight times its field number plus 0 for integers and booleans, 1 for 64-bit and 5 for 32-bit fixed-size ones, and 2 for everything with a length |
| `Format.PackedBytes` | procon-proj/Pods/nanopb/pb_encode.c:155-202 | Integers and booleans in arrays are written behind one tag with wire type 2 and their common length, bare and in order |
| `Format.UnpackedBytes` | procon-proj/Pods/nanopb/pb_encode.c:204-231 | Strings, byte arrays and structs in arrays are written in order, each behind a tag with wire type 2 |
| `Format.MessageBytes` | procon-proj/Pods/nanopb/pb_encode.c:519-541 | A message is the bytes of its fields in the order of the descriptor |
| `Format.SkipBytes` | procon-proj/Pods/nanopb/pb_decode.c:321-331 | Passing over an unknown field: wire type 0 to the end of a number, 1 eight bytes, 2 a length and its bytes, 5 four bytes, and failure for every other |
| `Reading.BoolReads` | procon-proj/Pods/nanopb/pb_decode.c:1318-1327 | A boolean is true for every number but zero |
| `Reading.SignedReads` | procon-proj/Pods/nanopb/pb_decode.c:1329-1364 | A signed field accepts exactly the integer in its range, if there is one, that agrees with the number on the wire in the low 64 bits, or in the low 32 for a field of 32 bits or less |
| `Reading.UnsignedReads` | procon-proj/Pods/nanopb/pb_decode.c:1366-1388 | An unsigned field accepts exactly the numbers in its range, unchanged |
| `Reading.ZigZagReads` | procon-proj/Pods/nanopb/pb_decode.c:1390-1412 | A zigzag field accepts exactly the integers in its range of which the number on the wire is twice the value, or one less than twice the magnitude |
| `Reading.FixedReads` | procon-proj/Pods/nanopb/pb_decode.c:1283-1316 | A fixed-size field is four or eight bytes, least significant first |
| `Reading.BytesReads` | procon-proj/Pods/nanopb/pb_decode.c:1431-1466 | A byte array is accepted exactly when its bytes are there and, in a static field, fit with a header of four bytes |
| `Reading.StringReads` | procon-proj/Pods/nanopb/pb_decode.c:1468-1501 | A string is accepted exactly when its bytes are there with room for one more, and it is what comes before the first zero byte |
| `Reading.FixedLengthReads` | procon-proj/Pods/nanopb/pb_decode.c:1527-1548 | A byte array of fixed length is accepted with exactly that length, or with length zero for all zeros |
| `Reading.WireTypeIgnored` | procon-proj/Pods/nanopb/pb_decode.c:406-475 | The wire type of a known field makes no difference but for arrays of integers and booleans, and there only whether it is 2 |
| `Reading.StructReads` | procon-proj/Pods/nanopb/pb_decode.c:1503-1525 | A struct is read from exactly the bytes that its length delimits, and what it leaves of them is passed over |
| `Reading.UnknownReads` | procon-proj/Pods/nanopb/pb_common.c:82-92 | An unknown field is passed over by its wire type, except that number 0 in a message without fields is read as a boolean |
| `Samples.NetworkType` | procon-proj/Pods/GoogleDataTransportCCTSupport/GoogleDataTransportCCTSupport/GDTCCTLibrary/Protogen/nanopb/cct.nanopb.c:44-44 | The absent field has its declared default, -1 |
| `Samples.TimezoneOffset` | procon-proj/Pods/GoogleDataTransportCCTSupport/GoogleDataTransportCCTSupport/GDTCCTLibrary/Protogen/nanopb/cct.nanopb.c:37-37 | 0 and -1 in a SINT64 field, to the byte |
| `Samples.CommittedMutations` | procon-proj/Pods/FirebaseFirestore/Firestore/Protos/nanopb/firestore/local/maybe_document.nanopb.cc:56-56 | False is left out and true is written as 20 01 |
| `Samples.DoubleValue` | procon-proj/Pods/FirebaseFirestore/Firestore/Protos/nanopb/google/firestore/v1/document.nanopb.cc:57-57 | A 64-bit member of a union, to the byte |
| `Samples.HeapArray` | procon-proj/Pods/FirebaseFirestore/Firestore/Protos/nanopb/google/firestore/v1/document.nanopb.cc:70-70 | An array on the heap, whose declared size is 0, is accepted and written |
| `NegativeVarint.EncodeNegativeVarint` | procon-proj/Pods/nanopb/pb_encode.c:573-597 | For every negative int32 the routine for platforms without 64-bit integers writes exactly the ten bytes of the varint of its 64-bit sign extension |
| `NegativeVarint.Shift` | procon-proj/Pods/nanopb/pb_encode.c:582-592 | One turn of its loop: the 32-bit register with the compensation that is left stands for a 64-bit value before and after, and the second is the first shifted by seven bits |
| `NegativeVarint.FillNegative` | procon-proj/Pods/nanopb/pb_encode.c:576-594 | The loop fills at most ten bytes, with those of the sign-extended value |
| `NegativeVarint.XorDisjoint` | procon-proj/Pods/nanopb/pb_encode.c:588-588 | The exclusive or sets bits that are clear, so it adds them |
| `Output.OStream.Write` | procon-proj/Pods/nanopb/pb_encode.c:103-121 | A write succeeds if and only if the stream only counts or has room; it then appends exactly the bytes, and otherwise changes nothing; only the bytes of the buffer from the old to the new position change |
| `Output.OStream.BufWrite` | procon-proj/Pods/nanopb/pb_encode.c:74-84 | The copy loop stores the bytes at the position and nothing else |
| `Output.OStream.FromBuffer` | procon-proj/Pods/nanopb/pb_encode.c:86-101 | A new stream over a buffer is empty and limited to the given size |
| `Output.OStream.Within` | procon-proj/Pods/nanopb/pb_encode.c:734-739 | The stream for a submessage begins at the position of its parent and is limited to the measured size |
| `Output.OStream.Absorb` | procon-proj/Pods/nanopb/pb_encode.c:746-747 | Taking over the counters of the inner stream extends the contents of the parent by those of the inner one |
| `Output.EncodeVarint` | procon-proj/Pods/nanopb/pb_encode.c:599-619 | The shift loop on a local buffer writes the minimal varint, or fails exactly when there is no room |
| `Output.EncodeSVarint` | procon-proj/Pods/nanopb/pb_encode.c:621-630 | The shift and complement write the varint of 2n or -2n-1 |
| `Output.EncodeFixed32` | procon-proj/Pods/nanopb/pb_encode.c:632-641 | Four bytes, least significant first |
| `Output.EncodeFixed64` | procon-proj/Pods/nanopb/pb_encode.c:644-657 | Eight bytes, least significant first |
| `Output.EncodeTag` | procon-proj/Pods/nanopb/pb_encode.c:660-664 | Number and wire type in one varint |
| `Output.EncodeString` | procon-proj/Pods/nanopb/pb_encode.c:700-706 | The length and the bytes; a failure leaves a prefix of them |
| `ZeroCheck.ExactlyPointerSize` | procon-proj/Pods/nanopb/pb_encode.c:307-327 | The zero check on a pointer compares as many bytes at its place as an entry of the field has. It tells NULL from every other address, whatever lies behind the pointer, if and only if an entry is as large as a pointer |
| `ZeroCheck.MisreadExactly` | procon-proj/Pods/nanopb/pb_encode.c:307-327 | For every size of an entry: in some memory the check takes a set pointer for NULL if and only if an entry is smaller than a pointer, and NULL for a set pointer if and only if it is larger; the right answer is possible for every size |
| `ZeroCheck.MisreadPointer` | procon-proj/Pods/nanopb/pb_encode.c:319-325 | A string (entries of one byte) at address 0x100 is taken for NULL |
| `ZeroCheck.AllZero` | procon-proj/Pods/nanopb/pb_encode.c:317-326 | The byte loop answers whether all of the bytes are zero |
| `Encoder.CheckPointer` | procon-proj/Pods/nanopb/pb_encode.c:307-327 | In any memory in which the bytes at the place of the pointer give the answer that the struct has on record, the byte loop finds that answer; it is whether the pointer is NULL if entries are as large as a pointer |
| `Encoder.CheckDefault` | procon-proj/Pods/nanopb/pb_encode.c:237-328 | The zero check on a field, with its early exits, decides the predicate that the round trip relies on, where a pointer is compared byte by byte; the fields that it walks over are counted |
| `Encoder.CheckSubmessage` | procon-proj/Pods/nanopb/pb_encode.c:286-305 | The iterator loop over a submessage answers whether every field is zero, and stops at the first that is not |
| `Encoder.EncodeScalar` | procon-proj/Pods/nanopb/pb_encode.c:760-901 | Each scalar encoder writes the bytes of its value; a byte array that is longer than its field is refused |
| `Encoder.EncodeSubmessage` | procon-proj/Pods/nanopb/pb_encode.c:708-756 | Measuring and writing together write the length and the body, failing exactly when the struct is not encodable or the room is short; the two passes visit the fields as `Work` counts them |
| `Encoder.WriteMeasured` | procon-proj/Pods/nanopb/pb_encode.c:731-756 | Once the room check has passed, the inner encoding cannot fail and writes exactly the measured number of bytes, so the size error behind it is unreachable |
| `Encoder.MeasurePacked` | procon-proj/Pods/nanopb/pb_encode.c:158-184 | The size of a packed array, multiplied out or measured, is exactly the number of bytes that its entries take |
| `Encoder.EncodePackedArray` | procon-proj/Pods/nanopb/pb_encode.c:155-202 | A packed array is written as tag, measured size and entries, in a counting stream as in a real one |
| `Encoder.EncodeUnpackedArray` | procon-proj/Pods/nanopb/pb_encode.c:204-231 | Entries with their tags in order, a failure leaving a prefix |
| `Encoder.EncodeArray` | procon-proj/Pods/nanopb/pb_encode.c:144-233 | An array is refused exactly when it is static and holds more entries than declared, or when an entry is not encodable; an empty one writes nothing |
| `Encoder.EncodeField` | procon-proj/Pods/nanopb/pb_encode.c:332-417 | A field is written if and only if it is present by the rule of its kind; a required NULL pointer is an error |
| `Encoder.Encode` | procon-proj/Pods/nanopb/pb_encode.c:519-541 | The loop over the iterator writes exactly the encoding, succeeds if and only if the struct is encodable and there is room, and leaves a prefix of the encoding on failure |
| `Encoder.GetEncodedSize` | procon-proj/Pods/nanopb/pb_encode.c:558-567 | The counting run gives exactly the length of the encoding, or fails exactly when the struct is not encodable |
| `Encoder.EncodeDelimited` | procon-proj/Pods/nanopb/pb_encode.c:543-546 | The length and the encoding, or a prefix of them on failure |
| `Encoder.EncodeNullTerminated` | procon-proj/Pods/nanopb/pb_encode.c:548-556 | The encoding and a zero byte, or a prefix of them on failure |
| `Encoder.EncodeToBuffer` | procon-proj/Pods/nanopb/pb_encode.c:86-121 | Encoding into n bytes succeeds if and only if the encoded size is at most n; nothing at or past what was written changes, and what a failed call wrote is a prefix of the encoding |
| `Work.RealVisits` | procon-proj/Pods/nanopb/pb_encode.c:708-756 | In one real run a field under k submessages is visited, and its zero check walks over the fields below it, k + 1 times; in a measuring run once |
| `Work.WorkBound` | procon-proj/Pods/nanopb/pb_encode.c:708-756 | A real run visits at most one plus the depth of nesting times as many fields as a measuring run, zero checks included, and a measuring run at most one plus the depth times the number of fields in the struct |
| `Work.ChecksFieldsBound` | procon-proj/Pods/nanopb/pb_encode.c:286-305 | One zero check walks over every field below it once at most |
| `Work.WeighFieldsVisits` | procon-proj/Pods/nanopb/pb_encode.c:519-541 | The weight of the fields of a message when k runs only measure it: k times the measuring visits and once the real ones |
| `Input.IStream.Read` | procon-proj/Pods/nanopb/pb_decode.c:102-138 | A read succeeds exactly when enough bytes are left, returns them and leaves the rest; the end of the stream does not move |
| `Input.IStream.ReadByte` | procon-proj/Pods/nanopb/pb_decode.c:141-157 | One byte, exactly when one is left |
| `Input.IStream.FromBuffer` | procon-proj/Pods/nanopb/pb_decode.c:159-181 | A stream over the first bytes of a buffer |
| `Input.VarintLoopValue` | procon-proj/Pods/nanopb/pb_decode.c:255-275 | From any position the loop adds the bits of the remaining bytes to what it has, modulo 2^64, and refuses an eleventh byte |
| `Input.DecodeVarint` | procon-proj/Pods/nanopb/pb_decode.c:255-275 | The loop with its bitwise or returns what the bytes spell, modulo 2^64, for any byte string |
| `Input.DecodeVarint32` | procon-proj/Pods/nanopb/pb_decode.c:187-252 | The 32-bit loop, with its 8-bit position counter and its overflow checks, on any byte string |
| `Input.DecodeTag` | procon-proj/Pods/nanopb/pb_decode.c:298-319 | A tag of zero and the end of the stream are told apart from a malformed tag |
| `Input.SkipField` | procon-proj/Pods/nanopb/pb_decode.c:278-331 | Skipping, by wire type, of any byte string; other wire types fail |
| `Input.MakeSubstream` | procon-proj/Pods/nanopb/pb_decode.c:372-385 | The substream is exactly the delimited bytes; it and what is left of the parent together end where the parent ended |
| `Input.CloseSubstream` | procon-proj/Pods/nanopb/pb_decode.c:387-400 | Whatever was read of the substream, the parent then stands exactly behind it |
| `Iteration.FieldIter.Begin` | procon-proj/Pods/nanopb/pb_common.c:8-18 | The iterator is at the first field, or reports a message without fields |
| `Iteration.FieldIter.Next` | procon-proj/Pods/nanopb/pb_common.c:20-76 | One step in the circle; the data offset, the size offset and the index of required fields stay those of the position, through arrays, pointers and unions |
| `Iteration.FieldIter.Find` | procon-proj/Pods/nanopb/pb_common.c:78-95 | From any position the search ends, finds the tag if and only if a field has it, at the first such field in the circle, and is back where it began otherwise |
| `Iteration.OffsetRecovered` | procon-proj/Pods/nanopb/pb.h:399-409 | Adding up the relative offsets that the macros compute gives back the offset of every member of the struct |
| `Iteration.SizeRecovered` | procon-proj/Pods/nanopb/pb.h:429-457 | Likewise the offset of the count, flag or which_ member, for a union through its first member |
| `Iteration.PointsAtMember` | procon-proj/Pods/nanopb/pb_common.c:20-76 | Wherever an iterator stands over the descriptor of a struct, it points at that member and at its count |
| `ScalarDecoders.DecodeVarintField` | procon-proj/Pods/nanopb/pb_decode.c:1329-1364 | The casts and the comparison accept exactly the numbers that fit the field, after a cut to 32 bits for fields of 32 bits or less |
| `ScalarDecoders.DecodeUVarintField` | procon-proj/Pods/nanopb/pb_decode.c:1366-1388 | A value is refused exactly when it does not fit the width of the field |
| `ScalarDecoders.DecodeSVarint` | procon-proj/Pods/nanopb/pb_decode.c:1269-1281 | The shift and complement undo zigzag on every 64-bit value |
| `ScalarDecoders.DecodeSVarintField` | procon-proj/Pods/nanopb/pb_decode.c:1390-1412 | A zigzag value is refused exactly when it does not fit the width of the field |
| `ScalarDecoders.CastKeepsFitting` | procon-proj/Pods/nanopb/pb_decode.c:1350-1361 | A cast to 1, 2, 4 or 8 signed bytes leaves an integer unchanged if and only if it fits |
| `ScalarDecoders.DecodeFixedField` | procon-proj/Pods/nanopb/pb_decode.c:1283-1316 | Bytes put together by shifts and bitwise or give the little-endian value |
| `ScalarDecoders.DecodeBytesField` | procon-proj/Pods/nanopb/pb_decode.c:1431-1466 | A byte array is read if it fits its field or can be allocated, in a block of exactly its length and four more; every block stays accounted for |
| `ScalarDecoders.DecodeStringField` | procon-proj/Pods/nanopb/pb_decode.c:1468-1501 | The same for strings, in a block of one more than their length, with the terminator counted in 32 bits and the value ending at the first zero byte |
| `ScalarDecoders.DecodeFixedLengthBytes` | procon-proj/Pods/nanopb/pb_decode.c:1527-1548 | The exact length, or none at all for all zeros |
| `ScalarDecoders.DecodeScalar` | procon-proj/Pods/nanopb/pb_decode.c:1318-1501 | The dispatch over all scalar types refines the specification and accounts for the block of a string |
| `PackedArrays.FillStatic` | procon-proj/Pods/nanopb/pb_decode.c:436-448 | The loop stores entries while there are bytes and room, each at an index below the declared size; it is followed by success exactly when no entry was bad and no bytes are left over |
| `PackedArrays.DecodePackedStatic` | procon-proj/Pods/nanopb/pb_decode.c:424-453 | A packed array is appended to a static array if and only if all entries are good and fit |
| `PackedArrays.NextCapacity` | procon-proj/Pods/nanopb/pb_decode.c:619-628 | The next size of the block is larger than the last and at most PB_SIZE_MAX |
| `PackedArrays.Reserve` | procon-proj/Pods/nanopb/pb_decode.c:619-635 | There is room for the next entry, in the old block or in one whose size is that of the new array in bytes, or the allocation failed and the old block stays |
| `PackedArrays.AppendNext` | procon-proj/Pods/nanopb/pb_decode.c:608-646 | One turn of the growth loop stores one entry inside the block, or fails |
| `PackedArrays.FillFrom` | procon-proj/Pods/nanopb/pb_decode.c:598-647 | The growth loop ends; the entry count stays at most the block size and that at most PB_SIZE_MAX, every entry is stored inside the current block, and the result is that of the specification unless an allocation failed |
| `PackedArrays.DecodePackedPointer` | procon-proj/Pods/nanopb/pb_decode.c:595-652 | A packed array on the heap, with its block accounted for |
| `Bitmap.Mark` | procon-proj/Pods/nanopb/pb_decode.c:1012-1017 | Setting a bit of a word adds its number to the set and no other |
| `Bitmap.Complete` | procon-proj/Pods/nanopb/pb_decode.c:1049-1070 | Comparing whole words with all ones and the last one with shifted ones finds out whether every number below the count is in the set, for every count from 0 to 64 |
| `Bitmap.LowWord` | procon-proj/Pods/nanopb/pb_decode.c:1060-1067 | A word without higher bits equals n ones if and only if its n lowest bits are set |
| `Bitmap.ShiftedOnes` | procon-proj/Pods/nanopb/pb_decode.c:1063-1064 | All ones shifted right by 32 - n is n ones |
| `Allocation.TooLarge` | procon-proj/Pods/nanopb/pb_decode.c:505-519 | A request is refused if and only if the product is 2^64 or more: leaving out the division when both factors are below half the width is sound |
| `Allocation.AllocateField` | procon-proj/Pods/nanopb/pb_decode.c:487-530 | Zero or overflowing sizes are refused without a call of the allocator; on failure the old pointer stays, on success the block is replaced by one whose size is the product of the two sizes |
| `Allocation.FreeStrings` | procon-proj/Pods/nanopb/pb_decode.c:1219-1231 | As many strings as the count says are freed, which are all that the array has |
| `Allocation.ReleaseNodes` | procon-proj/Pods/nanopb/pb_decode.c:1191-1214 | As many structs as the count says, cut to the declared size of a static array, are released, each once; the entries behind them are not looked at |
| `Allocation.ReleaseSingleField` | procon-proj/Pods/nanopb/pb_decode.c:1154-1243 | The blocks of an active field are freed, in strings, structs, arrays and the field itself, each exactly once, walking as far as the count of the struct says; its pointers are NULL and the count of an array on the heap is 0; an inactive union member is left alone |
| `Allocation.Release` | procon-proj/Pods/nanopb/pb_decode.c:1245-1259 | Every block that the struct holds is freed exactly once, no other block is touched, and no pointer of the struct is left |
| `Allocation.NotTouched` | procon-proj/Pods/nanopb/pb_decode.c:1158-1162 | The storage of a union is released for one member only: if a member is active, no earlier field has released it |
| `Allocation.AllReleased` | procon-proj/Pods/nanopb/pb_decode.c:1245-1259 | When every field has been visited, nothing is left, unions included |
| `Memory.OwnsNothing` | procon-proj/Pods/nanopb/pb_decode.c:1154-1259 | A struct of a type without pointer fields, in itself and in what it stores, holds no block, whatever its counts and which_ fields are |
| `Storage.InitializedFacts` | procon-proj/Pods/nanopb/pb_decode.c:836-919 | Initialization of any memory gives a struct in which release finds no pointer and whose counts and which_ fields are those of the initial data; the entries of static arrays stay as they were, all of them out of use |
| `StaleMemory.ZeroClean` | procon-proj/Pods/nanopb/pb_decode.c:836-919 | Memory that was set to zero has no pointers in its static arrays |
| `StaleMemory.CleanExactly` | procon-proj/Pods/nanopb/pb_decode.c:863-869 | The static arrays of a struct, and of those that it stores, hold no pointers whatever was in its memory, if and only if none of them has entries that own pointers |
| `StaleMemory.FailStale` | procon-proj/Pods/nanopb/pb_decode.c:455-464 | The calls that the decoder makes on tags and lengths that lead to such an array, with nothing behind them, in any memory: they end with the first entry counted and as it was, so release walks over what the memory held, and the result is `stale` if and only if release would find pointers there |
| `StaleMemory.StaleReleased` | procon-proj/Pods/nanopb/pb_decode.c:1197-1214 | If some static array, in the struct or in those that it stores, has entries that own pointers, there are memory and an input on which decoding fails and those calls end with any given address in a struct that release walks over |
| `UnionMemory.SameMemberTwice` | procon-proj/Pods/nanopb/pb_decode.c:1128-1137 | A table and an input with the same member of a union twice, and the two turns of the field loop on it: both occurrences are decoded, the second into a fresh struct, and if no allocation fails, a block is lost |
| `UnionMemory.UnionHoldsBlock` | procon-proj/Pods/nanopb/pb_decode.c:466-475 | If a pointer field of the struct in a union is set, its block is among those that reading the same member again overwrites |
| `UnionMemory.ReadField` | procon-proj/Pods/nanopb/pb_decode.c:466-475 | When a field is read, and no union below it has structs that own pointers, blocks are lost if and only if the field is in a union that holds the same member and the member holds a block. Whatever is below it, a block is lost if a pointer of the held member is set |
| `Agreement.AgreesReplaced` | procon-proj/Pods/nanopb/pb_decode.c:731-757 | If both halves of a field are replaced and agree on it, the halves of the struct agree |
| `Decoder.SetToDefaults` | procon-proj/Pods/nanopb/pb_decode.c:836-919 | The loop over the iterator sets presence flags, counts, which_ fields and pointers, and every scalar to the default of its descriptor, recursively in structs in place, and leaves the entries of static arrays as they were |
| `Decoder.DecodeSubmessage` | procon-proj/Pods/nanopb/pb_decode.c:1503-1525 | A struct is read from its substream. An array entry is initialized, but only after the length has been read, and released on failure; any other struct is merged into. If the length cannot be read nothing is touched, and the call is stale exactly if the struct is an array entry in which release would find pointers |
| `Decoder.DecodeStaticStruct` | procon-proj/Pods/nanopb/pb_decode.c:455-464 | One more struct in a static array: it is counted first, and after an unreadable length the count covers the entry as the memory held it; the other entries out of use stay as they were |
| `Decoder.DecodeStaticRepeated` | procon-proj/Pods/nanopb/pb_decode.c:423-465 | Static arrays: packed or one entry at a time, never past the declared size; on success the count and the entries are those of the data |
| `Decoder.DecodeUnion` | procon-proj/Pods/nanopb/pb_decode.c:466-475 | The member of a union replaces what the union held; a struct in it starts from zeroed and initialized memory; what the storage held is lost, and nothing else is if no union below has structs that own pointers |
| `Decoder.DecodePointerSingle` | procon-proj/Pods/nanopb/pb_decode.c:563-592 | A pointer field replaces its value, an old struct is released first, and on success the pointer is set and what it points to agrees with the value; all blocks stay accounted for |
| `Decoder.DecodePointerRepeated` | procon-proj/Pods/nanopb/pb_decode.c:594-669 | Arrays on the heap, packed or one entry at a time, up to PB_SIZE_MAX entries. Each entry is counted and initialized before it is decoded, and on success count, strings and structs are those of the data |
| `Decoder.ReleaseUnionField` | procon-proj/Pods/nanopb/pb_decode.c:1128-1152 | Another member that the union holds is found and released, the search never fails on a struct whose halves agree, the iterator is back at the field, and the blocks that are left in the union are those of the same member |
| `Decoder.DecodeField` | procon-proj/Pods/nanopb/pb_decode.c:731-757 | The field at the iterator is read into its storage as the specification says, no other data change, and the halves of the struct agree after a success; what a union owned that holds the same member is lost, and nothing else is if no union below has structs that own pointers |
| `Decoder.MarkSeen` | procon-proj/Pods/nanopb/pb_decode.c:1012-1017 | The bitmap keeps track of the required fields seen, up to the first 64 |
| `Decoder.CountFields` | procon-proj/Pods/nanopb/pb_decode.c:1036-1048 | Walking to the end from any position, with the fixup for the last field, gives the number of required fields |
| `Decoder.RequiredSeen` | procon-proj/Pods/nanopb/pb_decode.c:1030-1070 | The final check succeeds if and only if each of the first 64 required fields was seen |
| `Decoder.DecodeNext` | procon-proj/Pods/nanopb/pb_decode.c:943-1021 | One turn of the field loop, from any position of the iterator |
| `Decoder.DecodeNoInit` | procon-proj/Pods/nanopb/pb_decode.c:925-1073 | The whole decoder, on a struct whose halves agree: it returns the struct and the rest of the stream that the specification gives, fails exactly when that fails or an allocation of this call does, and keeps the halves in agreement on success; the stream ends where it ended, on failure no later; it terminates for every descriptor table, also with submessages that contain themselves. All blocks stay accounted for unless the call is stale, which takes entries of static arrays that hold pointers |
| `Decoder.DecodeMessage` | procon-proj/Pods/nanopb/pb_decode.c:1075-1087 | The same after initialization, into any memory; a success is right whatever the memory held. After a failure no block that the call allocated is live and all pointers of the struct are NULL, whichever allocation failed, unless the call is stale, which it never is on clean memory (zeroed memory, or any memory if no static array owns pointers). No block is lost if no type in reach of the struct has a union with structs that own pointers |
| `Decoder.DecodeDelimited` | procon-proj/Pods/nanopb/pb_decode.c:1104-1117 | The same behind a length; if the length cannot be read, the struct is returned as it was |
| `Decoder.DecodeNullTerminated` | procon-proj/Pods/nanopb/pb_decode.c:1119-1123 | The same as decoding a message, which stops at a zero tag by itself |

## Left out

- Callback fields, custom stream callbacks and I/O errors: foreign code without a contract. Streams are buffers or only count.
- Extension fields: lists of user structures with handlers of their own.
- Fixed-count repeated arrays (a repeated field without a count member), and static arrays of PB_SIZE_MAX entries.
- Oneof members that are pointers.
- The bytes of the struct and its padding: offsets are modelled for the iterator only, and encoder and decoder pass structs as values, so aliasing between structs and the data after a failed call are not captured. Addresses are modelled for the zero check only.
- How an answer of the zero check comes about: it is given with the struct. The two passes of the encoder read the same memory, so it does not change between them; the decoder sets none.
- What release does with stale pointers: `Allocation.Heap.Free` demands a live block, so a call that is `stale` ends before the release.
- A NULL entry in an array of pointers to strings or byte arrays, which the encoder writes as an empty one: the model has the empty one.
- Structs whose members hold no value of their C type (a boolean that is neither 0 nor 1, a string without an end).
- Encodings of 2^64 bytes or more, for the encoder, and of 2^32 or more, for the round trip: size counters do not wrap around in the model.
- Error messages, and what `pb_decode_delimited_noinit` adds to `pb_decode_noinit`: nothing but the substream.
- The build with 16-bit or 8-bit field sizes, with packed structs, or for AVR.
- The rest of the app: views, Firebase, BoringSSL tables, image processing and training scripts.
- StaleMemory.FailStale: makes the calls of the field loop on that input (tag, search, substream, entry) one by one, because the contract of `Decoder.DecodeMessage` does not say which field failed.
- UnionMemory.SameMemberTwice: likewise makes the two turns of the field loop and not one call of `Decoder.DecodeMessage`, whose contract counts lost blocks only for types without such unions.
