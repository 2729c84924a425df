# tpt-proto in Dafny

A model of the parts of the tpt-proto workspace that carry the most logic, with proofs of what they promise:

- the protobuf wire runtime (`tpt-proto-core`): varints, tags, the limited `Reader`, group skipping, unknown fields,
  packed fields and map entries;
- the recursive descriptor codec (`tpt-proto-descriptor`): `encode` and `merge_from` of thirteen message types;
- the multi-file compiler (`tpt-proto-compiler`): import cycles, visibility through public imports, loading,
  symbol tables, type references and map entries;
- the gRPC deframer, response body and header times (`tpt-proto-grpc`), and the JSON text of durations
  (`tpt-proto-json`);
- the schema evolution checker (`tpt-proto-lint`) and the lexer (`tpt-proto-language`).

Wire formats follow the Protocol Buffers encoding guide ("Base 128 Varints", "Message Structure", "Last One Wins",
"Groups") and the rule Length-Prefixed-Message of "gRPC over HTTP2".

## How it is laid out

Objects that the program updates in place are classes (`Reader`, `Writer`, `UnknownFieldSet`, `CycleDetector`,
`Loader`, `Collector`, `Resolver`, `Report`, `DeframeStream`, `GrpcResponseBody`, `Lexer`); loops are methods with
invariants. Each such method is proved against a function on values, and the theorems are about those functions:

| modules | content |
|---|---|
| `Varint`, `WireTag`, `Scalars`, `Utf8`, `Utf8Characters` | primitive encodings |
| `ReaderSpec`, `Reader`, `Writer`, `WireRoundTrip` | cursor semantics of every read; the reader and writer objects |
| `WireGrammar` | the grammar of one wire value, and `skip` as its recogniser |
| `UnknownFields`, `UnknownFieldSet`, `Passthrough` | stored fields, the cached size, re-emission |
| `Descriptor`, `DescriptorLayout`, `DescriptorCodec`, `DescriptorTheorems`, `DescriptorMethods` | the descriptor codec |
| `DescriptorFields`, `DescriptorBytes` | any single field in front of the decoder, known or unknown; the bytes of every type, tag by tag |
| `Packed`, `MapEntry` | packed fields and map entries |
| `WrapAround` | the 64-bit sum of a position and a length, in builds with and without overflow checks |
| `ImportGraph`, `ImportCycles`, `ImportVisibility`, `ImportSearch`, `ImportLoader` | the three searches over the import graph; `ImportSearch` says exactly what the memoised one finds |
| `TypeNames`, `SymbolTable`, `References`, `ReferenceErrors`, `CompiledNames`, `CompiledSet` | names, symbols, references; the resolving pass over a whole set |
| `GrpcFrame`, `Deframer`, `GrpcStreams` | framing and the two polling loops |
| `LintFindings`, `LintMethods`, `LintReport`, `LintTheorems`, `LintEvolution`, `LintReservation` | schema evolution; `LintReport` says over the schemas alone which findings a report holds |
| `Decimal`, `Timeout`, `JsonDuration` | decimal time texts |
| `LexerSpec`, `LexerTheorems`, `Lexer` | the lexer |
| `LexerLiterals`, `LexerGrammar`, `LexerTrivia`, `LexerLanguage`, `LexerSpelling`, `LexerBytes` | the lexical grammar, and that the lexer recognises it; `LexerBytes` writes out its bytes |

A `Cursor` is what a reader can still see: its position, the bytes left, its depth, its counters and its limits.
An `Out` is a value with the cursor behind it, or an error with the cursor where it was found.

## Where the code differs from what is said about it

- `varint.rs:28`: the comment speaks of the tenth byte, the test looks at the eleventh. Ten-byte varints with a large
  last byte are accepted and truncated; `Varint.DecodeMeaning` and `Varint.DecodeFailure` state what is accepted.
- `wire_type.rs:71`: a field number above 2^29-1 is truncated when a tag is written. `WireTag.TagRoundTrip`,
  `WireTag.TagTruncated` and `Passthrough.PassthroughExact` give the exact condition and its consequence.
- `reader.rs:83` adds a position and a length in `usize`, and the release profile (`Cargo.toml:64`) does not turn
  overflow checks on. The reader functions here describe a build with checks, which traps (`Error.Overflow`). Without
  a length limit the other build moves backwards: ten bytes step it back by one (`WrapAround.LongestWraps`), and one
  tag with a length loops `merge_from` for ever (`WrapAround.TreadmillLoops`). While the longest accepted length and
  the size of the buffer stay below 2^64, as under any ordinary limit, nothing traps and both builds are the same
  (`WrapAround.BuildsAgree`, `WrapAround.TrapsIff`), so the theorems about reading hold for both.
- `reader.rs:231`: a group may be closed by an end tag of any number; the grammar in `WireGrammar` says so.
- `framed.rs:24-25` says that a frame that cannot be decoded ends the stream. It does not: the next poll goes on
  behind the frame (`GrpcStreams.FrameThenRest`). The errors that do stop it repeat for ever
  (`Deframer.RepeatsForever`).
- `client.rs:346-361` marks the trailers as checked before it polls them. A status that is not there at the first
  poll is lost and the call looks successful (`GrpcStreams.LateStatusIsLost`); `GrpcStreams.ResponseItems` states
  exactly when it is reported.
- `pipeline.rs:295-307`: on some cycles of public imports the memo keeps what was known while the cycle was still
  being followed, so the answer depends on the order of the files (`ImportVisibility.PublicCycleDependsOnOrder` has
  five files in two orders). Only entries left by earlier searches lose files: a search from an empty memo is exact on
  every graph (`ImportSearch.FreshSearchExact`), and any other one exactly when the entries it stops at lose nothing
  between them (`ImportSearch.SearchExactIff`). `ImportSearch.VisibilityExactIff` says so for each file of a whole list.
- `pipeline.rs:429-430`: a field's type is looked up in the scope around its message.
  `TypeNames.ParentScopeDiffers` states exactly when the message's own scope would have given another answer.
- `pipeline.rs:403-435`: extension fields, of messages and of files, are never resolved. An unknown type in one is not
  reported and its name stays as written (`References.ExtensionsIgnored`).
- `lint/lib.rs:208-216` and `280-296`: a step without Breaking findings may be gone back on by later steps without any.
  A removed field may be reserved by name only, and its number used again (`LintReservation.NameOnlyReservation`); a
  JSON name may be dropped, with a warning, and then another one given (`LintReservation.LostKey`).
  `LintReservation.FileChainsIffLasting` shows that these two are all there is among schemas that leave their reserved
  numbers unused.
- `compiler/lib.rs:5` says that conflicts with reserved numbers are validated; nothing does. For schemas that use the
  numbers they reserve not even a reservation by number lasts (`LintReservation.ReservedNumberUsed`);
  `FileChainsIffLasting` says what does: nothing may be removed.
- `lexer.rs:386` pushes the bytes of a string literal one by one as characters, so a character of several UTF-8 bytes
  becomes several characters (`LexerLiterals.RawString`); the escapes do not have this limit.
- `types.rs:493-494` reads the path and the span of a location as single varints. A packed list, the form
  descriptor.proto declares for both, has another wire type and is skipped like an unknown field
  (`DescriptorFields.UnknownBetween`).
- `well_known.rs:217-240`: a duration is accepted with a second sign in front of its seconds or of its fraction, and
  with anything behind the ninth character of the fraction; `JsonDuration.DurationReads` gives its value and
  `JsonDuration.DurationParses` shows that nothing else is accepted.
- `timeout.rs:15`: splitting before the last byte panics when the text ends in a multi-byte character; the model has
  an outcome for it.

## Model

| member | source | states |
|---|---|---|
| Varint.EncodeVarint | crates/tpt-proto-core/src/varint.rs:11-20 | the loop appends the canonical encoding and leaves what was there |
| Varint.DecodeVarint | crates/tpt-proto-core/src/varint.rs:22-45 | the loop computes the decoding of the bytes from the start offset, errors included |
| Varint.DecodeMeaning | crates/tpt-proto-core/src/varint.rs:22-45 | a string decodes to a value and length if and only if that prefix has at most ten bytes, ends at its first byte below 128, and its base-128 sum mod 2^64 is the value |
| Varint.DecodeFailure | crates/tpt-proto-core/src/varint.rs:22-45 | decoding fails if and only if no terminator is among the first ten bytes; the length decides between the two errors |
| Varint.RoundTrip | crates/tpt-proto-core/src/varint.rs:11-45 | every 64-bit value followed by any bytes decodes to itself and its encoded length |
| Varint.EncodeShortest | crates/tpt-proto-core/src/varint.rs:11-45 | no string that decodes to a value is shorter than its encoding |
| Varint.EncodeMonotone | crates/tpt-proto-core/src/varint.rs:11-20 | larger values never have shorter encodings |
| Varint.DecodeStable | crates/tpt-proto-core/src/varint.rs:22-45 | an accepted varint decodes the same whatever follows |
| Varint.VarintLen | crates/tpt-proto-core/src/unknown.rs:136-143 | the counting loop gives the length of the encoding |
| WireTag.AppendTag | crates/tpt-proto-core/src/wire_type.rs:69-74 | the bytes appended are the varint of number and wire type in 32 bits |
| WireTag.TagRoundTrip | crates/tpt-proto-core/src/wire_type.rs:57-87 | a tag reads back as itself if and only if its number is from 1 to 2^29-1 |
| WireTag.TagTruncated | crates/tpt-proto-core/src/wire_type.rs:69-87 | above that it is read as the number mod 2^29, or refused when that is zero |
| WireTag.TagShortest | crates/tpt-proto-core/src/wire_type.rs:69-87 | no accepted tag text is shorter than the tag this runtime writes |
| WireTag.TagStable | crates/tpt-proto-core/src/wire_type.rs:77-87 | an accepted tag does not depend on the bytes behind it |
| WireTag.TagCodes | crates/tpt-proto-core/src/wire_type.rs:24-87 | the low three bits of a tag are 0 varint, 1 fixed64, 2 length-delimited, 3 start group, 4 end group, 5 fixed32, the field number stands above them, and 6, 7 and the number 0 are refused; tags are written the same way |
| Reader.Reader.Advance | crates/tpt-proto-core/src/reader.rs:82-91 | position and byte count move together; the byte budget is checked after the move; a sum of 64 bits or more traps, `WrapAround.BuildsAgree` says what a build without checks does instead |
| Reader.Reader.ReadVarint | crates/tpt-proto-core/src/reader.rs:93-99 | follows the cursor semantics of a varint |
| Reader.Reader.ReadTag | crates/tpt-proto-core/src/reader.rs:116-123 | follows the cursor semantics of a tag, counting it against the field budget |
| Reader.Reader.ReadLengthDelimited | crates/tpt-proto-core/src/reader.rs:125-135 | follows the cursor semantics of a length prefix and its body, with both length checks |
| Reader.Reader.ReadFixed32 | crates/tpt-proto-core/src/reader.rs:137-145 | follows the cursor semantics of four little-endian bytes |
| Reader.Reader.ReadFixed64 | crates/tpt-proto-core/src/reader.rs:147-155 | follows the cursor semantics of eight little-endian bytes |
| WireBasics.FourBytes | crates/tpt-proto-core/src/reader.rs:137-145 | four bytes are a number of which the lowest byte comes first, read and written |
| WireBasics.EightBytes | crates/tpt-proto-core/src/reader.rs:147-155 | eight bytes are the four low ones and then the four high ones |
| Reader.Reader.ReadString | crates/tpt-proto-core/src/reader.rs:157-164 | a string is accepted exactly when it is well-formed UTF-8 within the string limit |
| Utf8Characters.Utf8Language | crates/tpt-proto-core/src/reader.rs:157-164 | a string is accepted as text if and only if it is the UTF-8 form of some list of Unicode scalar values |
| Utf8Characters.ValidUpToMeaning | crates/tpt-proto-core/src/reader.rs:157-179 | the offset in the error is the length of the longest prefix that is |
| Reader.Reader.Nested | crates/tpt-proto-core/src/reader.rs:181-194 | one level deeper with fresh counters, or the depth error |
| Reader.Reader.Skip | crates/tpt-proto-core/src/reader.rs:197-202 | follows the cursor semantics of skipping from the reader's own depth |
| Reader.Reader.SkipInner | crates/tpt-proto-core/src/reader.rs:204-242 | the recursion into groups terminates and follows the cursor semantics of skipping, overflow trapping as above |
| WireGrammar.SkipOver | crates/tpt-proto-core/src/reader.rs:197-242 | at depth d a well-formed value of nesting g is skipped exactly when d+g is within the limit and lengths, bytes and tags are within budget |
| WireGrammar.SkipParses | crates/tpt-proto-core/src/reader.rs:204-242 | whatever was skipped was one well-formed value of that wire type; of any build while nothing traps, which `WrapAround.TrapsIff` decides |
| WireGrammar.SkipLanguage | crates/tpt-proto-core/src/reader.rs:197-242 | skip accepts exactly the strings that begin with a well-formed value that fits the limits, and stops right behind it; of any build while nothing traps |
| WireGrammar.SkipAgreesWithRead | crates/tpt-proto-core/src/reader.rs:93-242 | skipping a value ends where reading it ends |
| WireGrammar.Refusals | crates/tpt-proto-core/src/reader.rs:125-242 | which error a stray end tag, a group too deep or not closed, and a value cut off or over its limit end with |
| ReaderSpec.SkipInnerElsewhere | crates/tpt-proto-core/src/reader.rs:204-242 | a successful skip succeeds the same way in any buffer with the same bytes in front, budgets permitting |
| ReaderSpec.ReadTagElsewhere | crates/tpt-proto-core/src/reader.rs:116-123 | the same for reading a tag |
| ReaderSpec.ReadLengthDelimitedElsewhere | crates/tpt-proto-core/src/reader.rs:125-135 | the same for a length-delimited body |
| ReaderSpec.ReadStringElsewhere | crates/tpt-proto-core/src/reader.rs:157-164 | the same for a string |
| Writer.Writer.WriteTag | crates/tpt-proto-core/src/writer.rs:53-58 | appends the encoding of the tag |
| Writer.Writer.WriteLengthDelimited | crates/tpt-proto-core/src/writer.rs:65-69 | appends the length prefix and the body |
| Writer.Writer.WriteFixed64 | crates/tpt-proto-core/src/writer.rs:76-79 | appends eight little-endian bytes |
| WireRoundTrip.ReadFramed | crates/tpt-proto-core/src/reader.rs:125-135 | a written body is read back exactly when it fits the length and byte limits |
| WireRoundTrip.ReadTagEncoded | crates/tpt-proto-core/src/reader.rs:116-123 | a written tag is read back exactly when the byte and field budgets allow |
| Scalars.EncodeScalar | crates/tpt-proto-core/src/scalar.rs:8-32 | a tag and the varint of the value, sign-extended or zigzagged |
| Scalars.ReadScalar | crates/tpt-proto-core/src/scalar.rs:97-131 | a varint, truncated, sign-extended or unzigzagged to the type |
| Scalars.ScalarRoundTrip | crates/tpt-proto-core/src/scalar.rs:8-131 | every value of every varint-coded type is read back |
| Scalars.ReadMeaning | crates/tpt-proto-core/src/scalar.rs:93-126 | whatever 64 bits a varint holds: an integer type reads the number of that type congruent to them, a boolean whether they are 0, a zigzag type the number they count |
| Scalars.WriteMeaning | crates/tpt-proto-core/src/scalar.rs:8-34 | the 64 bits a value is written as |
| Scalars.TypeChange | crates/tpt-proto-core/src/scalar.rs:18-21 | among the plain integer types a value written as one is read as another unchanged if and only if that type has it |
| Scalars.ZigzagSmall | crates/tpt-proto-core/src/varint.rs:47-69 | a zigzag value takes at most n bytes if and only if it is within 128^n / 2 of zero |
| Scalars.NegativeTakesTen | crates/tpt-proto-core/src/scalar.rs:18-19 | the plain signed types write every negative value in ten bytes |
| UnknownFieldSet.TagLen | crates/tpt-proto-core/src/unknown.rs:117-125 | the tag size computed for a varint is right for every wire type |
| UnknownFieldSet.ValueLen | crates/tpt-proto-core/src/unknown.rs:127-134 | the size computed is that of the bytes written |
| UnknownFieldSet.UnknownFieldSet.EncodedLen | crates/tpt-proto-core/src/unknown.rs:58-60 | in every reachable state the cached size is the number of bytes `encode` writes |
| UnknownFieldSet.UnknownFieldSet.Insert | crates/tpt-proto-core/src/unknown.rs:63-67 | appends to the list of the field and keeps the cached size exact |
| UnknownFieldSet.UnknownFieldSet.Store | crates/tpt-proto-core/src/unknown.rs:69-88 | stores the value read, even when the size limit is then exceeded; succeeds exactly when the size is within the limit |
| UnknownFieldSet.UnknownFieldSet.Encode | crates/tpt-proto-core/src/unknown.rs:90-97 | writes the fields by ascending number, values in arrival order |
| UnknownFieldSet.UnknownFieldSet.MergeFrom | crates/tpt-proto-core/src/unknown.rs:106-114 | field by field the other set's values are appended, the cached size staying exact |
| UnknownFieldSet.StoreAll | fuzz/src/lib.rs:89-104 | however the read-and-store loop ends, the set holds the records stored until then, grouped by field number, the one over the limit included; without an error they are all the records of the input and within the limit |
| UnknownFields.EmittedIsStableSort | crates/tpt-proto-core/src/unknown.rs:62-97 | what is emitted is the stable sort by field number of what was stored |
| UnknownFields.RegroupEmitted | crates/tpt-proto-core/src/unknown.rs:62-97 | storing what was emitted gives the same set |
| UnknownFields.GroupedConcat | crates/tpt-proto-core/src/unknown.rs:106-114 | storing one list after another is merging the second set into the first |
| Passthrough.PassthroughKeepsSet | crates/tpt-proto-core/src/unknown.rs:62-97 | for every accepted input with numbers below 2^29 the emission is no longer than the input, is accepted under the same limits, gives the same set, and emits itself again |
| Passthrough.PassthroughExact | crates/tpt-proto-core/src/unknown.rs:62-97 | a stored set survives re-emission if and only if every field number is below 2^29 |
| Passthrough.CollectNoLarger | crates/tpt-proto-core/src/unknown.rs:69-88 | re-encoding what was read from some bytes never takes more bytes |
| Passthrough.StoppedPassthrough | fuzz/src/lib.rs:89-107 | whatever the input, also one that is not read to its end: what was stored is re-emitted in no more bytes than the input had, and reads back to the same set if and only if all field numbers fit 29 bits and the stored bytes are within the unknown-field limit |
| UnknownFields.StoredIsCollected | fuzz/src/lib.rs:89-104 | for an accepted input the records stored are all its records |
| Passthrough.RecordRead | crates/tpt-proto-core/src/unknown.rs:69-88 | any field that is not a group is stored under its number with the value its bytes spell, if and only if it fits the limits |
| Passthrough.GroupRefused | crates/tpt-proto-core/src/unknown.rs:69-88 | groups and end tags are refused |
| Passthrough.ConcatIsMerge | crates/tpt-proto-core/src/unknown.rs:106-114 | parsing two emissions one behind the other equals merging the second set into the first, the combined limits permitting |
| DescriptorLayout.StoresItems | crates/tpt-proto-descriptor/src/types.rs:357-891 | storing the fields that `encode` writes for b into a gives a merged with b: singular fields last wins, lists append |
| DescriptorLayout.MergedIntoDefault | crates/tpt-proto-descriptor/src/types.rs:357-891 | merging into the default message gives the message |
| DescriptorTheorems.DecodeEncode | crates/tpt-proto-descriptor/src/types.rs:511-812 | for every message of every type decoding its encoding gives exactly that message if it fits the limits, and fails otherwise |
| DescriptorTheorems.MergeEncoded | crates/tpt-proto-descriptor/src/types.rs:357-900 | reading the encoding of b into a gives their merge, exactly when b fits the limits |
| DescriptorTheorems.TooDeepFails | crates/tpt-proto-core/src/reader.rs:181-194 | a tree with more levels than `max_depth` allows is never decoded |
| DescriptorTheorems.MergeConcat | crates/tpt-proto-descriptor/src/types.rs:560-720 | merging a followed by b is merging a and then b, accepted exactly when both are and the joint byte and tag budgets hold |
| DescriptorTheorems.MergeElsewhere | crates/tpt-proto-descriptor/src/types.rs:560-615 | an accepted merge goes on with whatever bytes follow |
| DescriptorTheorems.MergeShift | crates/tpt-proto-descriptor/src/types.rs:560-615 | starting from other counters changes the counters only |
| DescriptorFields.UnknownIsSkipped | crates/tpt-proto-descriptor/src/types.rs:560-615 | after the tag of a field that the type does not know, or that has another wire type than its own, the value is skipped with the errors of skipping and the message is as before; the known fields of each of the thirteen types are listed |
| DescriptorFields.UnknownInFront | crates/tpt-proto-descriptor/src/types.rs:560-615 | an unknown field of any well-formed value, groups included, is read over if and only if it fits the limits, and the merge goes on behind it into the same message, at any depth |
| DescriptorFields.UnknownBetween | crates/tpt-proto-descriptor/src/types.rs:399-451 | an unknown field in front of, between or behind accepted fields: the whole is accepted exactly when the rest is and there is room for it, and decodes to the same message |
| DescriptorFields.IntField | crates/tpt-proto-descriptor/src/types.rs:691-720 | an integer field takes the low 32 bits of any varint, signed |
| DescriptorFields.BoolField | crates/tpt-proto-descriptor/src/types.rs:847-878 | a boolean field takes any varint that is not 0 as true |
| DescriptorFields.TextField | crates/tpt-proto-descriptor/src/types.rs:691-720 | a text field: the limits and the UTF-8 test in order, and otherwise the text |
| DescriptorFields.OptionsField | crates/tpt-proto-descriptor/src/types.rs:436-438 | options are kept as their bytes |
| DescriptorFields.MessageField | crates/tpt-proto-descriptor/src/types.rs:412-444 | a nested message is decoded by itself one level deeper, the files of a set with the default limits at the top |
| DescriptorFields.EnumeratedFields | crates/tpt-proto-descriptor/src/types.rs:698-703 | labels and field types by their numbers; any other number clears the field |
| DescriptorBytes.SetBytes | crates/tpt-proto-descriptor/src/types.rs:880-889 | the bytes of a set of files, tag by tag and in order |
| DescriptorBytes.FileBytes | crates/tpt-proto-descriptor/src/types.rs:357-398 | the bytes of a file, tag by tag and in order |
| DescriptorBytes.SourceBytes | crates/tpt-proto-descriptor/src/types.rs:453-462 | the bytes of source information, tag by tag and in order |
| DescriptorBytes.LocationBytes | crates/tpt-proto-descriptor/src/types.rs:480-488 | the bytes of a location, tag by tag and in order |
| DescriptorBytes.MessageBytes | crates/tpt-proto-descriptor/src/types.rs:511-559 | the bytes of a message, tag by tag and in order |
| DescriptorBytes.FieldBytes | crates/tpt-proto-descriptor/src/types.rs:672-690 | the bytes of a field, tag by tag and in order |
| DescriptorBytes.EnumBytes | crates/tpt-proto-descriptor/src/types.rs:723-741 | the bytes of an enum, tag by tag and in order |
| DescriptorBytes.EnumValueBytes | crates/tpt-proto-descriptor/src/types.rs:770-776 | the bytes of an enum value, tag by tag and in order |
| DescriptorBytes.OneofBytes | crates/tpt-proto-descriptor/src/types.rs:793-798 | the bytes of a oneof, tag by tag and in order |
| DescriptorBytes.ReservedBytes | crates/tpt-proto-descriptor/src/types.rs:618-631 | the bytes of a reserved range, tag by tag and in order |
| DescriptorBytes.ExtensionRangeBytes | crates/tpt-proto-descriptor/src/types.rs:645-658 | the bytes of an extension range, tag by tag and in order |
| DescriptorBytes.ServiceBytes | crates/tpt-proto-descriptor/src/types.rs:814-825 | the bytes of a service, tag by tag and in order |
| DescriptorBytes.MethodBytes | crates/tpt-proto-descriptor/src/types.rs:847-856 | the bytes of a method, tag by tag and in order |
| DescriptorBytes.ValueBytes | crates/tpt-proto-core/src/scalar.rs:8-90 | what stands behind a tag: a length and text, bytes or a message, or the varint of a number |
| DescriptorMethods.Encode | crates/tpt-proto-descriptor/src/types.rs:357-888 | each type appends its fields in its own order, nested messages framed by their length |
| DescriptorMethods.EncodeDescriptor | crates/tpt-proto-descriptor/src/types.rs:512-558 | a descriptor with everything nested in it |
| DescriptorMethods.MergeFrom | crates/tpt-proto-descriptor/src/types.rs:560-615 | the loop with nested readers follows the merge semantics, the fresh reader of each file in a set included |
| DescriptorMethods.DecodeMessage | crates/tpt-proto-core/src/message.rs:42-72 | decoding starts from the default; the trailing-bytes test never fires |
| DescriptorMethods.EncodeToVec | crates/tpt-proto-core/src/message.rs:56-61 | the whole encoding in a new buffer |
| Packed.EncodePacked | crates/tpt-proto-core/src/packed.rs:8-36 | a tag and the framed elements, of any scalar type or fixed width |
| Packed.ReadPackedField | crates/tpt-proto-core/src/packed.rs:41-86 | reads elements of any scalar type with a nested reader until it is empty |
| Packed.PackedRoundTrip | crates/tpt-proto-core/src/packed.rs:8-86 | any list of values of any varint-coded or fixed-width type survives packing if and only if its body fits the length, byte and depth limits |
| MapEntry.ReadRawValueFrom | crates/tpt-proto-core/src/packed.rs:143-178 | the bytes of a value as written, the position set but the byte count lagging for bodies |
| MapEntry.DecodeMapEntryFrames | crates/tpt-proto-core/src/packed.rs:116-141 | the frames kept are those of the last field 1 and the last field 2 |
| MapEntry.DecodedEntry | crates/tpt-proto-core/src/packed.rs:116-178 | an accepted entry is a list of well-formed non-group fields in any order; key and value are the bytes behind the tag of the last field 1 and the last field 2, the value empty when absent |
| MapEntry.EntryAccepted | crates/tpt-proto-core/src/packed.rs:116-178 | the other half: a body of any non-group fields in any order is accepted if and only if it fits the length, byte, depth and field limits and has a field 1, and gives the last field 1 and the last field 2 |
| MapEntry.MapEntryRoundTrip | crates/tpt-proto-core/src/packed.rs:88-178 | a key and a value of any wire type written by `encode_map_entry` are returned as written if and only if the limits allow |
| MapEntry.ReturnedFramesReread | crates/tpt-proto-core/src/packed.rs:116-178 | whatever entry decodes, the key and a present value are each read completely, and to their own value, in a fresh reader under the same limits |
| MapEntry.LastFramesMeaning | crates/tpt-proto-core/src/packed.rs:116-141 | keeping the latest frame of each field keeps the last one |
| MapEntry.EncodeMapEntry | crates/tpt-proto-core/src/packed.rs:88-102 | a tag and the framed pair |
| WrapAround.BuildsAgree | crates/tpt-proto-core/src/reader.rs:82-91 | the two builds move alike if and only if the sum of position and length is below 2^64; otherwise one traps and the other moves strictly backwards |
| WrapAround.LongestWraps | crates/tpt-proto-core/src/reader.rs:204-215 | nine bytes FF and one 01, with no length limit: skipped with the position one before the end of the length, or a trap |
| WrapAround.TreadmillLoops | crates/tpt-proto-descriptor/src/types.rs:560-615 | one tag and a length that leads back to it: without checks `merge_from` meets the same field again for ever, with them it traps; for every message type |
| WrapAround.SkipInnerNeverTraps | crates/tpt-proto-core/src/reader.rs:204-242 | no skip traps in a buffer that together with the longest accepted length stays below 2^64 |
| WrapAround.MergeNeverTraps | crates/tpt-proto-descriptor/src/types.rs:560-615 | nor does any merge, nested readers included |
| WrapAround.DecodeNeverTraps | crates/tpt-proto-core/src/message.rs:42-72 | nor any decode of a message |
| WrapAround.PackedNeverTraps | crates/tpt-proto-core/src/packed.rs:41-86 | nor reading a packed field |
| WrapAround.MapEntryNeverTraps | crates/tpt-proto-core/src/packed.rs:116-178 | nor decoding a map entry |
| WrapAround.TrapsIff | crates/tpt-proto-core/src/limits.rs:38-50 | in buffers of a given size, from ten bytes on, no skip ever traps if and only if the longest accepted length and the size stay below 2^64; without a length limit that is never so |
| ImportCycles.CycleDetector.Visit | crates/tpt-proto-compiler/src/pipeline.rs:199-231 | terminates on every graph; while nothing is reported the finished files only import files finished before |
| ImportCycles.CycleDetector.Detect | crates/tpt-proto-compiler/src/pipeline.rs:185-197 | something is reported if and only if the imports between known files form a cycle, and every file reported lies on one |
| ImportGraph.BackwardAcyclic | crates/tpt-proto-compiler/src/pipeline.rs:185-231 | an order in which every import points backwards rules out cycles |
| ImportVisibility.ReportMissing | crates/tpt-proto-compiler/src/pipeline.rs:239-261 | reported are exactly the imports that name no file and are not weak |
| ImportVisibility.ReexportedOf | crates/tpt-proto-compiler/src/pipeline.rs:286-309 | the memoised search as it runs, with the memo it leaves |
| ImportVisibility.PublicEdges | crates/tpt-proto-compiler/src/pipeline.rs:286-309 | one known file re-exports another exactly when it has a public import of that name |
| ImportVisibility.ReexportedMeaning | crates/tpt-proto-compiler/src/pipeline.rs:286-309 | under any memo built by earlier searches the result is never more than what public imports reach, and all of it when no public cycle can be reached |
| ImportSearch.SearchFinds | crates/tpt-proto-compiler/src/pipeline.rs:286-309 | on any graph and under any memo a new search finds exactly what is reachable through files not in the memo, and what the memo holds where these paths stop |
| ImportSearch.FreshSearchExact | crates/tpt-proto-compiler/src/pipeline.rs:286-309 | from an empty memo the answer is exactly what public imports reach, on every graph, cycles included |
| ImportSearch.SearchExactIff | crates/tpt-proto-compiler/src/pipeline.rs:286-309 | under a memo that is nowhere wrong by excess the answer is exact if and only if the entries where the search stops lose nothing between them |
| ImportSearch.MemoIsSound | crates/tpt-proto-compiler/src/pipeline.rs:263-309 | at every question `compute_visibility` asks, the memo is such a one |
| ImportSearch.VisibilityFinds | crates/tpt-proto-compiler/src/pipeline.rs:263-309 | in any order and on any graph a file sees exactly what asking for its imports gives when their turn comes |
| ImportSearch.VisibilityExactIff | crates/tpt-proto-compiler/src/pipeline.rs:263-309 | it sees exactly its imports and what they publicly reach if and only if everything behind one of them is given by asking for one of them |
| ImportVisibility.ComputeVisibility | crates/tpt-proto-compiler/src/pipeline.rs:263-284 | every file sees only its known imports and what they re-export, and all of that for imports from which no public cycle can be reached |
| ImportVisibility.VisibilityExact | crates/tpt-proto-compiler/src/pipeline.rs:263-309 | without public cycles the files a file sees are exactly its direct imports and everything publicly reachable from them, whatever the order of the files |
| ImportVisibility.PublicCycleDependsOnOrder | crates/tpt-proto-compiler/src/pipeline.rs:263-309 | `compute_visibility` on the same five files in two orders, with a cycle of three public imports: one file sees two files or three |
| ImportLoader.Loader.Visit | crates/tpt-proto-compiler/src/lib.rs:577-603 | loads a file after its imports, once, or finds a path that names no file |
| ImportLoader.Loader.ResolveAndParse | crates/tpt-proto-compiler/src/lib.rs:570-609 | succeeds if and only if the entry and everything behind it can be found, and otherwise names one of them that cannot; returns exactly those files, each once, the entry last, an import after its importer only if it leads back to it |
| ImportLoader.LoadedInOrder | crates/tpt-proto-compiler/src/lib.rs:570-609 | with no import cycle the files are in dependency order |
| ImportLoader.CycleBreaksOrder | crates/tpt-proto-compiler/src/lib.rs:570-609 | with a cycle among the loaded files no order of them is one |
| TypeNames.ScopeOfMessage | crates/tpt-proto-compiler/src/pipeline.rs:387-397 | inside a message the scope has exactly one component more, the name of the message |
| TypeNames.QualifyInjective | crates/tpt-proto-compiler/src/pipeline.rs:387-397 | names without a dot get the same qualified name if and only if they are the same name in the same scope, a leading dot of the scope aside |
| TypeNames.JoinSplit | crates/tpt-proto-compiler/src/pipeline.rs:522-533 | joining the components of a scope gives the scope |
| TypeNames.ResolveTypeName | crates/tpt-proto-compiler/src/pipeline.rs:512-539 | the loop over scopes computes the search from the inside out |
| TypeNames.ResolveMeaning | crates/tpt-proto-compiler/src/pipeline.rs:512-539 | the result is a name if and only if it is the visible candidate with the most scope components |
| TypeNames.CandidateIsQualified | crates/tpt-proto-compiler/src/pipeline.rs:522-533 | the innermost candidate is the name qualified by the whole scope, the outermost the bare name |
| TypeNames.ParentScopeDiffers | crates/tpt-proto-compiler/src/pipeline.rs:419-435 | the message's own scope gives another answer than the scope around it exactly when it has a visible type of that name |
| TypeNames.QualifySpelled | crates/tpt-proto-compiler/src/pipeline.rs:387-397 | a qualified name is a full stop, the names of the package and the name, with full stops between |
| TypeNames.ResolveSpelled | crates/tpt-proto-compiler/src/pipeline.rs:512-539 | the name found is the visible one behind the most names of the scope; a name that starts with a full stop is itself or nothing |
| SymbolTable.Collector.InsertSymbol | crates/tpt-proto-compiler/src/pipeline.rs:354-385 | the first file keeps a symbol; a second one of another name is reported and still lists it |
| SymbolTable.Collector.CollectMessage | crates/tpt-proto-compiler/src/pipeline.rs:333-352 | inserts the message, everything nested in it and its enums under their qualified names |
| SymbolTable.Collector.CollectSymbols | crates/tpt-proto-compiler/src/pipeline.rs:153-159 | the table of all files of the set |
| SymbolTable.DuplicatesDecide | crates/tpt-proto-compiler/src/pipeline.rs:315-385 | duplicates are reported if and only if two files of different names define the same symbol |
| SymbolTable.DuplicatesExactly | crates/tpt-proto-compiler/src/pipeline.rs:354-385 | reported is each file that defines a symbol of which another file was the first to define it, with that file as the owner, and nothing else |
| SymbolTable.FirstOwner | crates/tpt-proto-compiler/src/pipeline.rs:354-385 | the owner of a symbol is the first file that defines it |
| SymbolTable.DeclaredIsSymbol | crates/tpt-proto-compiler/src/pipeline.rs:315-352 | every chain of nested names that ends at a message or an enum has its full name among the symbols |
| SymbolTable.SymbolIsDeclared | crates/tpt-proto-compiler/src/pipeline.rs:315-352 | and every symbol is the full name of such a chain |
| SymbolTable.OwnersAreDefiners | crates/tpt-proto-compiler/src/pipeline.rs:354-385 | the owner of a symbol is a file that defines it |
| SymbolTable.DefinedIsOwned | crates/tpt-proto-compiler/src/pipeline.rs:315-385 | every symbol a file defines has an owner and is listed for that file |
| References.Resolver.ResolveMessage | crates/tpt-proto-compiler/src/pipeline.rs:419-435 | rewrites the references of a message in the scope around it and of nested messages in its own, reporting the unknown ones in order |
| ReferenceErrors.FieldSettledOrReported | crates/tpt-proto-compiler/src/pipeline.rs:403-471 | every field at every depth: one whose type is a message, an enum or a group and that has a type name is reported and stays if the name does not resolve in the scope around its message, and otherwise gets the absolute name of something visible; every other field stays as it is |
| ReferenceErrors.MethodSettledOrReported | crates/tpt-proto-compiler/src/pipeline.rs:473-496 | the same for both types of every method |
| ReferenceErrors.ReportedExactly | crates/tpt-proto-compiler/src/pipeline.rs:403-510 | reported are exactly the fields and methods of which a name does not resolve |
| References.Resolver.ResolveMethod | crates/tpt-proto-compiler/src/pipeline.rs:473-496 | reports nothing for a method if and only if both its types end up absolute and visible |
| References.Resolver.ResolveService | crates/tpt-proto-compiler/src/pipeline.rs:473-496 | the loop over the methods of a service, errors in order |
| References.Resolver.ResolveReferences | crates/tpt-proto-compiler/src/pipeline.rs:403-417 | a whole file: messages, then services, in the scope of its package; nothing is reported if and only if every reference of a field or a method, extension fields aside, ends up absolute and visible |
| References.ErrorFreeIsClosed | crates/tpt-proto-compiler/src/pipeline.rs:403-471 | nothing is reported if and only if every message, enum and group reference of the fields of a message, at every depth, ends up absolute and visible |
| References.FileErrorFree | crates/tpt-proto-compiler/src/pipeline.rs:403-496 | the same for the fields and the methods of a whole file |
| References.ExtensionsIgnored | crates/tpt-proto-compiler/src/pipeline.rs:403-435 | extension fields stay as written and nothing is reported about them |
| References.SecondPass | crates/tpt-proto-compiler/src/pipeline.rs:403-471 | a second resolving pass changes nothing and reports the same errors |
| References.FileTwice | crates/tpt-proto-compiler/src/pipeline.rs:403-496 | a second pass over a file changes nothing and reports the same errors |
| References.OnlyReferencesChange | crates/tpt-proto-compiler/src/pipeline.rs:419-471 | at every depth only the names inside references change |
| References.SymbolsStay | crates/tpt-proto-compiler/src/pipeline.rs:403-471 | resolving does not change the symbols a message defines |
| CompiledNames.ReferencesAreImported | crates/tpt-proto-compiler/src/pipeline.rs:153-174 | after an error-free pass every reference names a symbol of the file itself, of a file it imports, or of one re-exported to it |
| CompiledNames.ConvertMessage | crates/tpt-proto-compiler/src/lib.rs:251-363 | the members of the oneofs come first, with their index and without label and presence mark, then the fields, then the maps, each with a synthetic nested message before the other nested ones; the rest as parsed |
| CompiledNames.OneofMembers | crates/tpt-proto-compiler/src/lib.rs:272-287 | the fields that carry the index of a oneof are exactly its members, in order |
| CompiledNames.MemberWritten | crates/tpt-proto-compiler/src/lib.rs:272-286 | a member of a oneof has the index of its oneof and the label optional, no presence mark, and is otherwise as parsed |
| CompiledNames.FieldsWritten | crates/tpt-proto-compiler/src/lib.rs:288-361 | the other fields, nested messages, enums, extensions and reservations are as parsed, in their places |
| CompiledNames.MapWritten | crates/tpt-proto-compiler/src/lib.rs:293-331 | a map is a repeated message field and a nested entry of its name with `Entry` behind, of which the fields are the optional `key`, number 1, and `value`, number 2, and the options are field 7 set |
| CompiledNames.EntryRegisteredIff | crates/tpt-proto-compiler/src/lib.rs:289-322 | the type name of a map field is the symbol registered for its entry if and only if the package has no leading dot and the message has a path |
| CompiledNames.FileMapsRegistered | crates/tpt-proto-compiler/src/lib.rs:251-331 | so for every map at any nesting depth of a file |
| CompiledSet.ResolveAll | crates/tpt-proto-compiler/src/pipeline.rs:157-170 | the loop over the files of a set, each resolved in its own scope; nothing is reported if and only if every reference of a field or a method in it is settled |
| CompiledSet.SetErrorFree | crates/tpt-proto-compiler/src/pipeline.rs:149-170 | the same, for fields and methods, with the scopes of the resolved set: resolving moves no symbol |
| CompiledSet.SetReports | crates/tpt-proto-compiler/src/pipeline.rs:157-170 | the set is reported about exactly as its files are, each in its own scope; `ReferenceErrors.ReportedExactly` says how |
| CompiledSet.SetTwice | crates/tpt-proto-compiler/src/pipeline.rs:149-170 | compiling the resolved set again, its symbols collected anew, changes nothing and reports the same |
| CompiledSet.ScopesAreImports | crates/tpt-proto-compiler/src/pipeline.rs:124-170 | with the visibility as computed, every name in scope is defined in the file, in one it imports or in one publicly re-exported to it; without public cycles all these names are in scope |
| CompiledSet.CompiledReferences | crates/tpt-proto-compiler/src/pipeline.rs:124-170 | visibility, symbols and resolving together: if nothing is reported every reference of a field or a method names a symbol that the imports of its file give it; without public cycles this is an if and only if |
| GrpcFrame.EncodeMessage | crates/tpt-proto-grpc/src/codec.rs:26-48 | refuses exactly messages over the limit and codecs this build does not have; what it returns is the flag, 0 without compression and 1 with it, four bytes of length, highest first, and the payload, and decodes to the message under a receiver's limit if and only if the payload is below 2^32 and the limit has room for payload and message |
| GrpcFrame.FrameRoundTrip | crates/tpt-proto-grpc/src/codec.rs:26-96 | a message sent under one limit and received under another arrives unchanged if and only if its payload is below 2^32 and the receiver's limit has room for payload and message |
| GrpcFrame.FrameMeaning | crates/tpt-proto-grpc/src/codec.rs:55-96 | any frame from the wire, byte by byte: under the limit its payload with flag 0, the decompressed payload with flag 1, and an error with any other flag |
| GrpcFrame.FrameRefused | crates/tpt-proto-grpc/src/codec.rs:60-79 | any other text is refused: no header, a length over the limit, or a length that is not that of the payload |
| GrpcFrame.DecodedWithinLimit | crates/tpt-proto-grpc/src/codec.rs:55-96 | an accepted message is within the limit and its frame has the declared length |
| Deframer.ChunkIndependence | crates/tpt-proto-grpc/src/framed.rs:48-111 | for every split into chunks and every placement of waits the items are those of one parse of all the bytes |
| Deframer.RepeatsForever | crates/tpt-proto-grpc/src/framed.rs:57-92 | after an oversize or partial frame every later poll gives the same error |
| Deframer.FramesAppend | crates/tpt-proto-grpc/src/framed.rs:53-82 | frames found in a prefix stay found and the parse goes on from what was left |
| GrpcStreams.DeframeStream.PollNext | crates/tpt-proto-grpc/src/framed.rs:48-111 | one poll of the buffering loop, with its new state |
| GrpcStreams.ReadSingleMessage | crates/tpt-proto-grpc/src/framed.rs:116-127 | the first error or the last message; for an unbroken body it depends on the bytes alone |
| GrpcStreams.FrameThenRest | crates/tpt-proto-grpc/src/framed.rs:66-82 | a whole frame gives one item, and the stream goes on behind it even when it cannot be decoded |
| GrpcStreams.BodyOnWire | crates/tpt-proto-grpc/src/framed.rs:53-92 | the items of a body, byte by byte: an oversize frame ends them, another one gives its message or its error and the bytes behind it go on, a part of a frame is an error |
| GrpcStreams.LastMessageMeaning | crates/tpt-proto-grpc/src/framed.rs:116-127 | no item gives nothing, messages alone the last of them, and any error the first error |
| GrpcStreams.StreamedList | crates/tpt-proto-grpc/src/framed.rs:48-111 | a list of messages, sent under any limit, comes back unchanged however the framed bytes are cut and delayed, if and only if the receiver's limit has room for each of them |
| GrpcStreams.UpToBreak | crates/tpt-proto-grpc/src/framed.rs:94-108 | up to a body error the items are those of the bytes before it, the bytes left over being kept |
| GrpcStreams.GrpcResponseBody.PollNext | crates/tpt-proto-grpc/src/client.rs:304-378 | one poll of the response body, trailers and remembered status included |
| GrpcStreams.ResponseItems | crates/tpt-proto-grpc/src/client.rs:304-378 | the items of the body, and then the failing status if the body ended well and the first poll of the trailers already had it |
| GrpcStreams.LateStatusIsLost | crates/tpt-proto-grpc/src/client.rs:346-361 | a failing status that arrives after the first poll of the trailers is never reported |
| LintMethods.Lint | crates/tpt-proto-lint/src/lib.rs:113-120 | the report is the findings of the two files, in order |
| LintReport.ReportedExactly | crates/tpt-proto-lint/src/lib.rs:113-528 | for every severity, code and subject: the report holds the finding if and only if the two schemas give cause for it, said over the schemas alone and for messages at every depth |
| LintMethods.LintMessages | crates/tpt-proto-lint/src/lib.rs:134-164 | pushes the findings about the messages and everything nested in them |
| LintMethods.LintMessageFields | crates/tpt-proto-lint/src/lib.rs:166-237 | pushes the findings about fields reused, added, removed or retired |
| LintMethods.CheckReservedAndExtensions | crates/tpt-proto-lint/src/lib.rs:337-388 | pushes the findings about shrunk ranges and dropped names |
| LintMethods.LintEnums | crates/tpt-proto-lint/src/lib.rs:390-444 | pushes the findings about enums |
| LintMethods.LintServices | crates/tpt-proto-lint/src/lib.rs:446-467 | pushes the findings about services and their methods |
| LintMethods.Report.HasAnyBreaking | crates/tpt-proto-lint/src/lib.rs:53-57 | true if and only if some finding is Breaking |
| LintTheorems.BreakingDecides | crates/tpt-proto-lint/src/lib.rs:113-528 | a Breaking finding is reported if and only if the new schema does not keep what the old one declared, stated over the two schemas alone |
| LintTheorems.FieldsDecide | crates/tpt-proto-lint/src/lib.rs:166-310 | for fields: every number kept has the same name, type, label and type name, and the same JSON name where both have one; every number gone is retired |
| LintEvolution.RangeInclusion | crates/tpt-proto-lint/src/lib.rs:312-332 | for a range that is not empty the range test is inclusion of the numbers covered |
| LintEvolution.ReservedTestsAgree | crates/tpt-proto-lint/src/lib.rs:208-216 | on positive numbers the test written out for fields agrees with the range test |
| LintEvolution.NothingLost | crates/tpt-proto-lint/src/lib.rs:134-444 | without a Breaking finding every message at every depth is there, with every field retired or kept with its name, type, label, type name and a JSON name that does not contradict, every reserved number and name kept and every enum number present |
| LintEvolution.SelfFindsNothing | crates/tpt-proto-lint/src/lib.rs:113-528 | a schema compared with itself reports nothing, if its names and numbers are unique, its numbers present and its ranges not empty |
| LintEvolution.NumberlessFieldReportsItself | crates/tpt-proto-lint/src/lib.rs:205-207 | a field without a number reports itself removed |
| LintEvolution.SharedNumberReportsItself | crates/tpt-proto-lint/src/lib.rs:166-203 | two fields of different names with one number report it reused |
| LintEvolution.EmptyRangeReportsItself | crates/tpt-proto-lint/src/lib.rs:337-360 | and an empty reserved range reports itself shrunk |
| LintEvolution.EvolvesReflexive | crates/tpt-proto-lint/src/lib.rs:113-528 | the relation of lasting steps is reflexive on these schemas |
| LintEvolution.EvolvesTransitive | crates/tpt-proto-lint/src/lib.rs:113-528 | and transitive: no Breaking finding from a to b and b to c gives none from a to c, when the first step drops no JSON name and no number, numbers reserved as numbers excepted where schemas leave these unused |
| LintReservation.ChainsIffLasting | crates/tpt-proto-lint/src/lib.rs:166-310 | a compatible step keeps every later compatible step compatible with the original if and only if, at any depth, it drops no JSON name and no number; among schemas that leave reserved numbers unused, numbers reserved as numbers may go |
| LintReservation.FileChainsIffLasting | crates/tpt-proto-lint/src/lib.rs:113-310 | for whole files: a step without Breaking findings keeps every later such step free of Breaking findings against the original if and only if no message, at any depth, drops a JSON name or a number, with the same exception |
| LintReservation.NameOnlyReservation | crates/tpt-proto-lint/src/lib.rs:212-216 | reserving only the name of any removed field is accepted and does not meet that condition |
| LintReservation.LostKey | crates/tpt-proto-lint/src/lib.rs:280-296 | any field that loses its JSON name at one step and gets another at the next: no Breaking finding at either, one from first to last, and nothing was removed |
| LintReservation.ReservedNumberUsed | crates/tpt-proto-lint/src/lib.rs:180-216 | any field removed and reserved by number, whose number is then used although reserved: no Breaking finding at either step, one from first to last |
| LintReservation.JsonNameChains | crates/tpt-proto-lint/src/lib.rs:280-296 | field compatibility chains through a schema if and only if its JSON name is present |
| Timeout.TimeoutRoundTrip | crates/tpt-proto-grpc/src/timeout.rs:11-55 | parsing the printed form gives the duration back if and only if the printed count fits 64 bits; otherwise it is refused |
| Timeout.CoarsestExact | crates/tpt-proto-grpc/src/timeout.rs:37-55 | the unit printed divides the duration and no coarser unit does |
| Timeout.MostCompact | crates/tpt-proto-grpc/src/timeout.rs:33-55 | no accepted text for the same duration is shorter |
| Timeout.ParseMeaning | crates/tpt-proto-grpc/src/timeout.rs:11-31 | an accepted text denotes its count times its unit |
| Timeout.TimeoutReads | crates/tpt-proto-grpc/src/timeout.rs:11-31 | digits, perhaps behind a plus, and a last character: the duration by unit letter, or the error |
| Timeout.TimeoutParses | crates/tpt-proto-grpc/src/timeout.rs:11-31 | and every accepted text is of that form |
| Timeout.TimeoutWritten | crates/tpt-proto-grpc/src/timeout.rs:37-55 | printed are the digits of the count, without leading zeros, and the letter of a unit that make up the duration |
| JsonDuration.FormatDuration | crates/tpt-proto-json/src/well_known.rs:195-245 | the text it builds parses back to the pair if and only if the signs agree, the nanoseconds are less than a second and the seconds are not the least value |
| JsonDuration.DurationRoundTrip | crates/tpt-proto-json/src/well_known.rs:195-245 | for all 64-bit seconds and 32-bit nanoseconds the pair is read back if and only if the signs agree, the nanoseconds are less than a second and the seconds are not the least value |
| JsonDuration.FractionReads | crates/tpt-proto-json/src/well_known.rs:203-237 | trimming the zeros of the fraction and padding them on again loses nothing below one second, and something at or above it |
| JsonDuration.DurationReads | crates/tpt-proto-json/src/well_known.rs:213-245 | a text of an optional minus, signed seconds and an optional fraction of any number of digits reads as the seconds and nanoseconds it spells, or which error |
| JsonDuration.DurationParses | crates/tpt-proto-json/src/well_known.rs:213-245 | and every accepted text is of that form |
| JsonDuration.FormatWritten | crates/tpt-proto-json/src/well_known.rs:195-211 | printed are a minus for negative durations, the seconds without leading zeros and the fraction without zeros at its end |
| Decimal.ShowParses | crates/tpt-proto-grpc/src/timeout.rs:15-18 | a printed number parses back exactly while it is below the bound of its type |
| Decimal.UnsignedReads | crates/tpt-proto-grpc/src/timeout.rs:15-18 | decimal digits read as their number below the bound, with or without a plus |
| Decimal.SignedReads | crates/tpt-proto-json/src/well_known.rs:226-233 | and as a signed number, with or without a sign |
| Decimal.TrimThenPad | crates/tpt-proto-json/src/well_known.rs:203-233 | padding a text trimmed of its zeros to its old width restores it |
| Lexer.Lexer.Bump | crates/tpt-proto-language/src/lexer.rs:103-113 | the line and column counters always equal a scan from the start |
| Lexer.Lexer.LineColAt | crates/tpt-proto-language/src/lexer.rs:125-137 | the scan gives line and column of any offset |
| Lexer.Lexer.SkipTrivia | crates/tpt-proto-language/src/lexer.rs:155-201 | skips whitespace and records comments, nested block comments included, and terminates |
| Lexer.Lexer.NextToken | crates/tpt-proto-language/src/lexer.rs:203-245 | the token at the next place that is not trivia, with its span, or the error there |
| Lexer.Lexer.LexString | crates/tpt-proto-language/src/lexer.rs:325-390 | characters and escapes up to the closing quote, or the error and its position |
| Lexer.LexWithComments | crates/tpt-proto-language/src/lexer.rs:421-429 | all tokens and comments of the text, which they tile, or the first error |
| LexerTheorems.LexTiles | crates/tpt-proto-language/src/lexer.rs:155-245 | token and comment spans are non-empty, in order and disjoint, everything outside them is whitespace, and their positions are those of their offsets |
| LexerTheorems.PositionsIncrease | crates/tpt-proto-language/src/lexer.rs:125-137 | distinct offsets have distinct, increasing positions |
| LexerTrivia.BlockCommentEnds | crates/tpt-proto-language/src/lexer.rs:174-197 | a block comment with comments nested to any depth ends at its own closing mark |
| LexerGrammar.TokenLanguage | crates/tpt-proto-language/src/lexer.rs:203-419 | a token of some kind is found at a place exactly where one is written: a name, a decimal, hexadecimal or floating literal, a string of plain characters and escapes, or a mark, followed by nothing that goes on with it |
| LexerLiterals.StringReads | crates/tpt-proto-language/src/lexer.rs:325-410 | a literal written as plain characters and escapes reads as the characters these stand for |
| LexerLiterals.StringParses | crates/tpt-proto-language/src/lexer.rs:325-410 | and every literal accepted is written that way |
| LexerLiterals.RawString | crates/tpt-proto-language/src/lexer.rs:386-388 | bytes that are neither quote nor backslash become one character each |
| LexerBytes.LetterEscape | crates/tpt-proto-language/src/lexer.rs:346-356 | a backslash and n, t, r, 0, a, b, f, v, a quote or a backslash stand for characters 10, 9, 13, 0, 7, 8, 12, 11, that quote or the backslash |
| LexerBytes.NumericEscape | crates/tpt-proto-language/src/lexer.rs:357-410 | x, u and U take two, four and eight hexadecimal digits in either case; surrogates and numbers past Unicode are refused |
| LexerBytes.OtherEscape | crates/tpt-proto-language/src/lexer.rs:340-384 | a backslash before anything else, or at the end, is refused at the start of the literal |
| LexerBytes.DigitMissing | crates/tpt-proto-language/src/lexer.rs:392-410 | a numeric escape with too few digits is refused where its digits begin |
| LexerBytes.HexLiteral | crates/tpt-proto-language/src/lexer.rs:264-285 | a hexadecimal literal is its number, underscores aside, if it has digits and fits 63 bits |
| LexerBytes.DecimalLiteral | crates/tpt-proto-language/src/lexer.rs:286-323 | a decimal literal is its number if it fits 63 bits |
| LexerBytes.FloatLiteral | crates/tpt-proto-language/src/lexer.rs:286-316 | a literal with a point or an exponent is a float of its text, underscores aside, unless its exponent has no digit |
| LexerBytes.WordLiteral | crates/tpt-proto-language/src/lexer.rs:252-262 | a letter or underscore and all letters, digits and underscores behind it are one name |
| LexerBytes.MarkLiteral | crates/tpt-proto-language/src/lexer.rs:210-222 | the thirteen marks |
| LexerBytes.NoToken | crates/tpt-proto-language/src/lexer.rs:232-238 | any other byte begins no token |
| LexerBytes.WhiteSpace | crates/tpt-proto-language/src/lexer.rs:155-201 | space, tab, carriage return and line feed are passed over, and nothing else but comments |
| LexerBytes.LineComment | crates/tpt-proto-language/src/lexer.rs:161-173 | two slashes begin a comment that ends before the next line feed |
| LexerBytes.BlockComment | crates/tpt-proto-language/src/lexer.rs:174-197 | a slash and a star begin one that ends where `LexerBytes.BlockBytes` closes it |
| LexerBytes.BlockBytes | crates/tpt-proto-language/src/lexer.rs:181-195 | inside one a star and a slash close a level, a slash and a star open one, every other byte is passed over, and the end of the text closes all |
| LexerBytes.TrimMeaning | crates/tpt-proto-language/src/lexer.rs:145-153 | the text of a comment loses the line ends at its end and nothing else |
| LexerBytes.LineColMeaning | crates/tpt-proto-language/src/lexer.rs:125-137 | the line counts the line feeds before the offset, the column the bytes since the last |
| LexerLanguage.LexLanguage | crates/tpt-proto-language/src/lexer.rs:155-429 | a text is accepted with certain tokens and comments if and only if it can be laid out as tokens, white space and comments, nested, of one line or unclosed at the end, that mean just that |
| LexerSpelling.KindSpelled | crates/tpt-proto-language/src/lexer.rs:203-410 | a name, an integer, a floating literal, a string of any characters, written with escapes, or a mark, spelled out before a space, is read as that token |
| LexerSpelling.LexSpelled | crates/tpt-proto-language/src/lexer.rs:203-429 | lexing the spelling of any list of such tokens gives the list and no comments |
| LexerSpelling.SpelledAgain | crates/tpt-proto-language/src/lexer.rs:203-429 | the tokens of any accepted text are such tokens: spelled out with single spaces they are accepted again and are the same |

## Left out

- Sockets, HTTP/2, TLS, tasks and files: a body is a list of what polling it yields, the file system a map from names
  to import lists in which an import string is the name of the file it finds.
- gzip is a pair of functions; that decompression inverts compression is a hypothesis of the theorems that need it.
- Floating point: float fields, and the value of a float literal, which the lexer model keeps as text.
- The fixed-width scalar types and booleans read from other types: each is one expression.
- `split_grpc_frames`, code generation, the formatter, reflection, text format, well-known types other than Duration,
  option tables, edition features, cancellation and health checks.
- The partly merged message left behind by a failing `merge_from`, which the caller gets to see only when it calls
  `merge_from` itself; `decode` discards it.
- Unsigned 32-bit overflow of depths and of line and column counters, which would need inputs of four gigabytes; the
  64-bit sum of a position and a length is the subject of `WrapAround`.
- Bit operations: or-ing disjoint groups of bits in varints, and the shifts of zigzag, are written as arithmetic.
- Descriptor encodings and stored bodies are assumed shorter than 2^64 bytes, as memory is.
- The duplicate-name checks inside one file.
- Parsing a file and converting its single fields, enums, ranges and services: a message is given with those already
  converted.
- Message texts of findings and errors: a finding holds its severity, its code and the names its text mentions.
- UnknownFieldSet.UnknownFieldSet.MergeFrom: does not cover merging a set into itself, which Rust's borrow rules forbid.
- Passthrough.ConcatIsMerge: assumes that the bytes of both sets together fit the limits of the reader, since each set alone may fit them.
- References.Resolver.ResolveMessage: returns the rewritten message instead of changing it through a reference.
- DescriptorMethods.MergeFrom: returns the merged message instead of changing it through a reference.
- Packed.ReadPackedField: the element reader is one of the runtime's own, not an arbitrary closure.
- WrapAround.TrapsIff: is about buffers of at least ten bytes and byte limits of at least ten, so that a longest length fits.
- CompiledNames.ConvertMessage: single fields, enums and ranges are given as already converted.
- LintEvolution.EvolvesTransitive: takes names and field numbers to be unique, numbers to be present and ranges not to be empty, as the protobuf language demands; a schema against that may report even itself.
