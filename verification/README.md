# The Quack codec and the driver's state machines

The Quack driver speaks a binary protocol with a DuckDB server. This project models how it does so and proves what
the protocol and the driver are meant to keep:

- **The wire codec.** Bytes are written and read through a writer and a reader with sticky errors, LEB128 integers
  (section 7.6 of DWARF Version 5), field-tagged objects, recursive logical types, validity bitmaps, column vectors
  and ten kinds of messages. Encoders write flat columns only; decoders also understand constant, dictionary and
  sequence columns with LIST, STRUCT and ARRAY children, nested to any depth.
- **Parameter substitution.** A scanner with four modes puts SQL literals in place of the top-level markers.
- **Lazy transactions.** With autocommit off, BEGIN is sent only when a statement runs.
- **Streaming results.** A result is read lazily, chunk by chunk, or drained at once.
- **Bulk ingest.** Arrow records become chunks, and result chunks become Arrow records again.

## How it is built

The grammar of the wire is given twice over by functions: an encoder takes the bytes that follow as its last argument,
and a decoder yields a value with the bytes that are left, a sticky error, or a Go panic. Every round trip is therefore
a statement in prefix form. The program itself is imperative, and so are the classes and methods beside the functions:
a writer with a growing buffer, a reader with an offset and an error, bitmaps and rows filled in arrays by loops. Each
method is tied to its function, and the theorems are about the functions.

| files | what they hold |
|---|---|
| `Numbers`, `Wire`, `BinaryWriters`, `BinaryReaders` | machine integers; primitives of the wire; the writer and the reader |
| `QuackTypes`, `TypeCodec`, `TypeRoundTrip`, `TypeIO` | logical types, their wire form, its round trip, the recursive methods |
| `WireBytes`, `Malformed` | the bytes of numbers, types and messages, written out; what is refused and what is filled in |
| `Validity`, `ValidityArrays`, `HugeInts`, `Uuids`, `Decimals` | bitmaps, 128-bit numbers, UUID text (section 4 of RFC 9562), exact decimals |
| `Vectors`, `ValueRoundTrip`, `RawRoundTrip` | columns by their row view, one stored value there and back, from either side |
| `StorageMeaning`, `WrittenMeaning` | what each stored number stands for, and what is stored for each Go value |
| `VectorEncoder`, `VectorDecoder`, `ChunkRoundTrip` | the column grammar and its round trip |
| `ColumnWire` | the bytes of columns and chunks, written out |
| `VectorShapes` | the size of every column of a chunk that decodes |
| `VectorLayouts`, `LayoutMeaning`, `Reencoding` | every layout against its expansion into rows; flat columns read and written again |
| `VectorArrays`, `VectorReading`, `VectorWriting` | the loops and recursive methods of the column codec |
| `Messages`, `MessageRoundTrip`, `MessageIO` | messages, their round trip, the methods |
| `Params`, `Literals`, `ParamBinding`, `BoundStatements` | the scanner, the literals, the scan as a loop, one statement per bound row |
| `SqlTokens`, `LiteralMeaning` | SQL text as tokens, and a reader of literals: what markers and literals are, without the scanner |
| `Transactions`, `TransactionLaws`, `Connections` | runs of a connection against a server, what each operation reports and does, and the connection object |
| `Cursors` | the lazy and the eager result path, and the objects that run them |
| `BulkIngest`, `ArrowMeaning`, `TypeNames`, `IngestStatements` | Arrow round trip, what each Arrow value is stored as and read from, what the names of column types denote, and the loops and statement object of ingest |

## What turned out not to hold everywhere

Where a property fails on some inputs, the exact condition is proved instead.

- A type survives the wire exactly when it is portable (`TypeRoundTrip.TypeRoundTrip`): a negative int wraps past the
  largest length, an absent ANY score comes back as zero, and a Generic kind that is one of the specific kinds comes
  back as that kind.
- A message survives exactly when it is well formed (`MessageRoundTrip.MessageSurvives`).
- A stored DECIMAL survives exactly when it is a fraction in lowest terms with no more decimal places than its scale,
  and its unscaled number fits the storage (`ValueRoundTrip.StoredDecimal`).
- The lazy stream equals the drained result unless an answer that is reached and brings chunks follows an empty answer
  that promised more (`Cursors.StreamIsPrefix`, with the input of `Cursors.EmptyAnswerLosesChunks`).
- The comment at driver/quack/driver.go:146-149 rules out idle transactions. Switching autocommit off opens none, but
  an update without SQL is refused after its BEGIN, and a first statement that fails leaves its transaction open too
  (`Transactions.UpdateWithoutSqlIsIdle`; `Transactions.OpenExactly` says exactly when a transaction is idle).
- The output of substitution is scanned as intended exactly when no negative literal lands directly after a minus sign
  (`Params.ModesPreserved`, with the inputs of `Params.DashesClash` and `Params.ClashExposesMarker`).
- Slash, star, slash is a whole comment to the scanner, which counts the star twice (`SqlTokens.ShortCommentCopied`).
- A decimal bound with a negative scale is written without its scale, so only zero keeps its value
  (`LiteralMeaning.NegativeScaleIsLost`).
- A forced error does not fire at the very end of input. Nested objects always have an end marker to come, so no chunk
  that decodes carries a mismatch (`VectorDecoder.ReadChunk`); an ENUM whose value count differs is caught for the same
  reason by the end marker of its object. A flat string column is the exception: its size is its string count, so it
  has the row count if and only if the two are equal (`VectorShapes.ChunkSizes`, `ChunkRoundTrip.StringCountUnchecked`).
- The row count of an ARRAY child and the first child row of each slice are Go products and can wrap. The column is read
  exactly when the slices of its valid rows lie inside the child, and Go panics otherwise; they always do when the
  number of items fits a Go int (`LayoutMeaning.ArrayExactly`, `VectorLayouts.ItemsFit`). A wrapped column that fails
  earlier, in its child, is `LayoutMeaning.ArrayProductWraps`.
- A signalling single-precision NaN is made quiet wherever a value is widened and narrowed again: when it is written,
  when a constant repeats it, and when Arrow reads it (`ValueRoundTrip.StoredFloat`, `LayoutMeaning.ConstantRepeats`).
- A DATE further than 106,751 days from the epoch is read, but written as that day, and a TIME outside of one day loses
  its days (`ValueRoundTrip.StoredDate`, `ValueRoundTrip.StoredTimeOfDay`).
- Writing a column that was read gives the same bytes exactly when the bytes are what the encoder itself would send
  (`Reencoding.FlatReencodes`).
- An ingested decimal is multiplied by 10^scale, so it survives exactly for scale 0 or value 0. Reading it back panics
  when the storage then holds -2^127 (`BulkIngest.DecimalRow`, `BulkIngest.LowestDecimalPanics`).
- The comment at driver/quack/bulk_ingest.go:200-202 says that a creatable schema is always ingestable. The code
  accepts large, date and timestamp columns in CREATE TABLE and has no case to convert them
  (`BulkIngest.DatesAreNotIngested`); conversion fails for exactly those (`BulkIngest.CreatableIsIngestable`).
- The comment at internal/codec/binary_reader.go:15-17 says that every call after an error is a no-op. A read of a
  negative length replaces the error (`BinaryReaders.BinaryReader.ReadBytes`); no caller passes one.

## Model

| member | source | states |
|---|---|---|
| Wire.UlebRoundTrip | internal/codec/binary_writer.go:97-106 | every uint64 written as ULEB128 reads back and leaves exactly the bytes that follow |
| Wire.UlebIntRoundTrip | internal/codec/binary_reader.go:212-223 | a length or count reads back exactly when it fits a Go int, and is an error otherwise |
| Wire.UlebShortest | internal/codec/binary_reader.go:192-208 | whatever byte string reads as a value, the one written for that value is no longer, and none is longer than ten bytes |
| Wire.SlebRoundTrip | internal/codec/binary_writer.go:109-123 | every int64 written as SLEB128 reads back and leaves exactly the bytes that follow |
| Wire.SlebShortest | internal/codec/binary_reader.go:236-256 | the SLEB128 form is the shortest byte string that reads as the value, at most ten bytes, including the tenth byte without sign extension |
| Wire.LeRoundTrip | internal/codec/binary_writer.go:178-230 | a fixed-width integer reads back modulo 2^(8n), so two's complement survives |
| Wire.LeCongruent | internal/codec/binary_writer.go:178-230 | only the low n bytes of a number decide what is written |
| Wire.LeInverse | internal/codec/binary_reader.go:343-395 | reading n bytes as a number and writing it again gives the same bytes |
| Wire.LeSplit | internal/message/vector_encoder.go:178-198 | a wide integer is its low part followed by its high part |
| Wire.BlobRoundTrip | internal/codec/binary_writer.go:131-139 | a length-prefixed string or blob reads back and leaves what follows |
| Wire.OptionalField | internal/codec/binary_reader.go:136-145 | an optional field is taken exactly when its id comes next; otherwise nothing is consumed |
| Wire.AssertEof | internal/codec/binary_reader.go:44-53 | asserting the end of input succeeds if and only if the input really ends |
| WireBytes.UlebByteAt | internal/codec/binary_writer.go:97-106 | byte k is the k-th group of seven bits of the number, and exactly the last byte lacks the top bit |
| WireBytes.LebExamples | internal/codec/binary_writer.go:97-123 | the example encodings of section 7.6 of DWARF Version 5, signed and unsigned |
| WireBytes.LeadGroups | internal/codec/binary_reader.go:192-256 | groups of zeros in front multiply the rest by 128 each |
| WireBytes.LongNumbers | internal/codec/binary_reader.go:192-256 | the tenth byte counts with its lowest bit only, signed and unsigned, and an eleventh is never read |
| WireBytes.LittleEndianExample | internal/codec/binary_writer.go:178-230 | the lowest byte comes first |
| Malformed.BadBoolean | internal/codec/binary_reader.go:175-185 | a byte other than 0 and 1 is no boolean |
| Malformed.WrongField | internal/codec/binary_reader.go:119-132 | a required field must be the next one |
| Malformed.MissingEnd | internal/codec/binary_reader.go:86-98 | only the end marker ends an object |
| Malformed.BlobTooLong | internal/codec/binary_reader.go:161-173 | a length beyond the end of input is refused |
| Malformed.AtTheEnd | internal/codec/binary_reader.go:55-66 | nothing is read at the end of input, optional fields are absent there, and half a field id is an error |
| BinaryWriters.PutLittleEndian | internal/codec/binary_writer.go:178-230 | the byte loop fills the array with the little-endian form |
| BinaryWriters.BinaryWriter.constructor | internal/codec/binary_writer.go:21-26 | a new writer is empty and has no error |
| BinaryWriters.BinaryWriter.Invalidate | internal/codec/binary_writer.go:241-245 | the first error stays |
| BinaryWriters.BinaryWriter.WriteByte | internal/codec/binary_writer.go:70-75 | one byte is appended; a writer in error changes nothing |
| BinaryWriters.BinaryWriter.WriteBytes | internal/codec/binary_writer.go:77-82 | all bytes are appended; a writer in error changes nothing |
| BinaryWriters.BinaryWriter.WriteBool | internal/codec/binary_writer.go:84-90 | one byte, 0 or 1 |
| BinaryWriters.BinaryWriter.WriteFixed | internal/codec/binary_writer.go:170-238 | the low bytes of the number are appended, for every fixed width |
| BinaryWriters.BinaryWriter.WriteFieldID | internal/codec/binary_writer.go:57-64 | a field id is two little-endian bytes |
| BinaryWriters.BinaryWriter.WriteEnd | internal/codec/binary_writer.go:45-48 | the end marker of an object |
| BinaryWriters.BinaryWriter.WriteULEB128 | internal/codec/binary_writer.go:97-106 | the seven-bit loop appends exactly the ULEB128 form |
| BinaryWriters.BinaryWriter.WriteSLEB128 | internal/codec/binary_writer.go:109-123 | the loop with its sign test appends exactly the SLEB128 form |
| BinaryWriters.BinaryWriter.WriteBlob | internal/codec/binary_writer.go:127-139 | a length and the bytes |
| BinaryWriters.BinaryWriter.WriteHugeInt | internal/codec/binary_writer.go:163-166 | upper half as SLEB128, lower half as ULEB128 |
| BinaryReaders.BinaryReader.constructor | internal/codec/binary_reader.go:26-28 | a new reader stands at the start without an error |
| BinaryReaders.BinaryReader.ForceEof | internal/codec/binary_reader.go:44-53 | the error is set exactly when bytes remain; an earlier error stays |
| BinaryReaders.BinaryReader.Ensure | internal/codec/binary_reader.go:55-66 | true exactly when there is no error and n bytes remain; otherwise the first error names this operation and offset, an earlier one stays, and the offset does not move |
| BinaryReaders.BinaryReader.ReadByte | internal/codec/binary_reader.go:152-159 | the next byte is consumed, or the error is set and zero returned |
| BinaryReaders.BinaryReader.ReadFixedUint | internal/codec/binary_reader.go:335-395 | the next n bytes as an unsigned number, or a sticky error and zero |
| BinaryReaders.BinaryReader.ReadFixedInt | internal/codec/binary_reader.go:327-386 | the same bytes as a two's complement |
| BinaryReaders.BinaryReader.ReadFieldID | internal/codec/binary_reader.go:101-108 | two bytes as a field id, or a sticky error |
| BinaryReaders.BinaryReader.PeekFieldID | internal/codec/binary_reader.go:111-116 | the next field id without moving; fewer than two bytes are an error |
| BinaryReaders.BinaryReader.RequireField | internal/codec/binary_reader.go:119-132 | succeeds exactly when the expected field id comes next |
| BinaryReaders.BinaryReader.OptionalField | internal/codec/binary_reader.go:136-145 | consumes the field id exactly when it is the expected one; at the end, and after an error, it reports absence |
| BinaryReaders.BinaryReader.ReadEndObject | internal/codec/binary_reader.go:86-98 | succeeds exactly on the end marker |
| BinaryReaders.BinaryReader.EndObject | internal/codec/binary_reader.go:73-83 | the value of an object counts exactly when no error is set and the end marker follows |
| BinaryReaders.BinaryReader.ReadBytes | internal/codec/binary_reader.go:161-173 | exactly n bytes or a sticky error; a negative length is an error of its own, even after another error |
| BinaryReaders.BinaryReader.ReadBool | internal/codec/binary_reader.go:175-185 | only the bytes 0 and 1 are booleans |
| BinaryReaders.BinaryReader.ReadULEB128 | internal/codec/binary_reader.go:192-208 | the shift loop over a 64-bit word reads what the ULEB128 grammar reads, with the tenth group cut off by the word; errors are sticky |
| BinaryReaders.BinaryReader.ReadSLEB128 | internal/codec/binary_reader.go:236-256 | the same with sign extension, which is skipped when ten groups fill the word |
| BinaryReaders.BinaryReader.ReadULEB128Int | internal/codec/binary_reader.go:212-223 | values above MaxInt are an error |
| BinaryReaders.BinaryReader.ReadText | internal/codec/binary_reader.go:260-282 | a length and that many bytes |
| BinaryReaders.BinaryReader.ReadHugeInt | internal/codec/binary_reader.go:313-323 | upper half, then lower half; the first error ends it |
| TypeRoundTrip.TypeRoundTrip | internal/quacktype/codec.go:11-36 | a logical type of any depth decodes to itself, in prefix form, if and only if it is portable (non-negative ints, ANY score present and within uint64, Generic kind none of the specific kinds) |
| TypeRoundTrip.InfoRoundTrip | internal/quacktype/codec.go:39-177 | the same for extra type information of every kind and any alias |
| TypeRoundTrip.TypesRoundTrip | internal/quacktype/codec.go:66-68 | a list of types survives exactly when every element does |
| TypeRoundTrip.ChildrenRoundTrip | internal/quacktype/codec.go:179-197 | struct children survive exactly when their types do, names and order included |
| TypeRoundTrip.TypeInjective | internal/quacktype/codec.go:11-22 | two portable types with the same bytes in front are the same type, whatever follows |
| TypeCodec.ReadType | internal/quacktype/codec.go:24-36 | decoding a type terminates on every byte string because each recursive call sees strictly fewer bytes, and never panics |
| TypeCodec.ReadPayload | internal/quacktype/codec.go:118-174 | decoding a payload terminates and never turns one of the specific kinds into a Generic one |
| TypeIO.EncodeLogicalType | internal/quacktype/codec.go:11-22 | the recursive writer appends exactly the wire form of the type before anything that follows |
| TypeIO.EncodeExtraTypeInfo | internal/quacktype/codec.go:39-99 | kind, alias and payload are appended in wire form |
| TypeIO.EncodePayload | internal/quacktype/codec.go:45-97 | each of the thirteen kinds writes its own fields |
| TypeIO.EncodeChildTypes | internal/quacktype/codec.go:179-186 | the loop writes every child in order |
| TypeIO.EncodeTypes | internal/quacktype/codec.go:66-68 | the loop writes every type in order |
| TypeIO.EncodeCRS | internal/quacktype/codec.go:199-205 | a coordinate system object with its optional text |
| TypeIO.DecodeLogicalType | internal/quacktype/codec.go:24-36 | the recursive reader agrees with the grammar on value, offset and error, terminates, leaves a reader in error untouched, and hands back the zero type beside an error |
| TypeIO.DecodeExtraTypeInfo | internal/quacktype/codec.go:101-177 | the same for extra type information, with nil beside an error |
| TypeIO.DecodePayload | internal/quacktype/codec.go:118-174 | the same for the payload of every kind |
| TypeIO.DecodeEnum | internal/quacktype/codec.go:134-142 | a value count that differs from the list is an error unless the input ends there |
| TypeIO.DecodeStruct | internal/quacktype/codec.go:131-133 | an absent child list is an empty one |
| TypeIO.DecodeAny | internal/quacktype/codec.go:154-159 | the cast score is present after decoding |
| TypeIO.DecodeAggregateState | internal/quacktype/codec.go:143-149 | name, return type and arguments in order |
| TypeIO.DecodeChildTypes | internal/quacktype/codec.go:188-197 | the loop reads exactly the counted children or stops at the first error |
| TypeIO.DecodeTypes | internal/quacktype/codec.go:146-148 | the loop reads exactly the counted types or stops at the first error |
| TypeIO.DecodeGeo | internal/quacktype/codec.go:165-167 | an absent coordinate system is an empty text |
| WireBytes.TypeBytes | internal/quacktype/codec.go:11-22 | the type number in field 100 and, only when there is more to say, a byte 1 and the extra information in field 101 |
| WireBytes.InfoBytes | internal/quacktype/codec.go:39-50 | the number of the kind in field 100, kind by kind, and the alias in field 101 unless it is empty |
| WireBytes.NumberPayloads | internal/quacktype/codec.go:45-97 | the fields of the kinds without texts and child types, byte for byte |
| WireBytes.TextPayloads | internal/quacktype/codec.go:45-97 | the fields of the kinds with one text, byte for byte |
| WireBytes.UnboundPayload | internal/quacktype/codec.go:45-97 | name, catalog and schema in fields 200, 201 and 202, each left out when empty |
| WireBytes.NestedPayloads | internal/quacktype/codec.go:45-97 | the fields of the kinds with child types, byte for byte |
| WireBytes.ChildBytes | internal/quacktype/codec.go:179-186 | a struct field is its name in field 0 and its type in field 1 |
| StorageMeaning.TypeNumbers | internal/quacktype/logical_type_id.go:10-60 | the number of every type on the wire |
| Malformed.DecimalDefaults | internal/quacktype/codec.go:123-125 | a DECIMAL without its scale has scale 0, one without its width has width 0 |
| Malformed.TypeDefaults | internal/quacktype/codec.go:118-174 | a STRUCT without its list has no children, and missing texts are empty |
| Malformed.ExtensionSkipped | internal/quacktype/codec.go:101-117 | the presence flag of extension data is read and dropped |
| Malformed.EnumCountChecked | internal/quacktype/codec.go:134-142 | an ENUM whose count is not the length of its list is refused, unless the input ends there |
| Validity.AllValidRows | internal/message/validity.go:69-80 | an all-valid bitmap marks exactly the first count rows |
| Validity.SetNullRows | internal/message/validity.go:88-90 | clearing a row makes it null and changes no other row |
| Validity.SetValidRows | internal/message/validity.go:83-85 | setting a row makes it valid and changes no other row |
| Validity.FromBytesOfToBytes | internal/message/validity.go:37-66 | a bitmap of the right size survives the wire word for word |
| Validity.NilIsAllValid | internal/message/validity.go:52-59 | the nil fast path writes the same bytes as an explicit all-valid bitmap |
| Validity.FromNullsRows | internal/message/vector_encoder.go:98-108 | the bitmap built from nil rows marks exactly the rows that are not nil |
| ValidityArrays.BuildAllValid | internal/message/validity.go:69-80 | the loop over whole words and the partial last word give the all-valid bitmap |
| ValidityArrays.SetNullAt | internal/message/validity.go:88-90 | in place, exactly the row's bit is cleared |
| ValidityArrays.SetValidAt | internal/message/validity.go:83-85 | in place, exactly the row's bit is set |
| ValidityArrays.BitmapFromBytes | internal/message/validity.go:37-48 | the byte loop assembles every word, missing bytes counting as zero |
| ValidityArrays.OnesToBytes | internal/message/validity.go:52-59 | setting one bit per row gives the run of ones |
| ValidityArrays.WordsToBytes | internal/message/validity.go:60-65 | every word is cut into eight bytes, the rest stays zero |
| ValidityArrays.BitmapToBytes | internal/message/validity.go:52-66 | nil and explicit bitmaps are written as the wire form says |
| ValidityArrays.BitmapOfNulls | internal/message/vector_encoder.go:98-108 | the bitmap is allocated at the first nil row and loses one bit for each |
| HugeInts.SignedOfParts | internal/codec/hugeint.go:22-57 | splitting into halves and joining them is the identity on [-2^127, 2^127) and congruent modulo 2^128 elsewhere; the unsigned reading is the residue |
| HugeInts.PartsOfSigned | internal/codec/hugeint.go:22-49 | joining halves and splitting again gives the same halves |
| Uuids.UuidPartsOfText | internal/message/vector_codec.go:441-448 | every 128-bit value survives its text form |
| Uuids.UuidTextOfParts | internal/message/vector_encoder.go:324-349 | a text survives the 128-bit form if and only if it is lower-case hexadecimal with dashes in the four places |
| Decimals.UnscaledOfFraction | internal/message/vector_encoder.go:274-285 | scaling the reduced fraction v/10^s back by 10^s divides exactly and gives v |
| Decimals.WidthFits | internal/quacktype/logical_type.go:308-324 | every value of at most w digits fits the storage picked for w |
| Decimals.Reduced | internal/message/vector_codec.go:408-415 | dividing out the greatest common divisor keeps the quotient |
| Decimals.MakeFractionIsLowest | internal/message/vector_codec.go:408-415 | the fraction is in lowest terms and its denominator divides the scale factor |
| Decimals.GridIs | internal/message/vector_encoder.go:274-285 | scaling any fraction up, truncating and reducing gives it back if and only if it is in lowest terms with a denominator that divides 10^scale |
| ValueRoundTrip.StoredCell | internal/message/vector_encoder.go:126-200 | a value of any fixed-width type survives its storage if and only if it is canonical for the type |
| ValueRoundTrip.StoredDecimal | internal/message/vector_encoder.go:274-285 | a DECIMAL survives if and only if it is a fraction in lowest terms, its denominator divides 10^scale, and its unscaled number is in the range of the storage |
| ValueRoundTrip.DecimalSurvives | internal/message/vector_codec.go:314-371 | for DECIMAL(w,s) with w up to 38 every unscaled value of at most w digits survives the storage picked for w |
| ValueRoundTrip.StoredUuid | internal/message/vector_encoder.go:169-170 | a UUID survives exactly when its text is canonical |
| ValueRoundTrip.StoredEnum | internal/message/vector_encoder.go:257-272 | an ENUM text survives exactly when its position is below 2^31 |
| ValueRoundTrip.StoredInterval | internal/message/vector_encoder.go:194-198 | an interval survives exactly when its three parts fit their widths |
| ValueRoundTrip.StoredFloat | internal/message/vector_encoder.go:161-162 | a single-precision value survives exactly when it is no signalling NaN |
| ValueRoundTrip.StoredDate | internal/message/vector_encoder.go:249-255 | a DATE survives exactly when it is a midnight within a 64-bit duration of the epoch |
| ValueRoundTrip.StoredTimeOfDay | internal/message/vector_encoder.go:206-216 | a TIME or TIME_NS survives exactly when it lies within one day in whole units |
| ValueRoundTrip.StoredTimestamp | internal/message/vector_encoder.go:217-238 | a TIMESTAMP of any unit survives exactly when it is a whole number of units that fits 64 bits |
| RawRoundTrip.RawSurvives | internal/message/vector_codec.go:314-371 | the other way around, for every fixed-width type: a stored number, read as a value, is written back as the same number if and only if writing can produce it (for ENUM, if) |
| RawRoundTrip.WrittenIsHoldable | internal/message/vector_encoder.go:126-200 | what is written for a row is a number that survives being read and written, if and only if no number was given for a DATE or a TIME out of its range (for ENUM, if the position is below 2^31) |
| Vectors.IndexOf | internal/message/vector_encoder.go:262-268 | the first position of an ENUM text |
| StorageMeaning.SignedIntegers | internal/message/vector_codec.go:249-312 | signed integers are two's complements of 1, 2, 4 and 8 bytes and keep their Go type |
| StorageMeaning.UnsignedIntegers | internal/message/vector_codec.go:249-312 | unsigned integers come as the next wider Go type; the upper half of UBIGINT is negative |
| StorageMeaning.BoolsAndFloats | internal/message/vector_codec.go:249-312 | any byte other than zero is true; floats are kept bit for bit |
| StorageMeaning.HugeIntegers | internal/message/vector_codec.go:349-364 | HUGEINT is a two's complement of 16 bytes, UHUGEINT the plain number |
| StorageMeaning.Timestamps | internal/message/vector_codec.go:374-396 | v in TIMESTAMP_SEC, 1,000 v in TIMESTAMP_MS, 1,000,000 v in TIMESTAMP and TIMESTAMP_TZ and 1,000,000,000 v in TIMESTAMP_NS are the same instant |
| StorageMeaning.Instants | internal/message/vector_codec.go:374-396 | the instant that each stored number is, in every type of time, for every 64-bit number |
| StorageMeaning.TimesOfDay | internal/message/vector_codec.go:374-396 | a TIME is the TIME_NS of a thousand times its number |
| StorageMeaning.Dates | internal/message/vector_codec.go:334-342 | DATE d and TIMESTAMP_SEC 86,400 d are the same instant |
| StorageMeaning.Intervals | internal/message/vector_codec.go:365-370 | months and days are the two lower words, microseconds the upper half, all signed |
| StorageMeaning.DecimalNumbers | internal/message/vector_codec.go:408-415 | a DECIMAL is its stored number over 10^scale in lowest terms |
| StorageMeaning.DecimalWidths | internal/quacktype/logical_type.go:308-324 | the storage is the narrowest of 2, 4, 8 and 16 bytes that holds every number of that many digits |
| StorageMeaning.TooWide | internal/quacktype/logical_type.go:308-324 | more than 38 digits have no storage |
| StorageMeaning.EnumWidths | internal/quacktype/logical_type.go:326-339 | the storage of an ENUM is the narrowest of 1, 2 and 4 bytes that holds the number of its values |
| StorageMeaning.EnumPositions | internal/message/vector_codec.go:417-436 | a stored position is the text at that place |
| StorageMeaning.EnumOutOfRange | internal/message/vector_codec.go:417-436 | a position without a text is read as the number |
| StorageMeaning.Identifiers | internal/message/vector_codec.go:441-448 | the hexadecimal digits of a UUID are the stored number with its top bit turned over |
| StorageMeaning.OtherStorage | internal/quacktype/logical_type.go:216-268 | which types are stored as texts, structs, lists and arrays |
| WrittenMeaning.IntegersWrap | internal/message/vector_encoder.go:126-200 | a Go integer of any kind keeps the low bytes that the column has room for, and in BOOLEAN asks whether it is zero |
| WrittenMeaning.UpperHalves | internal/message/vector_codec.go:745-776 | an unsigned 64-bit integer in its upper half counts as negative where it is widened |
| WrittenMeaning.NilIsZero | internal/message/vector_encoder.go:126-200 | a null row is stored as zero in every type |
| WrittenMeaning.OthersAreZero | internal/message/vector_encoder.go:202-247 | a value that is no number is stored as zero where a number is wanted |
| WrittenMeaning.MisplacedAreZero | internal/message/vector_codec.go:745-776 | a bool outside of BOOLEAN, a time outside of the types of times, and a big integer in a narrow column are stored as zero |
| WrittenMeaning.Floats | internal/message/vector_encoder.go:161-164 | floats are stored bit for bit, but a signalling single-precision NaN as the quiet one |
| WrittenMeaning.Intervals | internal/message/vector_encoder.go:194-198 | months and days are the lower words, microseconds the upper half; anything else is the empty interval |
| WrittenMeaning.Texts | internal/message/vector_encoder.go:67-73 | texts and bytes are stored as they are, a null row as the empty text |
| WrittenMeaning.EnumTexts | internal/message/vector_encoder.go:257-272 | an ENUM text is stored as its first place in the list; a text that is not there makes Go panic |
| WrittenMeaning.TextIdentifiers | internal/message/vector_encoder.go:324-349 | a text of 36 bytes with 32 hexadecimal digits of either case and four dashes at any places is stored as their number with its top bit turned over |
| WrittenMeaning.NoIdentifiers | internal/message/vector_encoder.go:324-349 | every other text, but for a plus sign before a half, and every other value is stored as zero |
| WrittenMeaning.BigIntegers | internal/message/vector_encoder.go:178-193 | big integers keep their low sixteen bytes |
| WrittenMeaning.DecimalIntegers | internal/message/vector_encoder.go:274-309 | an integer in a DECIMAL column is multiplied by 10^scale |
| WrittenMeaning.DecimalOthers | internal/message/vector_encoder.go:274-309 | what is neither a number nor a text is stored as zero; a DECIMAL type without parameters makes Go panic |
| WrittenMeaning.DecimalFractions | internal/message/vector_encoder.go:274-309 | a fraction is multiplied by 10^scale and cut off toward zero |
| WrittenMeaning.TimestampsRoundDown | internal/message/vector_encoder.go:218-247 | a time is stored as the last full second, millisecond, microsecond or nanosecond before it, as the type says |
| WrittenMeaning.TimesOfDay | internal/message/vector_encoder.go:206-216 | a TIME is what is left of the instant after whole days, in full microseconds, a TIME_NS in nanoseconds |
| WrittenMeaning.DatesCutOff | internal/message/vector_encoder.go:249-255 | a DATE is the whole days since the epoch, toward zero and never more than 106,751 |
| ChunkRoundTrip.FlatRoundTrip | internal/message/vector_encoder.go:51-80 | a flat column decodes, in prefix form, to its settled form |
| ChunkRoundTrip.RowsSurvive | internal/message/vector_encoder.go:113-124 | the rows that come back are the rows that were written, values and nulls, if and only if every value is canonical |
| ChunkRoundTrip.SettledReencodes | internal/message/vector_encoder.go:45-49 | settling twice is settling once: a column of steady rows is read back with canonical rows, and writing it again gives identical bytes |
| ChunkRoundTrip.ReencodesExactly | internal/message/vector_encoder.go:45-49 | for every type but ENUM the bytes stay the same exactly when every row is steady |
| ChunkRoundTrip.SteadyChunkReencodes | internal/message/vector_encoder.go:20-42 | the same for a whole chunk |
| ChunkRoundTrip.ChunkRoundTrip | internal/message/vector_codec.go:38-61 | an encoded chunk decodes to the same row count, types and settled columns and stops exactly where it ends |
| ChunkRoundTrip.ChunkSurvives | internal/message/vector_encoder.go:20-42 | the chunk survives if and only if its types do |
| ChunkRoundTrip.ChunkRowsSurvive | internal/message/vector_encoder.go:20-42 | the chunk that comes back shows the same rows, column by column, if and only if every row is canonical |
| ChunkRoundTrip.CanonicalChunkSurvives | internal/message/vector_encoder.go:20-42 | a canonical chunk with portable types is read back with the same rows, and writing it again gives identical bytes |
| ChunkRoundTrip.ChunkWrapperRoundTrip | internal/message/vector_encoder.go:13-17 | the same inside the field-300 wrapper |
| ChunkRoundTrip.ValidityOfRows | internal/message/vector_encoder.go:82-111 | the bitmap that is written says exactly which rows are not nil |
| ChunkRoundTrip.StringCountUnchecked | internal/message/vector_codec.go:128-138 | a string column without nulls decodes under any row count and has one row per string |
| VectorDecoder.ReadBody | internal/message/vector_codec.go:71-102 | decoding a column of any layout terminates because every nested call sees strictly fewer bytes; unless the input ends there, the column exists with the chunk's row count, or with its string count when it is a flat string column |
| VectorDecoder.ReadFlat | internal/message/vector_codec.go:104-211 | a flat column has the chunk's row count, and one of string-like storage has the length of its string list |
| VectorDecoder.ReadDictionaryColumn | internal/message/vector_codec.go:88-94 | a dictionary column has one row per selection entry |
| VectorDecoder.ReadConstantColumn | internal/message/vector_codec.go:80-87 | a constant column has the row count whatever its inner column holds |
| VectorDecoder.ReadVector | internal/message/vector_codec.go:64-69 | no forced error is lost in a column closed by its end marker, even at the end of input: its size is exact for every layout |
| VectorDecoder.ReadColumns | internal/message/vector_codec.go:45-53 | one column per type, with the row count unless its storage is string-like; a column without a type can only be nil at the very end of input |
| VectorDecoder.ReadChunk | internal/message/vector_codec.go:38-61 | a chunk that decodes has one column per type, with the row count unless its storage is string-like; the exact sizes are in the two rows below |
| VectorShapes.VectorSize | internal/message/vector_codec.go:64-138 | every column has the row count, but a flat string column has as many rows as its string list is long |
| VectorShapes.ChunkSizes | internal/message/vector_codec.go:38-61 | the same for every column of every chunk that decodes, against the bytes the column was read from |
| VectorDecoder.ReadListEntries | internal/message/vector_codec.go:712-726 | the entry count is the row count unless the input ends there |
| VectorDecoder.ReadMask | internal/message/vector_codec.go:702-710 | a bitmap of the wrong length is an error unless the input ends there |
| ColumnWire.WrapperBytes | internal/message/vector_encoder.go:13-17 | the wrapper is field 300 around the chunk |
| ColumnWire.ChunkBytes | internal/message/vector_encoder.go:20-42 | row count, types and columns in fields 100, 101 and 102, byte for byte |
| ColumnWire.HeaderBytes | internal/message/vector_encoder.go:51-66 | a byte 1 and the bitmap in field 101, or a byte 0 alone |
| ColumnWire.DataBytes | internal/message/vector_encoder.go:67-80 | one blob of fixed-width numbers, or a counted list of texts, in field 102 |
| ColumnWire.LayoutBytes | internal/message/vector_codec.go:71-102 | constant, dictionary and sequence columns are layouts 2, 3 and 4 in field 90, and their fields byte for byte |
| ColumnWire.LeafBytes | internal/message/vector_codec.go:104-138 | a flat column names no layout |
| ColumnWire.NestedBytes | internal/message/vector_codec.go:139-208 | the fields of STRUCT, LIST and ARRAY columns, byte for byte |
| ColumnWire.EntryBytes | internal/message/vector_codec.go:712-726 | a list entry is its offset in field 100 and its length in field 101 |
| ColumnWire.TextKinds | internal/message/vector_codec.go:398-406 | BLOB, BIT and GEOMETRY rows are bytes, all other texts are strings |
| ColumnWire.BitOrder | internal/message/validity.go:37-66 | row k is valid exactly when bit k mod 8, counted from the lowest, of byte k div 8 on the wire is one |
| ColumnWire.BitmapBytes | internal/message/validity.go:52-66 | a bitmap takes eight bytes for every 64 rows begun |
| Malformed.UnknownLayout | internal/message/vector_codec.go:71-102 | a layout number other than 0, 2, 3 and 4 is refused, unless the input ends there |
| Malformed.WrongDataLength | internal/message/vector_codec.go:117-125 | data of another length than the rows need is refused, unless the input ends there |
| Malformed.WrongMaskLength | internal/message/vector_codec.go:702-710 | a bitmap of another length is refused, unless the input ends there |
| Malformed.WrongSelectionLength | internal/message/vector_codec.go:688-700 | a selection that is not four bytes a row is refused, unless the input ends there |
| Malformed.WrongEntryCount | internal/message/vector_codec.go:712-726 | a list of entries of another length is refused, unless the input ends there |
| Malformed.WrongArraySize | internal/message/vector_codec.go:185-191 | an ARRAY of another size than its type says is refused, unless the input ends there |
| Malformed.NoColumnStorage | internal/message/vector_codec.go:104-211 | a type without an encoding in a column is refused, unless the input ends there |
| VectorArrays.DecodeFixedFlatVector | internal/message/vector_codec.go:234-312 | the loops over fixed-width rows build the column that the stored numbers denote |
| VectorArrays.DecodeObjects | internal/message/vector_codec.go:238-247 | object rows: decoded values where valid, nil elsewhere |
| VectorArrays.DecodeNumbers | internal/message/vector_codec.go:249-310 | primitive rows, promoted and reinterpreted as the storage says |
| VectorArrays.ReadRaw | internal/message/vector_codec.go:314-371 | the words of one stored value: two for 128-bit numbers, three for an interval |
| VectorArrays.BroadcastValue | internal/message/vector_codec.go:452-545 | one value over all rows, narrowed to the Go type of the column, or zeros under an all-null bitmap |
| VectorArrays.ProjectVector | internal/message/vector_codec.go:547-654 | row i is dictionary row selection[i]; any index out of range panics |
| VectorArrays.ProjectPrim | internal/message/vector_codec.go:549-648 | the bitmap is allocated at the first null row, null rows stay zero |
| VectorArrays.SequenceVector | internal/message/vector_codec.go:656-682 | the running int64 wraps at each step, which is the same as wrapping once |
| VectorArrays.CollectItems | internal/message/vector_codec.go:178-181 | list items are exactly child rows [offset, offset+length), or a panic |
| VectorArrays.CollectLists | internal/message/vector_codec.go:173-184 | one list per valid row, nil for the others |
| VectorArrays.CollectArrays | internal/message/vector_codec.go:196-208 | array row i is child rows [i*n, (i+1)*n) |
| VectorArrays.CollectFields | internal/message/vector_codec.go:155-160 | each field name maps to the last child column of that name |
| VectorArrays.CollectStructs | internal/message/vector_codec.go:150-163 | one struct per valid row, nil for the others |
| VectorArrays.CollectStrings | internal/message/vector_codec.go:132-138 | one value per valid string |
| VectorReading.DecodeVectorBody | internal/message/vector_codec.go:71-102 | the recursive method agrees with the grammar on value, offset, error and panic, and terminates |
| VectorReading.DecodeConstant | internal/message/vector_codec.go:80-87 | the inner column is read, then its first row repeated |
| VectorReading.DecodeDictionary | internal/message/vector_codec.go:88-94 | selection, dictionary size and dictionary in order, then projected |
| VectorReading.DecodeSequence | internal/message/vector_codec.go:95-98 | start and increment in order |
| VectorReading.DecodeFlatVector | internal/message/vector_codec.go:104-211 | the physical type picks the branch |
| VectorReading.DecodeFlatHeader | internal/message/vector_codec.go:104-114 | an optional geometry field, the presence flag and the bitmap |
| VectorReading.DecodeFixedColumn | internal/message/vector_codec.go:117-125 | a data length that differs from the product of row count and width, wrapped to a Go int, forces an error |
| VectorReading.DecodeStringColumn | internal/message/vector_codec.go:128-138 | the string list decides the rows |
| VectorReading.DecodeStructColumn | internal/message/vector_codec.go:139-163 | child columns in field order, then assembled |
| VectorReading.DecodeListColumn | internal/message/vector_codec.go:164-184 | size, entries and child column in order, then assembled |
| VectorReading.DecodeArrayColumn | internal/message/vector_codec.go:185-208 | a size other than the type's forces an error; the child row count is the wrapped product |
| VectorReading.DecodeVector | internal/message/vector_codec.go:64-69 | a column as an object of its own |
| VectorReading.DecodeColumns | internal/message/vector_codec.go:45-53 | the list loop reads one column per type |
| VectorReading.DecodeDataChunk | internal/message/vector_codec.go:38-61 | the chunk method agrees with the grammar on value, offset, error and panic; a column count that differs forces an error |
| VectorReading.DecodeDataChunkWrapper | internal/message/vector_codec.go:30-35 | the same inside the field-300 wrapper |
| VectorReading.ReadSelectionVector | internal/message/vector_codec.go:688-700 | four bytes per entry as int32, with the expected length wrapped to a Go int |
| VectorReading.ReadValidityMask | internal/message/vector_codec.go:702-710 | the bitmap has the words for the row count or is nil |
| VectorReading.DecodeListEntries | internal/message/vector_codec.go:712-726 | one entry per row or none |
| VectorWriting.EncodeFixedValue | internal/message/vector_encoder.go:126-200 | one row appends exactly the low bytes of its number; 128-bit values and intervals go word by word |
| VectorWriting.EncodeFixedBytes | internal/message/vector_encoder.go:113-124 | the loop writes every row in order |
| VectorWriting.FindEnum | internal/message/vector_encoder.go:262-268 | the search loop finds the first position |
| VectorWriting.FindValidity | internal/message/vector_encoder.go:82-111 | a typed column gives its own bitmap, an object column one built from its nil rows |
| VectorWriting.EncodeStrings | internal/message/vector_encoder.go:67-73 | the loop writes every row's text in order |
| VectorWriting.EncodeFlatBody | internal/message/vector_encoder.go:51-80 | header and data of a flat column in wire form |
| VectorWriting.EncodeVector | internal/message/vector_encoder.go:45-49 | a flat column as an object of its own |
| VectorWriting.EncodeDataChunk | internal/message/vector_encoder.go:20-42 | row count, types and columns in wire form |
| VectorWriting.EncodeColumns | internal/message/vector_encoder.go:37-41 | the loop writes every column with its own type |
| VectorWriting.EncodeDataChunkWrapper | internal/message/vector_encoder.go:13-17 | the field-300 wrapper |
| LayoutMeaning.LayoutMeans | internal/message/vector_codec.go:71-102 | for every nesting of flat, constant, dictionary and sequence layouts with LIST, STRUCT and ARRAY children, over any stored numbers and texts of any type under any bitmap, decoding the wire form gives exactly the rows of the expansion, in prefix form |
| LayoutMeaning.FlatMeans | internal/message/vector_codec.go:104-138 | a flat column of any fixed-width or text type shows the values of its stored numbers and texts where the bitmap says so, and nil elsewhere |
| LayoutMeaning.EncoderWritesLeaf | internal/message/vector_encoder.go:51-80 | what the encoder writes for a column is the wire form of a flat layout |
| LayoutMeaning.ConstantRepeats | internal/message/vector_codec.go:452-524 | a constant repeats its row unchanged exactly when the row has the Go type of the column and is no signalling NaN; for a row read from storage only the NaN is left |
| LayoutMeaning.VectorMeans | internal/message/vector_codec.go:64-69 | the same for a column closed by its end marker |
| LayoutMeaning.ConstantMeans | internal/message/vector_codec.go:452-524 | a constant repeats row 0, null included, narrowed to the Go type of the column |
| LayoutMeaning.DictionaryMeans | internal/message/vector_codec.go:547-654 | dictionary row i is inner row selection[i], nulls carried through |
| LayoutMeaning.SequenceMeans | internal/message/vector_codec.go:656-682 | sequence row i is start+i*incr wrapped to 64 bits and read as the type reads a 64-bit number |
| LayoutMeaning.ListMeans | internal/message/vector_codec.go:164-184 | a valid LIST row is its slice of the child rows, an invalid row is null |
| LayoutMeaning.ArrayMeans | internal/message/vector_codec.go:185-208 | ARRAY row i is the slice of n child rows from i*n, with the products wrapped as Go wraps them |
| VectorLayouts.ItemsFit | internal/message/vector_codec.go:185-205 | when the number of items fits a Go int, no product wraps and every slice lies inside the child |
| LayoutMeaning.ArrayExactly | internal/message/vector_codec.go:185-208 | whatever the products are, over a child of objects or without nulls the column is read exactly when the slice of every valid row lies inside the child, and Go panics otherwise |
| LayoutMeaning.ArrayProductWraps | internal/message/vector_codec.go:185-196 | a wrapped product: four rows of 2^62 items with a constant child fail to decode |
| LayoutMeaning.StructMeans | internal/message/vector_codec.go:139-163 | a STRUCT row maps each distinct field name to that child's row |
| LayoutMeaning.BroadcastRows | internal/message/vector_codec.go:452-524 | every row of a repeated value is that value, narrowed to the Go type of the column |
| Reencoding.FlatReencodes | internal/message/vector_encoder.go:51-80 | a flat column from the wire, decoded and written again, gives the same bytes if and only if it is what the encoder itself would send: nothing under null rows, numbers that writing produces, no format number, no needless bitmap (for ENUM, if) |
| Reencoding.LeafInjective | internal/message/vector_codec.go:104-138 | flat columns are told apart by their bytes |
| LayoutMeaning.NarrowedWraps | internal/message/vector_codec.go:452-524 | an integer of another Go type keeps the low bits that the column has, and BOOLEAN asks whether it is zero |
| MessageRoundTrip.MessageSurvives | internal/message/message_codec.go:11-36 | a message of any of the ten kinds decodes to itself (chunks in settled form) if and only if it is well formed: own header type, no present batch index equal to the sentinel, absent indices zero, portable types |
| MessageRoundTrip.MessageRowsSurvive | internal/message/message_codec.go:11-36 | a well-formed message of any kind comes back with the same header and fields, and with row by row the same chunks if and only if every row is canonical |
| MessageRoundTrip.EncodingInjective | internal/message/message_codec.go:11-20 | equal bytes mean equal messages up to the storage of their chunks, and row by row the same messages when their rows are canonical |
| MessageRoundTrip.FieldsRoundTrip | internal/message/message_codec.go:88-268 | the body of every kind decodes to its settled form if and only if it is well formed |
| MessageRoundTrip.HeaderRoundTrip | internal/message/message_codec.go:64-86 | the header reads back with the written type |
| MessageRoundTrip.ChunkListRoundTrip | internal/message/message_codec.go:282-297 | a chunk pointer list reads back chunk by chunk, and an empty one is left out |
| MessageIO.EncodeMessage | internal/message/message_codec.go:11-20 | the writer never fails, and the bytes are the wire form of header and body |
| MessageIO.EncodeHeader | internal/message/message_codec.go:64-76 | type, optional connection id and query id |
| MessageIO.EncodeBody | internal/message/message_codec.go:88-164 | every kind writes its own fields |
| MessageIO.EncodePrepareResponse | internal/message/message_codec.go:110-131 | empty lists and a false flag are left out, the result id never is |
| MessageIO.EncodeFetchResponse | internal/message/message_codec.go:136-146 | an absent batch index is written as the sentinel |
| MessageIO.EncodeAppendRequest | internal/message/message_codec.go:147-157 | names and the chunk behind its presence flag |
| MessageIO.WriteChunkPointerList | internal/message/message_codec.go:282-287 | the loop writes every chunk in order |
| MessageIO.DecodeMessage | internal/message/message_codec.go:22-36 | the message, an error or a panic exactly as the grammar says; the whole input must be used |
| MessageIO.DecodeHeader | internal/message/message_codec.go:78-86 | type, optional connection id and query id, or a sticky error |
| MessageIO.DecodeBody | internal/message/message_codec.go:167-268 | an unknown kind reads nothing and gives no message |
| MessageIO.DecodeConnectionResponse | internal/message/message_codec.go:180-192 | the version is looked for by peeking, which needs two more bytes |
| MessageIO.DecodePrepareResponse | internal/message/message_codec.go:201-217 | optional lists, flag and chunks in order, then the result id |
| MessageIO.DecodeFetchResponse | internal/message/message_codec.go:226-237 | the sentinel reads as an absent index of zero |
| MessageIO.DecodeAppendRequest | internal/message/message_codec.go:238-251 | an absent chunk reads as the zero chunk |
| MessageIO.DecodeChunks | internal/message/message_codec.go:289-297 | the loop reads exactly the counted chunks or stops at the first error or panic |
| WireBytes.HeaderBytes | internal/message/message_codec.go:64-76 | the number of the message, kind by kind, connection unless it is empty, and query number in fields 1, 2 and 3 |
| WireBytes.RequestBytes | internal/message/message_codec.go:88-164 | the fields of every request, byte for byte |
| WireBytes.ResponseBytes | internal/message/message_codec.go:88-164 | the fields of the other responses, byte for byte |
| WireBytes.PrepareResponseBytes | internal/message/message_codec.go:110-131 | the fields of a prepare response, byte for byte |
| Malformed.AbsentChunk | internal/message/message_codec.go:238-251 | an absent chunk is the zero chunk, whether its pointer says so or its field is missing |
| Malformed.UnknownMessage | internal/message/message_codec.go:22-36 | a message of an unknown kind gives nothing, and only if nothing follows its header |
| Malformed.TrailingBytes | internal/message/message_codec.go:22-36 | bytes behind a message make it fail |
| Params.SubstituteIs | driver/quack/params.go:197-253 | substitution succeeds exactly when there are as many top-level markers as values, and then the k-th marker is the k-th literal and every other byte is unchanged and in order |
| Params.PiecesJoin | driver/quack/params.go:197-253 | cutting the text at its markers and joining the pieces with markers gives the text back |
| Params.ModesPreserved | driver/quack/params.go:204-247 | every byte of the output is scanned in the mode it was meant for, and each literal starts and ends in normal mode, if and only if no literal's minus sign lands directly after a minus sign |
| Params.RescanUnchanged | driver/quack/params.go:197-253 | without such a clash, scanning the output with no values succeeds and returns it unchanged |
| Params.DashesClash | driver/quack/params.go:204-247 | the text 1-? with the literal -1 becomes 1--1, whose end is scanned as a comment |
| Params.ClashExposesMarker | driver/quack/params.go:197-253 | after a clash a marker inside a string can come to light, so that the output cannot be scanned again |
| SqlTokens.TokensSubstituted | driver/quack/params.go:197-253 | for a text spelled as strings, identifiers, comments, markers and other bytes, substitution replaces exactly the markers, and fails exactly with too few or too many values |
| SqlTokens.EveryText | driver/quack/params.go:197-253 | every text is spelled so |
| SqlTokens.MarkersAreTokens | driver/quack/params.go:197-253 | the markers that the scanner counts are the marker tokens |
| SqlTokens.PlainMarkers | driver/quack/params.go:197-253 | without quotes and comments every question mark is a marker |
| SqlTokens.RegionCopied | driver/quack/params.go:226-234 | a quoted string or identifier hides its markers, and scanning goes on behind it as at the start |
| SqlTokens.LineCommentCopied | driver/quack/params.go:204-247 | a comment up to the end of its line hides its markers |
| SqlTokens.BlockCommentCopied | driver/quack/params.go:204-247 | a bracketed comment hides its markers up to its first closing; nesting is not known |
| SqlTokens.ShortCommentCopied | driver/quack/params.go:204-247 | slash, star, slash is a whole comment |
| SqlTokens.UnclosedCopied | driver/quack/params.go:204-247 | a region that is never closed hides the rest of the text |
| Literals.LiteralsAreClosed | driver/quack/params.go:161-192 | every literal of a well-formed scalar starts and ends in normal mode with no marker left, whatever quotes, markers or dashes its string holds |
| Literals.EscapeDenotes | driver/quack/params.go:175-176 | reading the quoted literal back as SQL does gives the string |
| Literals.DecimalDenotes | driver/quack/params.go:142-157 | reading a decimal literal back gives the unscaled value and the scale |
| LiteralMeaning.RenderedMeans | driver/quack/params.go:161-192 | a reader of SQL literals gives back the value that was bound, of every kind |
| LiteralMeaning.HexMeans | driver/quack/params.go:177-184 | the escapes of a blob spell exactly its bytes |
| LiteralMeaning.NegativeScaleIsLost | driver/quack/params.go:142-146 | a decimal of negative scale is written without its scale: only zero keeps its value |
| ParamBinding.SubstituteParams | driver/quack/params.go:197-253 | the one-pass scanner with its four flags and one byte of lookahead computes the substitution |
| ParamBinding.DecimalLiteral | driver/quack/params.go:142-157 | padding zero by zero gives the decimal text |
| ParamBinding.BoundStatementStable | driver/quack/params.go:161-253 | with the rendered values of a row the output is stable under its own scanner |
| BoundStatements.ExecuteBoundUpdate | driver/quack/params.go:332-352 | one statement per bound row goes out in order, up to the first that does not bind or is refused; the total counts the rows of every answer |
| BoundStatements.BoundWorksAre | driver/quack/params.go:332-341 | each statement is the text with its own row's literals, and all rows bind exactly when each has as many values as the text has markers |
| Transactions.EveryRun | driver/quack/driver.go:113-121 | on every run, with any requests failing: the server has committed exactly what was reported, txOpen is the server's own state, autocommit implies no transaction, no BEGIN, COMMIT or ROLLBACK is sent out of place, and closing loses only what waits |
| Transactions.RunFaithful | driver/quack/driver.go:150-217 | the same from any faithful state |
| Transactions.StepFaithful | driver/quack/driver.go:150-352 | every operation keeps the flags true to the server |
| Transactions.LazyRefinesEager | driver/quack/driver.go:228-237 | same reports and same committed history as a driver that begins as soon as autocommit goes off, also after the final close; only the requests in which the two differ are asked to succeed |
| Transactions.LazyMatchesEager | driver/quack/driver.go:303-352 | the same from any pair of matching states |
| Transactions.EndingLeavesNone | driver/quack/driver.go:150-217 | after a successful end no transaction is open, and without one the operation leaves the server as it is |
| Transactions.OpenExactly | driver/quack/driver.go:146-237 | on every run a transaction is open exactly when some operation began one and none since has ended it, and it is idle exactly when moreover no statement since has taken effect |
| Transactions.UpdateWithoutSqlIsIdle | driver/quack/driver.go:327-336 | an update without SQL, with autocommit off, is refused after BEGIN and leaves an idle transaction open |
| TransactionLaws.StatementLaw | driver/quack/driver.go:303-352 | a query or an update succeeds exactly when its SQL is set where that is checked, it is sound, the BEGIN it needs is granted and every statement is; the server's history grows by exactly the statements before the first that is not granted, all of them on success |
| TransactionLaws.CommitLaw | driver/quack/driver.go:150-166 | with autocommit an error, without a transaction nothing; else it stands or falls with COMMIT |
| TransactionLaws.RollbackLaw | driver/quack/driver.go:168-182 | the same with ROLLBACK, and what waits is dropped |
| TransactionLaws.AutoCommitLaw | driver/quack/driver.go:184-217 | switching on commits what is open and fails with that; switching off changes nothing on the server |
| TransactionLaws.UnknownValueLaw | driver/quack/driver.go:212-216 | another value is an error without effect |
| TransactionLaws.DoneExactly | driver/quack/params.go:332-352 | the statements that take effect are those before the first that is not granted |
| TransactionLaws.RunsAreAligned | driver/quack/driver.go:150-237 | every state that a run reaches meets the premise of these laws |
| Connections.Connection.BeginTxIfNeeded | driver/quack/driver.go:228-237 | BEGIN alone is sent, exactly with autocommit off and no transaction open; the transaction opens exactly when it is granted |
| Connections.Connection.CommitTx | driver/quack/driver.go:150-166 | COMMIT alone is sent, exactly for an open transaction; with autocommit it is an error and nothing is sent |
| Connections.Connection.RollbackTx | driver/quack/driver.go:168-182 | ROLLBACK alone is sent, exactly for an open transaction; with autocommit it is an error and nothing is sent |
| Connections.Connection.SetAutoCommitOption | driver/quack/driver.go:184-217 | switching on sends COMMIT exactly for an open transaction and stays off when that fails; nothing else is sent |
| Connections.Connection.Close | driver/quack/driver.go:113-121 | ROLLBACK is sent exactly for an open transaction, then the session ends |
| Connections.Connection.RunStatements | driver/quack/params.go:332-352 | statements go out in turn up to and including the first that is refused |
| Connections.Connection.ExecuteQuery | driver/quack/driver.go:303-325 | the SQL check comes before BEGIN: exactly which requests are sent, and which of them are granted |
| Connections.Connection.ExecuteUpdate | driver/quack/driver.go:327-352 | BEGIN comes before the SQL check: exactly which requests are sent, and which of them are granted |
| Cursors.StreamIsPrefix | driver/quack/session.go:126-157 | the lazy stream is a prefix of what drainAll receives, and all of it unless an answer that is reached and brings chunks follows an empty answer that promised more |
| Cursors.BufferIsEndOfLatest | driver/quack/session.go:126-179 | after any number of steps the answers are used up from the front, and the buffer is a suffix of the last answer that came, or of the first chunks when none came |
| Cursors.StreamIsDrain | driver/quack/session.go:126-157 | when every answer with a batch index carries a chunk, both paths give the same chunks and fail alike |
| Cursors.EmptyAnswerLosesChunks | driver/quack/session.go:130-137 | one empty answer with a batch index makes the lazy path lose the chunks behind it |
| Cursors.RecordsAreNonEmptyChunks | driver/quack/record_reader.go:76-107 | the reader yields exactly the non-empty chunks in order, up to one that cannot be converted, and ends without an error exactly when it could convert them all and no fetch failed |
| Cursors.EveryRowIsRead | driver/quack/record_reader.go:76-107 | total rows are conserved from server to reader, and the reader ends without an error exactly when draining meets no failed fetch |
| Cursors.StreamFails | driver/quack/session.go:126-141 | reading lazily fails exactly when a refused answer is asked for, that is, when all answers before it bring chunks and promise more |
| Cursors.DrainFails | driver/quack/session.go:146-157 | draining fails exactly when a refused answer is asked for |
| Cursors.RowsConserved | driver/quack/record_reader.go:97-99 | leaving out empty chunks loses no row |
| Cursors.Session.NextQueryId | driver/quack/session.go:255-257 | every request carries an id that was not used before |
| Cursors.Session.Send | driver/quack/session.go:159-168 | one request, one answer, one fresh id |
| Cursors.Cursor.constructor | driver/quack/session.go:87-94 | the first chunks and the need for more come from the prepare response |
| Cursors.Cursor.FetchMore | driver/quack/session.go:159-179 | the answer's chunks are appended and become the last answer; its batch index decides whether more is needed |
| Cursors.Cursor.NextChunk | driver/quack/session.go:126-141 | one chunk, the end or an error as the lazy step says; the buffer stays a suffix of the last answer that came; a closed cursor gives the end |
| Cursors.Cursor.DrainAll | driver/quack/session.go:146-157 | the loop returns every remaining chunk in order, or nothing after an error, and leaves the buffer empty |
| Cursors.Cursor.Close | driver/quack/session.go:181-187 | nothing is left in hand |
| Cursors.StreamingRecordReader.Next | driver/quack/record_reader.go:76-107 | skips empty chunks, stops for good at the end or at an error |
| Cursors.StreamingRecordReader.Retain | driver/quack/record_reader.go:43-45 | one more reference |
| Cursors.StreamingRecordReader.Release | driver/quack/record_reader.go:47-56 | only the last release drops the record and closes the cursor |
| Cursors.StreamingRecordReader.ReadAll | driver/quack/params.go:308-322 | the loop gathers exactly the records of a result in order, and drops them all when the reader ends in an error |
| BulkIngest.IngestRoundTrip | driver/quack/bulk_ingest.go:251-270 | Arrow record to chunk to wire to chunk to Arrow record: the bytes decode; the chunk becomes a record without a panic if and only if no decimal is stored as -2^127; and the record is the one sent if and only if no decimal column of positive scale holds a value other than zero and no single-precision column holds a signalling NaN |
| BulkIngest.RowSurvives | driver/quack/arrow_conv.go:160-327 | one row there and back, for every supported array type: when reading it panics, and when it is unchanged |
| BulkIngest.PlainDatum | driver/quack/arrow_conv.go:194-250 | promoting, reinterpreting and narrowing are undone for every value of bool, the eight integer types, both float types, string and binary, except that a signalling single-precision NaN comes back quiet |
| BulkIngest.DecimalRow | driver/quack/bulk_ingest.go:425-436 | an ingested decimal comes back multiplied by 10^scale modulo its storage, hence unchanged exactly for scale 0 or value 0; reading panics exactly when the storage holds -2^127 |
| BulkIngest.LowestDecimalPanics | driver/quack/arrow_conv.go:311-327 | 2^89 in a DECIMAL(38,38) column is stored as -2^127, which Arrow cannot hold |
| BulkIngest.DecimalIngestScales | driver/quack/bulk_ingest.go:425-436 | 1.00 comes back as 100.00 |
| BulkIngest.ScaledIsOther | internal/message/vector_encoder.go:284-285 | multiplying by 10^scale changes every value but zero, even modulo the storage width |
| BulkIngest.ColumnSurvives | driver/quack/bulk_ingest.go:315-424 | a column reads back as itself exactly when all its rows do |
| BulkIngest.VectorForRow | driver/quack/bulk_ingest.go:315-424 | row i of the converted column is the i-th Arrow value, nil for null |
| BulkIngest.CreatableIsIngestable | driver/quack/bulk_ingest.go:200-249 | for a schema of which a table can be created, conversion fails exactly when some column is large, a date or a timestamp; what can be converted can be created |
| BulkIngest.DatesAreNotIngested | driver/quack/bulk_ingest.go:200-249 | a table with a date column can be created, and not even an empty record can be sent to it |
| TypeNames.NamesDenote | driver/quack/bulk_ingest.go:200-249 | CREATE TABLE has a name for an Arrow type exactly when there is a logical type for it, and the name, read by itself with its parameters, denotes that type |
| ArrowMeaning.SignedStored | driver/quack/bulk_ingest.go:315-424 | Arrow signed integers are stored as two's complements |
| ArrowMeaning.UnsignedStored | driver/quack/bulk_ingest.go:315-424 | Arrow unsigned integers are stored as they are |
| ArrowMeaning.BoolsStored | driver/quack/bulk_ingest.go:315-424 | an Arrow bool is stored as 0 or 1 |
| ArrowMeaning.WideStored | driver/quack/bulk_ingest.go:315-424 | 64-bit unsigned integers are stored as they are, although the column holds the upper half as negative |
| ArrowMeaning.FloatsStored | driver/quack/bulk_ingest.go:315-424 | floats are stored bit for bit, but a signalling single-precision NaN as the quiet one |
| ArrowMeaning.TextsStored | driver/quack/bulk_ingest.go:315-424 | texts and bytes are stored as they are |
| ArrowMeaning.DecimalsStored | driver/quack/bulk_ingest.go:425-436 | a decimal is stored as 10^scale times its number |
| ArrowMeaning.SignedRead | driver/quack/arrow_conv.go:160-250 | stored two's complements are the signed integers |
| ArrowMeaning.UnsignedRead | driver/quack/arrow_conv.go:160-250 | unsigned numbers come back whole, and any byte but zero is true |
| ArrowMeaning.WideRead | driver/quack/arrow_conv.go:160-250 | every number of a UBIGINT column comes back whole |
| ArrowMeaning.FloatsRead | driver/quack/arrow_conv.go:160-250 | floats keep their bits, but for a signalling single-precision NaN |
| ArrowMeaning.DecimalsRead | driver/quack/arrow_conv.go:311-327 | a stored DECIMAL is the Arrow decimal with that unscaled number, whatever its scale |
| ArrowMeaning.TextsRead | driver/quack/arrow_conv.go:251-271 | texts and bytes are read as they are |
| ArrowMeaning.OthersRead | driver/quack/arrow_conv.go:160-250 | what is no integer is zero to an integer array, and a DECIMAL without parameters has 38 digits and no scale |
| IngestStatements.BuildValidity | driver/quack/bulk_ingest.go:441-452 | no bitmap without nulls, otherwise exactly the null rows are cleared |
| IngestStatements.DecodedVectorForArrow | driver/quack/bulk_ingest.go:315-439 | the loops build the converted column, or fail for an array type without a case |
| IngestStatements.ChunkFromRecord | driver/quack/bulk_ingest.go:251-270 | every column in order, or failure at the first that cannot be converted |
| IngestStatements.BuildColumn | driver/quack/arrow_conv.go:160-271 | each row is appended as null or as its value |
| IngestStatements.IngestStatement.ExecuteIngest | driver/quack/bulk_ingest.go:58-108 | success means every pending record was converted and accepted in order and the total counts their rows; without its table nothing is sent, else exactly the records before the first that cannot be converted or is refused are accepted; nothing stays bound |
| IngestStatements.IngestStatement.PumpAll | driver/quack/bulk_ingest.go:92-106 | exactly the records before the first that cannot be converted or is refused are accepted |
| IngestStatements.IngestStatement.Pump | driver/quack/bulk_ingest.go:80-90 | nothing is sent for a record that cannot be converted |
| IngestStatements.RowsConserved | driver/quack/bulk_ingest.go:79-107 | the rows reported are the rows of the chunks sent |

## Left out

Contracts that are weaker than what the code does:

- TypeIO.DecodePayload: on malformed input the error and the offset rule are stated, not the partly filled value that is handed back beside the error; the same holds for the methods it calls.
- VectorReading.DecodeVectorBody: after the error is set Go may still panic on a nil child column; the contract then allows either an ordinary return or a panic.
- MessageIO.DecodeMessage: the same holds for the chunks inside a malformed message.
- MessageRoundTrip.EncodingInjective: messages with rows that storage does not keep are told apart only up to their settled forms, since such rows can be written alike.
- BinaryReaders.BinaryReader.Ensure: which error is set is modelled by operation and offset, its text is not.
- Transactions.LazyRefinesEager: the lazy driver's BEGIN is taken to succeed, and so are the COMMIT and ROLLBACK requests that only the eager driver sends; its own early BEGIN always succeeds. Requests that both send may fail.
- Transactions.EveryRun: a failed request is taken to have no effect on the server.
- IngestStatements.IngestStatement.ExecuteIngest: the CREATE TABLE request is one success flag, without its text and mode.
- VectorWriting.EncodeFixedValue: decimals given as text or floats, floats in columns of other types, and times of day in DATE columns that are not whole hours are not among the rows that can be written, although the code converts them; nor are times before the first year of Go's calendar in TIME columns.
- RawRoundTrip.RawSurvives: for ENUM only one direction is claimed, since a number out of range is written by its decimal text, which may be an ENUM text; the same holds for Reencoding.FlatReencodes and ChunkRoundTrip.ReencodesExactly.
- VectorWriting.EncodeStrings: rows that hold neither text nor bytes nor nil, which the code formats, are not among them either.
- IngestStatements.BuildColumn: covers the builders of the types that ingest produces; temporal, UUID and nested builders, and conversions between floats and other numbers, are outside it.
- ChunkRoundTrip.ChunkRoundTrip: columns are taken to fit Go slices (sixteen bytes per row within MaxInt), and a nil slice and an empty one are one value.

What the model does not contain:

- HTTP transport, URI and token resolution, the cgo wrapper, metadata queries and Python packaging: the server is a list of answers or a small state machine.
- Memory management: Arrow builders, reference counts of batches, and allocation failures for huge lengths. Reader offsets are mathematical integers, so a blob whose length and offset add up to more than MaxInt is an error, where the sum wraps in Go.
- Locations of times: a time.Time is the instant it denotes, in nanoseconds since the epoch.
- Conversions between floats and integers: float columns are bit patterns and only meet float storage. Widening a single-precision value and narrowing it again is taken to set the quiet bit of a NaN and change nothing else (section 6.2 of IEEE 754-2019).
- Sequence layouts of FLOAT and DOUBLE in the layout theorem.
- Layouts whose indices or entries point outside their column: they are a panic in the decoder and outside the layout theorem.
- A decimal of negative scale in Arrow records.
- Bitwise operators are written as arithmetic: or-ing disjoint bits is addition, shifting is multiplication or division.
- Nested result columns in Arrow, UUID and temporal builders, and the formatting of dates and floats inside literals, which are parameters of a scalar.
- The concatenation of the records of several bound rows into one reader; the loop that gathers one row's records is `Cursors.StreamingRecordReader.ReadAll`.
- Statements in which a user writes BEGIN, COMMIT or ROLLBACK, and concurrent use of one connection.
- Full SQL lexing (dollar quotes, nested comments): the scanner's own four modes are the reference.
