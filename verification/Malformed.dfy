/** What the decoders make of fields that are missing, and which inputs they refuse. */
module Malformed {
  import opened Numbers
  import opened Wire
  import opened QuackTypes
  import opened TypeCodec
  import opened TypeRoundTrip
  import opened HugeInts
  import opened Validity
  import opened Vectors
  import opened VectorEncoder
  import opened VectorDecoder
  import opened Messages
  import opened WireBytes
  import opened MessageRoundTrip

  // ---- missing fields of a type ----

  /** The next field of the bytes has another id. */
  lemma OtherField(id: Byte, next: Byte, rest: Bytes)
    requires id != next
    ensures Optional(id, F(next, rest)) == Ok(false, F(next, rest))
  {
    FieldIs(next);
    OptionalField(id, next, rest);
    assert Field(next, rest) == F(next, rest);
  }

  lemma SameField(id: Byte, rest: Bytes)
    ensures Optional(id, F(id, rest)) == Ok(true, rest) && Require(id, F(id, rest)) == Ok((), rest)
  {
    FieldIs(id);
    OptionalField(id, id, rest);
    RequireField(id, rest);
    assert Field(id, rest) == F(id, rest);
  }

  lemma NoField(id: Byte, rest: Bytes)
    ensures Optional(id, X(rest)) == Ok(false, X(rest))
  {
    EndIs();
    OptionalField(id, FIELD_END, rest);
    assert End(rest) == X(rest);
  }

  lemma NumberReads(n: Int64, rest: Bytes)
    requires n >= 0
    ensures ReadUlebInt(N(n, rest)) == Ok(n, rest)
  {
    NumberIs(n);
    IntRoundTrip(n, rest);
    assert Int(n, rest) == N(n, rest);
  }

  /** A DECIMAL without its scale has scale 0, and one without its width has width 0. */
  lemma {:induction false} DecimalDefaults(width: Int64, scale: Int64, alias: Text, rest: Bytes)
    requires width >= 0 && scale >= 0
    ensures ReadPayload(2, alias, F(200, N(width, X(rest)))) == Ok(DecimalInfo(width, 0, alias), X(rest))
    ensures ReadPayload(2, alias, F(201, N(scale, X(rest)))) == Ok(DecimalInfo(0, scale, alias), X(rest))
    ensures ReadPayload(2, alias, X(rest)) == Ok(DecimalInfo(0, 0, alias), X(rest))
  {
    hide Optional, ReadUlebInt, Uleb;
    SameField(200, N(width, X(rest)));
    SameField(201, N(scale, X(rest)));
    OtherField(200, 201, N(scale, X(rest)));
    NumberReads(width, X(rest));
    NumberReads(scale, X(rest));
    NoField(200, rest);
    NoField(201, rest);
  }

  /** A STRUCT without its list has no children; missing texts are empty. */
  lemma {:induction false} TypeDefaults(alias: Text, rest: Bytes)
    ensures ReadPayload(5, alias, X(rest)) == Ok(StructInfo([], alias), X(rest))
    ensures ReadPayload(3, alias, X(rest)) == Ok(StringInfo([], alias), X(rest))
    ensures ReadPayload(12, alias, X(rest)) == Ok(TemplateInfo([], alias), X(rest))
    ensures ReadPayload(13, alias, X(rest)) == Ok(GeoInfo([], alias), X(rest))
    ensures ReadPayload(7, alias, X(rest)) == Ok(UnboundInfo([], [], [], alias), X(rest))
  {
    hide Optional;
    NoField(200, rest);
    NoField(201, rest);
    NoField(202, rest);
  }

  /** The presence flag of extension data is read and dropped. */
  lemma {:induction false} ExtensionSkipped(flag: bool, rest: Bytes)
    ensures SkipExtension(F(103, [if flag then 1 else 0] + rest)) == Ok((), rest)
  {
    hide Optional;
    SameField(103, [if flag then 1 else 0] + rest);
    BoolRoundTrip(flag, rest);
  }

  /** An ENUM whose count is not the length of its list is refused, unless the input ends there. */
  lemma {:induction false} EnumCountChecked(count: Int64, values: Slice<Text>, alias: Text, rest: Bytes)
    requires count >= 0
    ensures ReadPayload(6, alias, F(200, N(count, F(201, N(|values|, Texts(values, rest))))))
            == if count == |values| || rest == [] then Ok(EnumInfo(values, alias), rest) else Fail
  {
    hide Require, ReadUlebInt, Uleb, Texts, ReadTexts;
    var s1 := Texts(values, rest);
    SameField(200, N(count, F(201, N(|values|, s1))));
    NumberReads(count, F(201, N(|values|, s1)));
    SameField(201, N(|values|, s1));
    NumberReads(|values|, s1);
    TextsRoundTrip(values, rest);
  }

  // ---- primitives ----

  /** A byte other than 0 and 1 is no boolean. */
  lemma BadBoolean(b: Byte, rest: Bytes)
    ensures ReadBool([b] + rest) == if b > 1 then Fail else Ok(b == 1, rest)
  {
    assert ([b] + rest)[1..] == rest;
  }

  /** A required field must come next. */
  lemma WrongField(id: Byte, next: Byte, rest: Bytes)
    ensures Require(id, F(next, rest)) == if id == next then Ok((), rest) else Fail
  {
    SameField(next, rest);
  }

  /** Only the end marker ends an object. */
  lemma {:induction false} MissingEnd(id: Byte, rest: Bytes)
    ensures ReadEnd(F(id, rest)) == Fail
  {
    WrongField(id, id, rest);
  }

  /** A length beyond the end of input is refused. */
  lemma {:induction false} BlobTooLong(n: Int64, rest: Bytes)
    requires n > |rest|
    ensures ReadBlob(N(n, rest)) == Fail
  {
    hide ReadUlebInt, Uleb;
    NumberReads(n, rest);
  }

  /** Nothing can be read at the end of input, except that optional fields are absent; half a field id is an error. */
  lemma AtTheEnd(id: nat, half: Byte)
    ensures ReadUleb([]) == Fail && ReadSleb([]) == Fail && ReadBool([]) == Fail && ReadBlob([]) == Fail
    ensures Require(id, []) == Fail && Require(id, [half]) == Fail
    ensures Optional(id, []) == Ok(false, []) && Optional(id, [half]) == Fail
  {
  }

  // ---- columns ----

  /** A layout number other than 0, 2, 3 and 4 is refused, unless the input ends there. */
  lemma {:induction false} UnknownLayout(t: LogicalType, count: int, layout: Int64, rest: Bytes)
    requires layout >= 0 && layout !in {0, 2, 3, 4}
    ensures ReadBody(t, count, F(90, N(layout, rest))) == if rest == [] then Ok(None, rest) else Fail
  {
    hide Optional, ReadUlebInt, Uleb, ReadFlat, ReadConstantColumn, ReadDictionaryColumn, ReadSequenceColumn;
    SameField(90, N(layout, rest));
    NumberReads(layout, rest);
  }

  /** Data of another length than the rows need is refused, unless the input ends there. */
  lemma {:induction false} WrongDataLength(t: LogicalType, count: nat, validity: Validity, data: Slice<Byte>,
                                           rest: Bytes)
    requires Physical(t).ConstantSize() && MaskFits(validity, count) && 16 * count <= MAX_INT
    requires |data| != Physical(t).ByteWidth() * count
    ensures ReadFixedColumn(t, count, validity, F(102, Blob(data, rest)))
            == if rest == [] then Ok(None, rest) else Fail
  {
    hide Require, ReadBlob, Blob;
    SameField(102, Blob(data, rest));
    BlobRoundTrip(data, rest);
    MulRange(count, Physical(t).ByteWidth(), 16);
    SignedOfMod(Physical(t).ByteWidth() * count, TWO_64);
  }

  /** So is a bitmap of another length, */
  lemma WrongMaskLength(count: nat, mask: Slice<Byte>, rest: Bytes)
    requires count <= MAX_INT - 63 && |mask| != WireByteCount(count)
    ensures ReadMask(count, Blob(mask, rest)) == if rest == [] then Ok(None, rest) else Fail
  {
    hide ReadBlob, Blob;
    BlobRoundTrip(mask, rest);
  }

  /** a selection that is not four bytes a row, */
  lemma WrongSelectionLength(count: nat, data: Slice<Byte>, rest: Bytes)
    requires 4 * count <= MAX_INT && |data| != 4 * count
    ensures ReadSelection(count, Blob(data, rest)) == if rest == [] then Ok([], rest) else Fail
  {
    hide ReadBlob, Blob;
    BlobRoundTrip(data, rest);
    SignedOfMod(4 * count, TWO_64);
  }

  /** a list of entries of another length, */
  lemma {:induction false} WrongEntryCount(count: int, n: Int64, s: Bytes)
    requires n >= 0 && n != count && ReadEntries(n, s).Ok?
    ensures var rest := ReadEntries(n, s).rest;
            ReadListEntries(count, N(n, s)) == if rest == [] then Ok([], rest) else Fail
  {
    hide ReadUlebInt, Uleb, ReadEntries;
    NumberReads(n, s);
  }

  /** and an ARRAY of another size than its type says. */
  lemma {:induction false} WrongArraySize(t: LogicalType, count: int, validity: Validity, size: Int64, rest: Bytes)
    requires MaskFits(validity, count) && size >= 0 && size != ArraySize(t)
    ensures ReadArrayColumn(t, count, validity, F(103, N(size, rest))) == if rest == [] then Ok(None, rest) else Fail
  {
    hide Require, ReadUlebInt, Uleb, ReadVector;
    SameField(103, N(size, rest));
    NumberReads(size, rest);
  }

  /** Types without an encoding in a column are refused. */
  lemma {:induction false} NoColumnStorage(t: LogicalType, count: int, s: Bytes)
    requires var p := Physical(t);
             !p.ConstantSize() && !p.PVarchar? && !p.PStruct? && !p.PList? && !p.PArray?
    requires ReadFlatHeader(t, count, s).Ok?
    ensures var rest := ReadFlatHeader(t, count, s).rest;
            ReadFlat(t, count, s) == if rest == [] then Ok(None, rest) else Fail
  {
    hide ReadFlatHeader;
  }

  // ---- messages ----

  /** An absent chunk is the zero chunk, whether its pointer says so or its field is missing. */
  lemma {:induction false} AbsentChunk(schemaName: Text, tableName: Text, rest: Bytes)
    requires schemaName != [] && tableName != []
    ensures ReadChunkPointer([0] + rest) == Ok(DataChunk(0, [], []), rest)
    ensures ReadFields(9, F(1, T(schemaName, F(2, T(tableName, X(rest))))))
            == Ok(AppendRequest(schemaName, tableName, DataChunk(0, [], [])), X(rest))
  {
    hide Optional, ReadBlob, Blob, Uleb, ReadChunkWrapper;
    assert ReadChunkPointer([0] + rest) == Ok(NO_CHUNK, rest) by {
      BadBoolean(0, rest);
    }
    var s1 := F(2, T(tableName, X(rest)));
    SameField(1, T(schemaName, s1));
    SameField(2, T(tableName, X(rest)));
    TextReads(schemaName, s1);
    TextReads(tableName, X(rest));
    NoField(3, rest);
  }

  lemma TextReads(text: Text, rest: Bytes)
    ensures ReadBlob(T(text, rest)) == Ok(text, rest)
  {
    hide Uleb;
    TextIs(text);
    BlobRoundTrip(text, rest);
    assert Blob(text, rest) == T(text, rest);
  }

  /** A message of a kind that is not known gives nothing, and only if nothing follows its header. */
  lemma {:induction false} UnknownMessage(kind: Int64, connection: Text, query: Uint64, rest: Bytes)
    requires kind >= 0 && kind !in {1, 2, 3, 4, 7, 8, 9, 10, 11, 100}
    ensures Decode(F(1, N(kind, Maybe(2, connection, F(3, N(query, X(rest)))))))
            == if rest == [] then Ok(None, rest) else Fail
  {
    hide ReadHeader, ReadFields, Uleb;
    var h := MessageHeader(kind, connection, query);
    HeaderRoundTrip(h, kind, rest);
    HeaderIs(h, kind, rest);
  }

  lemma HeaderIs(h: MessageHeader, kind: Int64, rest: Bytes)
    requires kind >= 0
    ensures Header(h, kind, rest) == F(1, N(kind, Maybe(2, h.connectionId, F(3, N(h.clientQueryId, X(rest))))))
  {
    hide Field, Uleb, NonEmpty, Maybe;
    FieldIs(1);
    FieldIs(3);
    NonEmptyIs(2, h.connectionId);
    NumberIs(kind);
    EndIs();
  }

  /** Bytes behind a message make it fail. */
  lemma {:induction false} TrailingBytes(m: Message, rest: Bytes)
    requires ContentEncodable(m.content) && WellFormed(m)
    ensures Decode(Header(m.header, KindOf(m.content), Body(m.content, rest)))
            == if rest == [] then Ok(Some(Settled(m)), []) else Fail
  {
    hide Body, ReadFields, ReadHeader, Header, ContentWellFormed, SettledContent;
    HeaderRoundTrip(m.header, KindOf(m.content), Body(m.content, rest));
    FieldsRoundTrip(m.content, rest);
    EndRoundTrip(rest);
  }
}
