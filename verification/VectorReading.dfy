/** Columns and chunks through the reader: the recursive methods follow the grammar of VectorDecoder. */
module VectorReading {
  import opened Numbers
  import opened Wire
  import opened QuackTypes
  import opened Validity
  import opened ValidityArrays
  import opened TypeCodec
  import opened Vectors
  import opened VectorDecoder
  import opened BinaryReaders
  import opened VectorArrays
  import TypeIO

  /**
   What a read that may panic promises: as for every read, and it panics wherever the grammar says so on a reader
   without an error. Once the error is set, a panic may still follow it.
   */
  ghost predicate Ended<T>(r: BinaryReader, was: Mark, spec: Read<T>, out: Go<T>)
    reads r
  {
    r.Valid() && was.offset <= r.offset
    && (was.err.Some? ==> r.Now() == was)
    && (was.err.None? && spec.Ok? ==> r.err.None? && r.Rest() == spec.rest && out == Returned(spec.value))
    && (was.err.None? && spec.Fail? ==> r.err.Some?)
    && (was.err.None? && spec.Panic? ==> out.Panicked?)
  }

  // ---- building blocks ----

  method ReadValidityMask(r: BinaryReader, count: int) returns (validity: Validity)
    requires r.Valid()
    modifies r
    ensures r.After(old(r.Now()), ReadMask(count, old(r.Rest())), validity) && MaskFits(validity, count)
  {
    var bytes := r.ReadText();
    if !(-63 <= count <= MAX_INT - 63) || |bytes| != WireByteCount(NonNegative(count)) {
      r.ForceEof();
      return None;
    }
    var words := BitmapFromBytes(bytes, NonNegative(count));
    return Some(words[..]);
  }

  /** Making a slice for a row count whose product wrapped panics. */
  method ReadSelectionVector(r: BinaryReader, count: int) returns (out: Go<seq<int>>)
    requires r.Valid()
    modifies r
    ensures Ended(r, old(r.Now()), ReadSelection(count, old(r.Rest())), out)
  {
    hide ReadBlob, RawsOf;
    var bytes := r.ReadText();
    if |bytes| != ToInt64(4 * count) {
      r.ForceEof();
      return Returned([]);
    }
    if |bytes| != 4 * count {
      return Panicked;
    }
    var selection := SelectionOf(bytes, count);
    return Returned(selection);
  }

  method SelectionOf(bytes: Bytes, count: nat) returns (selection: seq<int>)
    requires |bytes| == 4 * count
    ensures selection == Int32s(RawsOf(4, count, bytes))
  {
    hide RawsOf, ReadLe, RawsLeft;
    ghost var raws := RawsOf(4, count, bytes);
    var out := new int[count](_ => 0);
    assert bytes[0..] == bytes;
    RawsStart(4, count, bytes);
    for i := 0 to count
      invariant RawsLeft(4, count, bytes, i, bytes[4 * i..])
      invariant forall j | 0 <= j < i :: out[j] == Signed(raws[j], TWO_32)
    {
      RawsNext(4, count, bytes, i, bytes[4 * i..]);
      var raw := GetLittleEndian(4, bytes[4 * i..]);
      assert bytes[4 * i..][4..] == bytes[4 * (i + 1)..];
      out[i] := Signed(raw, TWO_32);
    }
    return out[..];
  }

  method DecodeEntry(r: BinaryReader) returns (e: ListEntry)
    requires r.Valid()
    modifies r
    ensures r.After(old(r.Now()), ReadEntry(old(r.Rest())), e)
  {
    var offset := TypeIO.DecodeRequiredInt(r, 100);
    var length := TypeIO.DecodeRequiredInt(r, 101);
    var ok := r.EndObject();
    return if ok then ListEntry(offset, length) else ListEntry(0, 0);
  }

  lemma EntriesStep(n: nat, s: Bytes)
    ensures ReadEntries(0, s) == Ok([], s)
    ensures n > 0 ==>
              ReadEntries(n, s) == match ReadEntry(s)
                                   case Ok(e, s1) =>
                                     (match ReadEntries(n - 1, s1)
                                      case Ok(rest, s2) => Ok([e] + rest, s2)
                                      case _ => Fail)
                                   case _ => Fail
  {
  }

  /** Either one entry per row or none at all. */
  method DecodeListEntries(r: BinaryReader, count: int) returns (entries: seq<ListEntry>)
    requires r.Valid()
    modifies r
    ensures r.After(old(r.Now()), ReadListEntries(count, old(r.Rest())), entries)
    ensures entries == [] || |entries| == count
  {
    hide ReadEntries, ReadEntry;
    var n := r.ReadULEB128Int();
    entries := [];
    if r.err.None? {
      entries := DecodeEntryList(r, n);
    }
    if |entries| != count {
      r.ForceEof();
      return [];
    }
  }

  method DecodeEntryList(r: BinaryReader, n: nat) returns (entries: seq<ListEntry>)
    requires r.Valid() && r.err.None?
    modifies r
    ensures r.After(old(r.Now()), ReadEntries(n, old(r.Rest())), entries)
  {
    hide ReadEntries, ReadEntry;
    ghost var whole := ReadEntries(n, r.Rest());
    ListedNone(whole);
    entries := [];
    for i := 0 to n
      invariant r.Valid() && r.offset >= old(r.offset) && r.err.None? && |entries| == i
      invariant Listed(whole, entries, ReadEntries(n - i, r.Rest()))
    {
      ghost var left := ReadEntries(n - i, r.Rest());
      EntriesStep(n - i, r.Rest());
      var e := DecodeEntry(r);
      if r.err.Some? {
        return [];
      }
      ListedStep(whole, entries, e, left, ReadEntries(n - i - 1, r.Rest()));
      entries := entries + [e];
    }
    EntriesStep(0, r.Rest());
    ListedAll(whole, entries, r.Rest());
  }

  method DecodeVectorType(r: BinaryReader) returns (vectorType: nat)
    requires r.Valid()
    modifies r
    ensures r.After(old(r.Now()), ReadVectorType(old(r.Rest())), vectorType)
    ensures vectorType != FLAT ==> r.offset > old(r.offset)
  {
    vectorType := FLAT;
    var present := r.OptionalField(90);
    if present {
      vectorType := r.ReadULEB128Int();
    }
  }

  method DecodeFlatHeader(r: BinaryReader, t: LogicalType, count: int) returns (validity: Validity)
    requires r.Valid()
    modifies r
    ensures r.After(old(r.Now()), ReadFlatHeader(t, count, old(r.Rest())), validity) && MaskFits(validity, count)
  {
    hide ReadMask;
    if t.id == GEOMETRY {
      var present := r.OptionalField(99);
      if present {
        var _ := r.ReadULEB128Int();
      }
    }
    assert r.After(old(r.Now()), SkipGeometry(t, old(r.Rest())), ());
    var hasValidity := false;
    var ok := r.RequireField(100);
    if ok {
      hasValidity := r.ReadBool();
    }
    validity := None;
    if hasValidity {
      ok := r.RequireField(101);
      if ok {
        validity := ReadValidityMask(r, count);
      }
    }
  }

  // ---- columns ----

  method DecodeVectorBody(r: BinaryReader, t: LogicalType, count: int) returns (out: Go<Option<Vec>>)
    requires r.Valid()
    modifies r
    ensures Ended(r, old(r.Now()), ReadBody(t, count, old(r.Rest())), out)
    ensures out.Returned? && out.value.Some? ==> out.value.value.WellSized()
    decreases |r.bytes| - r.offset, 3
  {
    hide ReadFlat, ReadConstantColumn, ReadDictionaryColumn, ReadSequenceColumn, ReadVectorType;
    var vectorType := DecodeVectorType(r);
    if vectorType == FLAT {
      out := DecodeFlatVector(r, t, count);
    } else if vectorType == CONSTANT {
      out := DecodeConstant(r, t, count);
    } else if vectorType == DICTIONARY {
      out := DecodeDictionary(r, t, count);
    } else if vectorType == SEQUENCE {
      out := DecodeSequence(r, t, count);
    } else {
      r.ForceEof();
      out := Returned(None);
    }
  }

  method DecodeConstant(r: BinaryReader, t: LogicalType, count: int) returns (out: Go<Option<Vec>>)
    requires r.Valid()
    modifies r
    ensures Ended(r, old(r.Now()), ReadConstantColumn(t, count, old(r.Rest())), out)
    ensures out.Returned? && out.value.Some? ==> out.value.value.WellSized()
    decreases |r.bytes| - r.offset, 4
  {
    hide ReadBody;
    var single :- DecodeVectorBody(r, t, if count > 0 then 1 else 0);
    var value := None;
    if single.Some? && single.value.Size() > 0 {
      if !single.value.InRange(0) {
        return Panicked;
      }
      value := single.value.GetObject(0);
    }
    if count < 0 {
      return Panicked;
    }
    var vec := BroadcastValue(t, value, count);
    return Returned(Some(vec));
  }

  method DecodeDictionary(r: BinaryReader, t: LogicalType, count: int) returns (out: Go<Option<Vec>>)
    requires r.Valid()
    modifies r
    ensures Ended(r, old(r.Now()), ReadDictionaryColumn(t, count, old(r.Rest())), out)
    ensures out.Returned? && out.value.Some? ==> out.value.value.WellSized()
    decreases |r.bytes| - r.offset, 4
  {
    hide ReadBody, ReadSelection, RequiredInt, SelectionInRange, Project;
    var selection := [];
    var ok := r.RequireField(91);
    if ok {
      selection :- ReadSelectionVector(r, count);
    }
    var dictCount := TypeIO.DecodeRequiredInt(r, 92);
    var dict :- DecodeVectorBody(r, t, dictCount);
    var vec :- ProjectVector(t, dict, selection);
    return Returned(Some(vec));
  }

  method DecodeSequence(r: BinaryReader, t: LogicalType, count: int) returns (out: Go<Option<Vec>>)
    requires r.Valid()
    modifies r
    ensures Ended(r, old(r.Now()), ReadSequenceColumn(t, count, old(r.Rest())), out)
    ensures out.Returned? && out.value.Some? ==> out.value.value.WellSized()
  {
    hide ReadSleb, Sequence;
    var start, incr := 0, 0;
    var ok := r.RequireField(91);
    if ok {
      start := r.ReadSLEB128();
    }
    ok := r.RequireField(92);
    if ok {
      incr := r.ReadSLEB128();
    }
    if count < 0 {
      return Panicked;
    }
    var vec := SequenceVector(t, count, start, incr);
    return Returned(Some(vec));
  }

  method DecodeFlatVector(r: BinaryReader, t: LogicalType, count: int) returns (out: Go<Option<Vec>>)
    requires r.Valid()
    modifies r
    ensures Ended(r, old(r.Now()), ReadFlat(t, count, old(r.Rest())), out)
    ensures out.Returned? && out.value.Some? ==> out.value.value.WellSized()
    decreases |r.bytes| - r.offset, 2
  {
    hide ReadFlatHeader, ReadFixedColumn, ReadStringColumn, ReadStructColumn, ReadListColumn, ReadArrayColumn;
    var validity := DecodeFlatHeader(r, t, count);
    var p := Physical(t);
    if p.ConstantSize() {
      out := DecodeFixedColumn(r, t, count, validity);
    } else if p.PVarchar? {
      out := DecodeStringColumn(r, t, validity);
    } else if p.PStruct? {
      out := DecodeStructColumn(r, t, count, validity);
    } else if p.PList? {
      out := DecodeListColumn(r, t, count, validity);
    } else if p.PArray? {
      out := DecodeArrayColumn(r, t, count, validity);
    } else {
      r.ForceEof();
      out := Returned(None);
    }
  }

  method DecodeFixedColumn(r: BinaryReader, t: LogicalType, count: int, validity: Validity)
    returns (out: Go<Option<Vec>>)
    requires r.Valid() && Physical(t).ConstantSize() && MaskFits(validity, count)
    modifies r
    ensures Ended(r, old(r.Now()), ReadFixedColumn(t, count, validity, old(r.Rest())), out)
    ensures out.Returned? && out.value.Some? ==> out.value.value.WellSized()
  {
    hide ReadBlob, RawsOf, DecodeFixed;
    var width := Physical(t).ByteWidth();
    var bytes: Text := [];
    var ok := r.RequireField(102);
    if ok {
      bytes := r.ReadText();
    }
    if |bytes| != ToInt64(width * count) {
      r.ForceEof();
      return Returned(None);
    }
    if |bytes| != width * count {
      return Panicked;
    }
    RowsOfBytes(width, count);
    var v := DecodeFixedFlatVector(t, bytes, count, validity);
    return Returned(Some(v));
  }

  method DecodeStringColumn(r: BinaryReader, t: LogicalType, validity: Validity) returns (out: Go<Option<Vec>>)
    requires r.Valid()
    modifies r
    ensures Ended(r, old(r.Now()), ReadStringColumn(t, validity, old(r.Rest())), out)
    ensures out.Returned? && out.value.Some? ==> out.value.value.WellSized()
  {
    hide StringsInRange, StringRows, ReadTexts, ReadUlebInt;
    var texts: Slice<Text> := [];
    var ok := r.RequireField(102);
    if ok {
      texts := TypeIO.DecodeTexts(r);
    }
    var rows :- CollectStrings(t, validity, texts);
    return Returned(Some(Obj(t, rows)));
  }

  method DecodeStructColumn(r: BinaryReader, t: LogicalType, count: int, validity: Validity)
    returns (out: Go<Option<Vec>>)
    requires r.Valid() && MaskFits(validity, count)
    modifies r
    ensures Ended(r, old(r.Now()), ReadStructColumn(t, count, validity, old(r.Rest())), out)
    ensures out.Returned? && out.value.Some? ==> out.value.value.WellSized()
    decreases |r.bytes| - r.offset, 1
  {
    hide ReadColumns, ReadUlebInt, StructInRange, StructRows;
    var children := StructChildren(t);
    var types := seq(|children|, i requires 0 <= i < |children| => children[i].typ);
    var vecs: seq<Option<Vec>> := [];
    var ok := r.RequireField(103);
    if ok {
      vecs :- DecodeColumns(r, types, count);
    }
    if count < 0 {
      return Panicked;
    }
    var rows :- CollectStructs(validity, children, vecs, count);
    return Returned(Some(Obj(t, rows)));
  }

  function ReadEntriesField(count: int, s: Bytes): (r: Read<seq<ListEntry>>)
    ensures !r.Panic?
  {
    var (_, s1) :- Require(105, s);
    ReadListEntries(count, s1)
  }

  method DecodeEntriesField(r: BinaryReader, count: int) returns (entries: seq<ListEntry>)
    requires r.Valid()
    modifies r
    ensures r.After(old(r.Now()), ReadEntriesField(count, old(r.Rest())), entries)
    ensures entries == [] || |entries| == count
  {
    hide ReadListEntries;
    entries := [];
    var ok := r.RequireField(105);
    if ok {
      entries := DecodeListEntries(r, count);
    }
  }

  /** The child column in a field of its own. */
  function ReadChild(id: nat, t: LogicalType, count: int, s: Bytes): Read<Option<Vec>> {
    var (_, s1) :- Require(id, s);
    ReadVector(t, count, s1)
  }

  method DecodeChild(r: BinaryReader, id: nat, t: LogicalType, count: int) returns (out: Go<Option<Vec>>)
    requires r.Valid()
    modifies r
    ensures Ended(r, old(r.Now()), ReadChild(id, t, count, old(r.Rest())), out)
    decreases |r.bytes| - r.offset, 0
  {
    hide ReadVector;
    var ok := r.RequireField(id);
    if !ok {
      return Returned(None);
    }
    out := DecodeVector(r, t, count);
  }

  lemma {:induction false} ListByFields(t: LogicalType, count: int, validity: Validity, s: Bytes)
    requires MaskFits(validity, count)
    ensures ReadListColumn(t, count, validity, s)
            == var (listSize, s1) :- RequiredInt(104, s);
               var (entries, s2) :- ReadEntriesField(count, s1);
               var (child, s3) :- ReadChild(106, ChildTypeOf(t), listSize, s2);
               if count >= 0 && ListInRange(validity, entries, child, count)
               then Ok(Some(Obj(t, ListRows(validity, entries, child, count))), s3)
               else Panic
  {
    hide ReadVector, ReadListEntries, RequiredInt, ListInRange, ListRows;
  }

  method DecodeListColumn(r: BinaryReader, t: LogicalType, count: int, validity: Validity)
    returns (out: Go<Option<Vec>>)
    requires r.Valid() && MaskFits(validity, count)
    modifies r
    ensures Ended(r, old(r.Now()), ReadListColumn(t, count, validity, old(r.Rest())), out)
    ensures out.Returned? && out.value.Some? ==> out.value.value.WellSized()
    decreases |r.bytes| - r.offset, 1
  {
    hide RequiredInt, ReadEntriesField, ReadChild, ListInRange, ListRows;
    ListByFields(t, count, validity, r.Rest());
    hide ReadListColumn;
    var listSize := TypeIO.DecodeRequiredInt(r, 104);
    var entries := DecodeEntriesField(r, count);
    var child :- DecodeChild(r, 106, ChildTypeOf(t), listSize);
    if count < 0 {
      return Panicked;
    }
    var rows :- CollectLists(validity, entries, child, count);
    return Returned(Some(Obj(t, rows)));
  }

  method DecodeArrayColumn(r: BinaryReader, t: LogicalType, count: int, validity: Validity)
    returns (out: Go<Option<Vec>>)
    requires r.Valid() && MaskFits(validity, count)
    modifies r
    ensures Ended(r, old(r.Now()), ReadArrayColumn(t, count, validity, old(r.Rest())), out)
    ensures out.Returned? && out.value.Some? ==> out.value.value.WellSized()
    decreases |r.bytes| - r.offset, 1
  {
    hide ReadVector, RequiredInt, ArrayInRange, ArrayRows;
    var size := TypeIO.DecodeRequiredInt(r, 103);
    if size != ArraySize(t) {
      r.ForceEof();
      return Returned(None);
    }
    var child :- DecodeChild(r, 104, ChildTypeOf(t), ToInt64(size * count));
    if count < 0 {
      return Panicked;
    }
    var rows :- CollectArrays(validity, size, child, count);
    return Returned(Some(Obj(t, rows)));
  }

  method DecodeVector(r: BinaryReader, t: LogicalType, count: int) returns (out: Go<Option<Vec>>)
    requires r.Valid()
    modifies r
    ensures Ended(r, old(r.Now()), ReadVector(t, count, old(r.Rest())), out)
    decreases |r.bytes| - r.offset, 4
  {
    hide ReadBody;
    var vec :- DecodeVectorBody(r, t, count);
    var ok := r.EndObject();
    return Returned(if ok then vec else None);
  }

  /** A length and that many columns. */
  function ColumnList(types: seq<LogicalType>, count: int, s: Bytes): Read<seq<Option<Vec>>> {
    var (n, s1) :- ReadUlebInt(s);
    ReadColumns(types, count, n, s1)
  }

  /** A column without a type forces an error; at the end of input it is nil instead. */
  function ReadColumnAt(types: seq<LogicalType>, count: int, i: nat, s: Bytes): (r: Read<Option<Vec>>)
    ensures r.Ok? ==> |r.rest| <= |s|
  {
    if i < |types| then ReadVector(types[i], count, s)
    else
      var (_, s1) :- AssertEof(s);
      Ok(None, s1)
  }

  function TypesFrom(types: seq<LogicalType>, i: nat): seq<LogicalType> {
    if i <= |types| then types[i..] else []
  }

  lemma {:induction false} ColumnsStep(types: seq<LogicalType>, count: int, i: nat, n: nat, s: Bytes)
    ensures ReadColumns(TypesFrom(types, i), count, 0, s) == Ok([], s)
    ensures n > 0 ==>
              ReadColumns(TypesFrom(types, i), count, n, s)
              == match ReadColumnAt(types, count, i, s)
                 case Ok(head, s1) =>
                   (match ReadColumns(TypesFrom(types, i + 1), count, n - 1, s1)
                    case Ok(rest, s2) => Ok([head] + rest, s2)
                    case Fail => Fail
                    case Panic => Panic)
                 case Fail => Fail
                 case Panic => Panic
  {
    hide ReadVector;
    if n > 0 && i < |types| {
      assert types[i..][1..] == types[i + 1..];
    }
  }

  method DecodeColumnAt(r: BinaryReader, types: seq<LogicalType>, count: int, i: nat) returns (out: Go<Option<Vec>>)
    requires r.Valid()
    modifies r
    ensures Ended(r, old(r.Now()), ReadColumnAt(types, count, i, old(r.Rest())), out)
    decreases |r.bytes| - r.offset, 5
  {
    hide ReadVector;
    if i >= |types| {
      r.ForceEof();
      return Returned(None);
    }
    out := DecodeVector(r, types[i], count);
  }

  method DecodeColumns(r: BinaryReader, types: seq<LogicalType>, count: int) returns (out: Go<seq<Option<Vec>>>)
    requires r.Valid()
    modifies r
    ensures Ended(r, old(r.Now()), ColumnList(types, count, old(r.Rest())), out)
    decreases |r.bytes| - r.offset, 6
  {
    hide ReadColumns, ReadColumnAt, ReadUlebInt, TypesFrom;
    var n := r.ReadULEB128Int();
    if r.err.Some? {
      return Returned([]);
    }
    ghost var whole := ReadColumns(types, count, n, r.Rest());
    ListedNone(whole);
    AllTypes(types);
    var columns: seq<Option<Vec>> := [];
    for i := 0 to n
      invariant r.Valid() && r.offset >= old(r.offset) && old(r.err.None?) && r.err.None?
      invariant ColumnList(types, count, old(r.Rest())) == whole
      invariant Listed(whole, columns, ReadColumns(TypesFrom(types, i), count, n - i, r.Rest()))
    {
      ghost var left := ReadColumns(TypesFrom(types, i), count, n - i, r.Rest());
      ColumnsStep(types, count, i, n - i, r.Rest());
      var column :- DecodeColumnAt(r, types, count, i);
      if r.err.Some? {
        return Returned([]);
      }
      ListedStep(whole, columns, column, left, ReadColumns(TypesFrom(types, i + 1), count, n - i - 1, r.Rest()));
      columns := columns + [column];
    }
    ColumnsStep(types, count, n, 0, r.Rest());
    ListedAll(whole, columns, r.Rest());
    return Returned(columns);
  }

  lemma AllTypes(types: seq<LogicalType>)
    ensures TypesFrom(types, 0) == types
  {
    assert types[0..] == types;
  }

  // ---- chunks ----

  function ReadTypesField(s: Bytes): (r: Read<Slice<LogicalType>>)
    ensures !r.Panic?
  {
    var (_, s1) :- Require(101, s);
    TypeIO.TypeList(s1)
  }

  function ReadColumnsField(types: seq<LogicalType>, count: int, s: Bytes): Read<seq<Option<Vec>>> {
    var (_, s1) :- Require(102, s);
    ColumnList(types, count, s1)
  }

  /** A chunk without its end marker; a column count that differs forces an error. */
  function ReadChunkBody(s: Bytes): Read<DataChunk> {
    var (rowCount, s1) :- RequiredInt(100, s);
    var (types, s2) :- ReadTypesField(s1);
    var (columns, s3) :- ReadColumnsField(types, rowCount, s2);
    var (_, s4) :- if |columns| != |types| then AssertEof(s3) else Ok((), s3);
    Ok(DataChunk(rowCount, types, columns), s4)
  }

  lemma ChunkByBody(s: Bytes)
    ensures ReadChunk(s)
            == var (chunk, s1) :- ReadChunkBody(s);
               var (_, s2) :- ReadEnd(s1);
               Ok(chunk, s2)
  {
    hide ReadColumns, ReadTypes, ReadUlebInt;
  }

  method DecodeTypesField(r: BinaryReader) returns (types: Slice<LogicalType>)
    requires r.Valid()
    modifies r
    ensures r.After(old(r.Now()), ReadTypesField(old(r.Rest())), types)
  {
    types := [];
    var ok := r.RequireField(101);
    if ok {
      types := TypeIO.DecodeTypes(r);
    }
  }

  method DecodeColumnsField(r: BinaryReader, types: seq<LogicalType>, count: int) returns (out: Go<seq<Option<Vec>>>)
    requires r.Valid()
    modifies r
    ensures Ended(r, old(r.Now()), ReadColumnsField(types, count, old(r.Rest())), out)
  {
    var ok := r.RequireField(102);
    if !ok {
      return Returned([]);
    }
    out := DecodeColumns(r, types, count);
  }

  method DecodeChunkBody(r: BinaryReader) returns (out: Go<DataChunk>)
    requires r.Valid()
    modifies r
    ensures Ended(r, old(r.Now()), ReadChunkBody(old(r.Rest())), out)
  {
    hide ReadTypesField, ReadColumnsField, RequiredInt;
    var rowCount := TypeIO.DecodeRequiredInt(r, 100);
    var types := DecodeTypesField(r);
    var columns :- DecodeColumnsField(r, types, rowCount);
    if |columns| != |types| {
      r.ForceEof();
    }
    return Returned(DataChunk(rowCount, types, columns));
  }

  method DecodeDataChunk(r: BinaryReader) returns (out: Go<DataChunk>)
    requires r.Valid()
    modifies r
    ensures Ended(r, old(r.Now()), ReadChunk(old(r.Rest())), out)
  {
    ChunkByBody(r.Rest());
    hide ReadChunk, ReadChunkBody;
    var chunk :- DecodeChunkBody(r);
    var ok := r.EndObject();
    return Returned(if ok then chunk else DataChunk(0, [], []));
  }

  method DecodeDataChunkWrapper(r: BinaryReader) returns (out: Go<DataChunk>)
    requires r.Valid()
    modifies r
    ensures Ended(r, old(r.Now()), ReadChunkWrapper(old(r.Rest())), out)
  {
    hide ReadChunk;
    var chunk := DataChunk(0, [], []);
    var ok := r.RequireField(300);
    if ok {
      chunk :- DecodeDataChunk(r);
    }
    ok := r.EndObject();
    return Returned(if ok then chunk else DataChunk(0, [], []));
  }
}
