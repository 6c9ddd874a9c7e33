/** Reading columns of every layout, nested to any depth. */
module VectorDecoder {
  import opened Numbers
  import opened Wire
  import opened QuackTypes
  import opened Validity
  import opened TypeCodec
  import opened Vectors

  const FLAT: nat := 0
  const CONSTANT: nat := 2
  const DICTIONARY: nat := 3
  const SEQUENCE: nat := 4

  // ---- building blocks ----

  /** The rows of a Go int: a product that wrapped may be negative. */
  function NonNegative(count: int): nat {
    if count < 0 then 0 else count
  }

  /**
   A bitmap of the wrong length forces an error, except at the end of input. Within 63 of the largest int the word
   count wraps to a negative number, which no length meets.
   */
  function ReadMask(count: int, s: Bytes): (r: Read<Validity>)
    ensures !r.Panic?
    ensures r.Ok? ==> |r.rest| <= |s| && MaskFits(r.value, count)
    ensures r.Ok? && r.rest != [] ==> r.value.Some?
  {
    var (bytes, s1) :- ReadBlob(s);
    if !(-63 <= count <= MAX_INT - 63) || |bytes| != WireByteCount(NonNegative(count)) then
      var (_, s2) :- AssertEof(s1);
      Ok(None, s2)
    else Ok(Some(FromBytes(bytes, NonNegative(count))), s1)
  }

  function RawsOf(width: nat, n: nat, s: Bytes): (raws: seq<nat>)
    requires |s| == width * n
    ensures |raws| == n
  {
    if n == 0 then []
    else
      assert width * n == width + width * (n - 1);
      [ReadLe(width, s).value] + RawsOf(width, n - 1, s[width..])
  }

  function Int32s(raws: seq<nat>): (s: seq<int>)
    ensures |s| == |raws|
  {
    seq(|raws|, i requires 0 <= i < |raws| => Signed(raws[i], TWO_32))
  }

  /** The expected length is a Go product. When it wrapped and still fits, the slice for the rows cannot be made. */
  function ReadSelection(count: int, s: Bytes): (r: Read<seq<int>>)
    ensures r.Ok? ==> |r.rest| <= |s|
    ensures r.Ok? && r.rest != [] ==> |r.value| == count
  {
    var (bytes, s1) :- ReadBlob(s);
    if |bytes| != ToInt64(4 * count) then
      var (_, s2) :- AssertEof(s1);
      Ok([], s2)
    else if |bytes| != 4 * count then Panic
    else
      Ok(Int32s(RawsOf(4, count, bytes)), s1)
  }

  /** The bitmap, when present, has the words for `count` rows. */
  predicate MaskFits(validity: Validity, count: int) {
    validity.Some? ==> |validity.value| == WordCount(NonNegative(count))
  }

  function DecodeFixed(t: LogicalType, p: PhysicalType, raws: seq<nat>, validity: Validity): (vec: Vec)
    requires MaskFits(validity, |raws|)
    ensures vec.WellSized() && vec.Size() == |raws|
  {
    if NeedsObject(t, p) then
      Obj(t, seq(|raws|, i requires 0 <= i < |raws| =>
        if IsValid(validity, i) then ObjectFromRaw(t, p, raws[i]) else None))
    else
      Prim(t, PrimKind(p), seq(|raws|, i requires 0 <= i < |raws| => PrimFromRaw(p, raws[i])), validity)
  }

  function StringLike(t: LogicalType, raw: Text): Value {
    if t.id in {BLOB, GEOMETRY, BIT} then Raw(raw) else Str(raw)
  }

  // ---- layouts ----

  /** The number that a primitive column holds for a repeated value, narrowed to the column's own Go type. */
  function RepeatedNumber(p: PhysicalType, value: Value): int {
    var n := if value.Num? then value.n else 0;
    match p
    case PBool => if n != 0 then 1 else 0
    case PInt8 => Signed(IntOf(Some(value)), 0x100)
    case PUint8 | PInt16 => Signed(IntOf(Some(value)), 0x1_0000)
    case PUint16 | PInt32 => Signed(IntOf(Some(value)), TWO_32)
    case PUint32 | PInt64 | PUint64 => IntOf(Some(value))
    case PFloat => Requieted(n)
    case _ => n
  }

  /** One value repeated over `count` rows. */
  function Broadcast(t: LogicalType, value: Cell, count: nat): (vec: Vec)
    ensures vec.WellSized() && vec.Size() == count
  {
    if !Primitive(t) then Obj(t, Repeat(value, count))
    else
      var p := Physical(t);
      if value.None? then Prim(t, PrimKind(p), Repeat(0, count), Some(Repeat(0, WordCount(count))))
      else Prim(t, PrimKind(p), Repeat(RepeatedNumber(p, value.value), count), None)
  }

  predicate SelectionInRange(dict: Vec, selection: seq<int>) {
    forall i | 0 <= i < |selection| :: dict.InRange(selection[i])
  }

  /** Row i of the result is row selection[i] of the dictionary. */
  function Project(t: LogicalType, dict: Vec, selection: seq<int>): (vec: Vec)
    requires SelectionInRange(dict, selection)
    ensures vec.WellSized() && vec.Size() == |selection|
  {
    var cells := seq(|selection|, i requires 0 <= i < |selection| => dict.GetObject(selection[i]));
    match dict
    case Prim(_, kind, _, _) =>
      Prim(t, kind,
        seq(|cells|, i requires 0 <= i < |cells| => if cells[i].None? then 0 else cells[i].value.n),
        FromNulls(seq(|cells|, i requires 0 <= i < |cells| => cells[i].None?)))
    case Obj(_, _) => Obj(t, cells)
  }

  /** start, start+incr, ...: the running int64 wraps, and INTEGER keeps its low 32 bits. */
  function Sequence(t: LogicalType, count: nat, start: Int64, incr: Int64): (vec: Vec)
    ensures vec.WellSized() && vec.Size() == count
  {
    var v := (i: nat) => ToInt64(start + i * incr);
    if t.id == INTEGER then Prim(t, KInt32, seq(count, i requires 0 <= i < count => Signed(v(i), TWO_32)), None)
    else if t.id == BIGINT then Prim(t, KInt64, seq(count, i requires 0 <= i < count => v(i)), None)
    else Obj(t, seq(count, i requires 0 <= i < count => Some(Int64Logical(t, v(i)))))
  }

  // ---- nested rows ----

  datatype ListEntry = ListEntry(offset: nat, length: nat)

  /** A nil child column has no rows. */
  predicate RowInRange(child: Option<Vec>, row: int) {
    child.Some? && child.value.InRange(row)
  }

  function RowOf(child: Option<Vec>, row: int): Cell
    requires RowInRange(child, row)
  {
    child.value.GetObject(row)
  }

  predicate ItemsInRange(child: Option<Vec>, offset: int, length: nat) {
    forall k | offset <= k < offset + length :: RowInRange(child, k)
  }

  /** Rows [offset, offset+length) of the child column. */
  function ItemsOf(child: Option<Vec>, offset: int, length: nat): (c: Cell)
    requires ItemsInRange(child, offset, length)
  {
    Some(Items(seq(length, k requires 0 <= k < length => RowOf(child, offset + k))))
  }

  predicate ListInRange(validity: Validity, entries: seq<ListEntry>, child: Option<Vec>, count: nat)
    requires MaskFits(validity, count)
  {
    forall row | 0 <= row < |entries| && row < count && IsValid(validity, row) ::
      ItemsInRange(child, entries[row].offset, entries[row].length)
  }

  function ListRows(validity: Validity, entries: seq<ListEntry>, child: Option<Vec>, count: nat): (rows: seq<Cell>)
    requires MaskFits(validity, count) && ListInRange(validity, entries, child, count)
    ensures |rows| == count
  {
    seq(count, row requires 0 <= row < count =>
      if row < |entries| && IsValid(validity, row)
      then ItemsOf(child, entries[row].offset, entries[row].length) else None)
  }

  predicate ArrayInRange(validity: Validity, size: nat, child: Option<Vec>, count: nat)
    requires MaskFits(validity, count)
  {
    forall row | 0 <= row < count && IsValid(validity, row) :: ItemsInRange(child, ToInt64(row * size), size)
  }

  function ArrayRows(validity: Validity, size: nat, child: Option<Vec>, count: nat): (rows: seq<Cell>)
    requires MaskFits(validity, count) && ArrayInRange(validity, size, child, count)
    ensures |rows| == count
  {
    seq(count, row requires 0 <= row < count =>
      if IsValid(validity, row) then ItemsOf(child, ToInt64(row * size), size) else None)
  }

  predicate FieldsInRange(children: seq<ChildType>, vecs: seq<Option<Vec>>, row: nat) {
    forall c | 0 <= c < |children| && c < |vecs| :: vecs[c].Some? ==> vecs[c].value.InRange(row)
  }

  /** The first n fields of one struct row; a later field of the same name replaces an earlier one. */
  function FieldMap(children: seq<ChildType>, vecs: seq<Option<Vec>>, row: nat, n: nat): map<Text, Cell>
    requires n <= |children| && FieldsInRange(children, vecs, row)
  {
    if n == 0 then map[]
    else
      var m := FieldMap(children, vecs, row, n - 1);
      if n - 1 < |vecs| && vecs[n - 1].Some? then m[children[n - 1].name := vecs[n - 1].value.GetObject(row)] else m
  }

  predicate StructInRange(validity: Validity, children: seq<ChildType>, vecs: seq<Option<Vec>>, count: nat)
    requires MaskFits(validity, count)
  {
    forall row | 0 <= row < count && IsValid(validity, row) :: FieldsInRange(children, vecs, row)
  }

  function StructRows(validity: Validity, children: seq<ChildType>, vecs: seq<Option<Vec>>, count: nat): (rows: seq<Cell>)
    requires MaskFits(validity, count) && StructInRange(validity, children, vecs, count)
    ensures |rows| == count
  {
    seq(count, row requires 0 <= row < count =>
      if IsValid(validity, row) then Some(Fields(FieldMap(children, vecs, row, |children|))) else None)
  }

  predicate StringsInRange(validity: Validity, texts: seq<Text>) {
    forall i | 0 <= i < |texts| :: Covers(validity, i)
  }

  function StringRows(t: LogicalType, validity: Validity, texts: seq<Text>): (rows: seq<Cell>)
    requires StringsInRange(validity, texts)
    ensures |rows| == |texts|
  {
    seq(|texts|, i requires 0 <= i < |texts| =>
      if IsValid(validity, i) then Some(StringLike(t, texts[i])) else None)
  }

  // ---- reading ----

  function ReadEntry(s: Bytes): (r: Read<ListEntry>)
    ensures !r.Panic?
    ensures r.Ok? ==> |r.rest| <= |s|
  {
    var (offset, s1) :- RequiredInt(100, s);
    var (length, s2) :- RequiredInt(101, s1);
    var (_, s3) :- ReadEnd(s2);
    Ok(ListEntry(offset, length), s3)
  }

  function ReadEntries(n: nat, s: Bytes): (r: Read<seq<ListEntry>>)
    ensures !r.Panic?
    ensures r.Ok? ==> |r.rest| <= |s| && |r.value| == n
  {
    if n == 0 then Ok([], s)
    else
      var (entry, s1) :- ReadEntry(s);
      var (rest, s2) :- ReadEntries(n - 1, s1);
      Ok([entry] + rest, s2)
  }

  function ReadListEntries(count: int, s: Bytes): (r: Read<seq<ListEntry>>)
    ensures !r.Panic?
    ensures r.Ok? ==> |r.rest| <= |s|
    ensures r.Ok? && r.rest != [] ==> |r.value| == count
  {
    var (n, s1) :- ReadUlebInt(s);
    var (entries, s2) :- ReadEntries(n, s1);
    if n != count then
      var (_, s3) :- AssertEof(s2);
      Ok([], s3)
    else Ok(entries, s2)
  }

  function ReadVectorType(s: Bytes): (r: Read<nat>)
    ensures !r.Panic?
    ensures r.Ok? ==> |r.rest| <= |s|
    ensures r.Ok? && r.value != FLAT ==> |r.rest| < |s|
  {
    var (present, s1) :- Optional(90, s);
    if present then ReadUlebInt(s1) else Ok(FLAT, s1)
  }

  /** GEOMETRY columns may carry a format number, which is ignored. */
  function SkipGeometry(t: LogicalType, s: Bytes): (r: Read<()>)
    ensures !r.Panic?
    ensures r.Ok? ==> |r.rest| <= |s|
  {
    if t.id != GEOMETRY then Ok((), s)
    else
      var (present, s1) :- Optional(99, s);
      if !present then Ok((), s1)
      else
        var (_, s2) :- ReadUlebInt(s1);
        Ok((), s2)
  }

  function ReadFlatHeader(t: LogicalType, count: int, s: Bytes): (r: Read<Validity>)
    ensures !r.Panic?
    ensures r.Ok? ==> |r.rest| < |s| && MaskFits(r.value, count)
  {
    var (_, s2) :- SkipGeometry(t, s);
    var (_, s3) :- Require(100, s2);
    var (hasValidity, s4) :- ReadBool(s3);
    if hasValidity then
      var (_, s5) :- Require(101, s4);
      ReadMask(count, s5)
    else Ok(None, s4)
  }

  // ---- sizes ----

  /** A flat column of string-like storage. */
  predicate FlatStrings(t: LogicalType, s: Bytes) {
    Physical(t).PVarchar? && ReadVectorType(s).Ok? && ReadVectorType(s).value == FLAT
  }

  /** The length of the string list behind the header of a flat column. */
  function StringCount(t: LogicalType, count: int, s: Bytes): (r: Read<nat>)
    ensures !r.Panic?
  {
    var (_, s1) :- ReadFlatHeader(t, count, s);
    RequiredInt(102, s1)
  }

  function FlatSize(t: LogicalType, count: int, s: Bytes): int {
    if Physical(t).PVarchar? && StringCount(t, count, s).Ok? then StringCount(t, count, s).value else count
  }

  /** The size a column must have: the row count, but the length of its string list when it is a flat string column. */
  function WireSize(t: LogicalType, count: int, s: Bytes): int {
    if FlatStrings(t, s) then FlatSize(t, count, ReadVectorType(s).rest) else count
  }

  predicate Shaped(vec: Option<Vec>, size: int) {
    vec.Some? && vec.value.WellSized() && vec.value.Size() == size
  }

  // ---- columns ----

  /**
   The body of a column after its opening. A nil column (None) without an error occurs only at the end of input,
   where the forced error does not fire.
   */
  function ReadBody(t: LogicalType, count: int, s: Bytes): (r: Read<Option<Vec>>)
    ensures r.Ok? ==> |r.rest| <= |s| && (r.value.Some? ==> r.value.value.WellSized())
    ensures r.Ok? && r.rest != [] ==> Shaped(r.value, WireSize(t, count, s))
    decreases |s|, 1
  {
    var (vectorType, s1) :- ReadVectorType(s);
    if vectorType == FLAT then ReadFlat(t, count, s1)
    else if vectorType == CONSTANT then ReadConstantColumn(t, count, s1)
    else if vectorType == DICTIONARY then ReadDictionaryColumn(t, count, s1)
    else if vectorType == SEQUENCE then ReadSequenceColumn(t, count, s1)
    else
      var (_, s2) :- AssertEof(s1);
      Ok(None, s2)
  }

  function ReadConstantColumn(t: LogicalType, count: int, s: Bytes): (r: Read<Option<Vec>>)
    ensures r.Ok? ==> |r.rest| <= |s| && Shaped(r.value, count)
    decreases |s|, 2
  {
    var (single, s1) :- ReadBody(t, if count > 0 then 1 else 0, s);
    if count < 0 then Panic
    else if single.Some? && single.value.Size() > 0 then
      if single.value.InRange(0) then Ok(Some(Broadcast(t, single.value.GetObject(0), count)), s1) else Panic
    else Ok(Some(Broadcast(t, None, count)), s1)
  }

  function ReadDictionaryColumn(t: LogicalType, count: int, s: Bytes): (r: Read<Option<Vec>>)
    ensures r.Ok? ==> |r.rest| <= |s| && r.value.Some? && r.value.value.WellSized()
    ensures r.Ok? && r.rest != [] ==> Shaped(r.value, count)
    decreases |s|, 0
  {
    var (_, s1) :- Require(91, s);
    var (selection, s2) :- ReadSelection(count, s1);
    var (dictCount, s3) :- RequiredInt(92, s2);
    var (dict, s4) :- ReadBody(t, dictCount, s3);
    match dict
    case None => if selection == [] then Ok(Some(Obj(t, [])), s4) else Panic
    case Some(vec) => if SelectionInRange(vec, selection) then Ok(Some(Project(t, vec, selection)), s4) else Panic
  }

  function ReadSequenceColumn(t: LogicalType, count: int, s: Bytes): (r: Read<Option<Vec>>)
    ensures r.Ok? ==> |r.rest| <= |s| && Shaped(r.value, count)
  {
    var (_, s1) :- Require(91, s);
    var (start, s2) :- ReadSleb(s1);
    var (_, s3) :- Require(92, s2);
    var (incr, s4) :- ReadSleb(s3);
    if count < 0 then Panic else Ok(Some(Sequence(t, count, start, incr)), s4)
  }

  function ReadFlat(t: LogicalType, count: int, s: Bytes): (r: Read<Option<Vec>>)
    ensures r.Ok? ==> |r.rest| <= |s| && (r.value.Some? ==> r.value.value.WellSized())
    ensures r.Ok? && r.rest != [] ==> Shaped(r.value, FlatSize(t, count, s))
    decreases |s|, 0
  {
    var (validity, s1) :- ReadFlatHeader(t, count, s);
    var p := Physical(t);
    if p.ConstantSize() then ReadFixedColumn(t, count, validity, s1)
    else if p.PVarchar? then ReadStringColumn(t, validity, s1)
    else if p.PStruct? then ReadStructColumn(t, count, validity, s1)
    else if p.PList? then ReadListColumn(t, count, validity, s1)
    else if p.PArray? then ReadArrayColumn(t, count, validity, s1)
    else
      var (_, s2) :- AssertEof(s1);
      Ok(None, s2)
  }

  /** The expected length is a Go product. When it wrapped and still fits, the slice for the rows cannot be made. */
  function ReadFixedColumn(t: LogicalType, count: int, validity: Validity, s: Bytes): (r: Read<Option<Vec>>)
    requires Physical(t).ConstantSize() && MaskFits(validity, count)
    ensures r.Ok? ==> |r.rest| <= |s|
    ensures r.Ok? && r.value.Some? ==> Shaped(r.value, count)
    ensures r.Ok? && r.rest != [] ==> r.value.Some?
  {
    var width := Physical(t).ByteWidth();
    var (_, s1) :- Require(102, s);
    var (bytes, s2) :- ReadBlob(s1);
    if |bytes| != ToInt64(width * count) then
      var (_, s3) :- AssertEof(s2);
      Ok(None, s3)
    else if |bytes| != width * count then Panic
    else
      RowsOfBytes(width, count);
      Ok(Some(DecodeFixed(t, Physical(t), RawsOf(width, count, bytes), validity)), s2)
  }

  lemma RowsOfBytes(width: nat, count: int)
    requires width > 0 && width * count >= 0
    ensures count >= 0
  {
    if count < 0 {
      MulGe(width, -count);
    }
  }

  /** The column has one row per string, whatever the row count says; Go panics when the bitmap is too short. */
  function ReadStringColumn(t: LogicalType, validity: Validity, s: Bytes): (r: Read<Option<Vec>>)
    ensures r.Ok? ==> |r.rest| <= |s|
    ensures r.Ok? ==> RequiredInt(102, s).Ok? && Shaped(r.value, RequiredInt(102, s).value)
  {
    var (n, s1) :- RequiredInt(102, s);
    var (texts, s2) :- ReadTexts(n, s1);
    if StringsInRange(validity, texts) then Ok(Some(Obj(t, StringRows(t, validity, texts))), s2) else Panic
  }

  function ReadStructColumn(t: LogicalType, count: int, validity: Validity, s: Bytes): (r: Read<Option<Vec>>)
    requires MaskFits(validity, count)
    ensures r.Ok? ==> |r.rest| <= |s| && Shaped(r.value, count)
    decreases |s|, 0
  {
    var children := StructChildren(t);
    var types := seq(|children|, i requires 0 <= i < |children| => children[i].typ);
    var (n, s1) :- RequiredInt(103, s);
    var (vecs, s2) :- ReadColumns(types, count, n, s1);
    if count >= 0 && StructInRange(validity, children, vecs, count)
    then Ok(Some(Obj(t, StructRows(validity, children, vecs, count))), s2)
    else Panic
  }

  function ReadListColumn(t: LogicalType, count: int, validity: Validity, s: Bytes): (r: Read<Option<Vec>>)
    requires MaskFits(validity, count)
    ensures r.Ok? ==> |r.rest| <= |s| && Shaped(r.value, count)
    decreases |s|, 0
  {
    var (listSize, s1) :- RequiredInt(104, s);
    var (_, s2) :- Require(105, s1);
    var (entries, s3) :- ReadListEntries(count, s2);
    var (_, s4) :- Require(106, s3);
    var (child, s5) :- ReadVector(ChildTypeOf(t), listSize, s4);
    if count >= 0 && ListInRange(validity, entries, child, count)
    then Ok(Some(Obj(t, ListRows(validity, entries, child, count))), s5)
    else Panic
  }

  /** The child's row count and the first row of every item are Go products. */
  function ReadArrayColumn(t: LogicalType, count: int, validity: Validity, s: Bytes): (r: Read<Option<Vec>>)
    requires MaskFits(validity, count)
    ensures r.Ok? ==> |r.rest| <= |s|
    ensures r.Ok? && r.value.Some? ==> Shaped(r.value, count)
    ensures r.Ok? && r.rest != [] ==> r.value.Some?
    decreases |s|, 0
  {
    var (size, s1) :- RequiredInt(103, s);
    if size != ArraySize(t) then
      var (_, s2) :- AssertEof(s1);
      Ok(None, s2)
    else
      var (_, s2) :- Require(104, s1);
      var (child, s3) :- ReadVector(ChildTypeOf(t), ToInt64(size * count), s2);
      if count >= 0 && ArrayInRange(validity, size, child, count)
      then Ok(Some(Obj(t, ArrayRows(validity, size, child, count))), s3)
      else Panic
  }

  /** One column as an object of its own. */
  function ReadVector(t: LogicalType, count: int, s: Bytes): (r: Read<Option<Vec>>)
    ensures r.Ok? ==> |r.rest| < |s| && Shaped(r.value, WireSize(t, count, s))
    decreases |s|, 2
  {
    var (vec, s1) :- ReadBody(t, count, s);
    var (_, s2) :- ReadEnd(s1);
    Ok(vec, s2)
  }

  /** n columns of the given types in turn; a column without a type forces an error and stays nil. */
  function ReadColumns(types: seq<LogicalType>, count: int, n: nat, s: Bytes): (r: Read<seq<Option<Vec>>>)
    ensures r.Ok? ==> |r.rest| <= |s| && |r.value| == n
    ensures r.Ok? ==> forall i | 0 <= i < n && i < |types| :: r.value[i].Some? && r.value[i].value.WellSized()
    ensures r.Ok? ==>
      forall i | 0 <= i < n && i < |types| && !Physical(types[i]).PVarchar? :: r.value[i].value.Size() == count
    ensures r.Ok? ==> forall i | |types| <= i < n :: r.value[i].None?
    ensures r.Ok? && r.rest != [] ==> n <= |types|
    decreases |s|, 3, n
  {
    if n == 0 then Ok([], s)
    else if types == [] then
      var (_, s1) :- AssertEof(s);
      var (rest, s2) :- ReadColumns([], count, n - 1, s1);
      Ok([None] + rest, s2)
    else
      var (head, s1) :- ReadVector(types[0], count, s);
      var (rest, s2) :- ReadColumns(types[1..], count, n - 1, s1);
      Ok([head] + rest, s2)
  }

  /**
   A chunk that decodes without error has one column per type, and no forced error is lost, even where the input
   ends. A column has the chunk's row count unless its storage is string-like; VectorShapes says what it has then.
   */
  function ReadChunk(s: Bytes): (r: Read<DataChunk>)
    ensures r.Ok? ==> |r.rest| < |s|
    ensures r.Ok? ==> |r.value.columns| == |r.value.types|
    ensures r.Ok? ==>
      forall i | 0 <= i < |r.value.types| :: r.value.columns[i].Some? && r.value.columns[i].value.WellSized()
    ensures r.Ok? ==>
      forall i | 0 <= i < |r.value.types| && !Physical(r.value.types[i]).PVarchar? ::
        r.value.columns[i].value.Size() == r.value.rowCount
  {
    var (rowCount, s1) :- RequiredInt(100, s);
    var (n, s2) :- RequiredInt(101, s1);
    var (types, s3) :- ReadTypes(n, s2);
    var (m, s4) :- RequiredInt(102, s3);
    var (columns, s5) :- ReadColumns(types, rowCount, m, s4);
    var (_, s6) :- if m != n then AssertEof(s5) else Ok((), s5);
    var (_, s7) :- ReadEnd(s6);
    Ok(DataChunk(rowCount, types, columns), s7)
  }

  function ReadChunkWrapper(s: Bytes): (r: Read<DataChunk>)
    ensures r.Ok? ==> |r.rest| < |s|
  {
    var (_, s1) :- Require(300, s);
    var (chunk, s2) :- ReadChunk(s1);
    var (_, s3) :- ReadEnd(s2);
    Ok(chunk, s3)
  }
}
