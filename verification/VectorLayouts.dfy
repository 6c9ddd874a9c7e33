/**
 Every layout means the same as its expansion: constant, dictionary, sequence and flat columns, with LIST, STRUCT and
 ARRAY children, nested to any depth.
 */
module VectorLayouts {
  import opened Numbers
  import opened Wire
  import opened QuackTypes
  import opened Validity
  import opened TypeCodec
  import opened TypeRoundTrip
  import opened Vectors
  import opened VectorEncoder
  import opened VectorDecoder
  import opened ChunkRoundTrip

  /**
   A column as a server may lay it out. A flat column holds any numbers that fit its width, or any texts, under any
   bitmap; what stands under a null row does not matter. A GEOMETRY column may carry a format number.
   */
  datatype Layout =
    | FixedLayout(validity: Validity, raws: seq<nat>)
    | TextLayout(format: Option<Int64>, validity: Validity, texts: seq<Text>)
    | ConstantLayout(single: Layout)
    | DictionaryLayout(selection: seq<int>, dictCount: nat, dictionary: Layout)
    | SequenceLayout(start: Int64, incr: Int64)
    | ListLayout(validity: Validity, entries: seq<ListEntry>, childCount: nat, child: Layout)
    | StructLayout(validity: Validity, children: seq<Layout>)
    | ArrayLayout(validity: Validity, child: Layout)

  function OneOrNone(count: nat): nat {
    if count > 0 then 1 else 0
  }

  predicate MaskLegal(validity: Validity, count: nat) {
    MaskFits(validity, count) && 16 * count <= MAX_INT
  }

  predicate EntryLegal(entry: ListEntry, valid: bool, childCount: nat) {
    entry.offset <= MAX_INT && entry.length <= MAX_INT && (valid ==> entry.offset + entry.length <= childCount)
  }

  predicate EntriesLegal(validity: Validity, entries: seq<ListEntry>, childCount: nat)
    requires MaskFits(validity, |entries|)
  {
    forall row | 0 <= row < |entries| :: EntryLegal(entries[row], IsValid(validity, row), childCount)
  }

  predicate FormatLegal(t: LogicalType, format: Option<Int64>) {
    format.Some? ==> t.id == GEOMETRY && format.value >= 0
  }

  predicate RawsLegal(p: PhysicalType, raws: seq<nat>)
    requires p.ConstantSize()
  {
    forall i | 0 <= i < |raws| :: raws[i] < Pow256(p.ByteWidth())
  }

  /** The row count of an ARRAY child is a product of Go ints, and so is the first child row of each row. */
  function ItemCount(t: LogicalType, count: nat): Int64 {
    ToInt64(ArraySize(t) * count)
  }

  predicate SlicesLegal(validity: Validity, size: nat, count: nat, childCount: nat)
    requires MaskFits(validity, count)
  {
    forall row | 0 <= row < count && IsValid(validity, row) ::
      0 <= ToInt64(row * size) <= ToInt64(row * size) + size <= childCount
  }

  /** Indices and entries of valid rows stay inside the column they refer to, and every row count is a Go int. */
  predicate Legal(t: LogicalType, count: nat, l: Layout)
    decreases l
  {
    count <= MAX_INT &&
    match l
    case FixedLayout(validity, raws) =>
      Physical(t).ConstantSize() && |raws| == count && MaskLegal(validity, count) && RawsLegal(Physical(t), raws)
    case TextLayout(format, validity, texts) =>
      Physical(t).PVarchar? && |texts| == count && MaskLegal(validity, count) && FormatLegal(t, format)
    case ConstantLayout(single) => Legal(t, OneOrNone(count), single)
    case DictionaryLayout(selection, dictCount, dictionary) =>
      |selection| == count && 4 * count <= MAX_INT && dictCount <= MAX_INT
      && (forall i | 0 <= i < count :: 0 <= selection[i] < dictCount && selection[i] < TWO_31)
      && Legal(t, dictCount, dictionary)
    case SequenceLayout(_, _) => !Physical(t).PFloat? && !Physical(t).PDouble?
    case ListLayout(validity, entries, childCount, child) =>
      Physical(t).PList? && |entries| == count && MaskLegal(validity, count) && childCount <= MAX_INT
      && EntriesLegal(validity, entries, childCount) && Legal(ChildTypeOf(t), childCount, child)
    case StructLayout(validity, children) =>
      Physical(t).PStruct? && MaskLegal(validity, count) && |children| == |StructChildren(t)|
      && forall c | 0 <= c < |children| :: Legal(StructChildren(t)[c].typ, count, children[c])
    case ArrayLayout(validity, child) =>
      Physical(t).PArray? && MaskLegal(validity, count) && ArraySize(t) >= 0 && ItemCount(t, count) >= 0
      && SlicesLegal(validity, ArraySize(t), count, ItemCount(t, count))
      && Legal(ChildTypeOf(t), ItemCount(t, count), child)
  }

  // ---- wire form ----

  function Opening(layout: nat, tail: Bytes): Bytes {
    Field(90, Int(layout, tail))
  }

  function Formatted(format: Option<Int64>, tail: Bytes): Bytes {
    if format.Some? then Field(99, Int(format.value, tail)) else tail
  }

  function Entries(entries: seq<ListEntry>, tail: Bytes): Bytes {
    if entries == [] then tail
    else Field(100, Int(entries[0].offset, Field(101, Int(entries[0].length, End(Entries(entries[1..], tail))))))
  }

  function Body(t: LogicalType, count: nat, l: Layout, tail: Bytes): Bytes
    requires Legal(t, count, l)
    decreases l, 0
  {
    match l
    case FixedLayout(validity, raws) =>
      FlatHeader(validity, count, Field(102, Blob(Raws(Physical(t).ByteWidth(), raws, []), tail)))
    case TextLayout(format, validity, texts) =>
      Formatted(format, FlatHeader(validity, count, Field(102, Int(count, Texts(texts, tail)))))
    case ConstantLayout(single) => Opening(CONSTANT, Body(t, OneOrNone(count), single, tail))
    case DictionaryLayout(selection, dictCount, dictionary) =>
      Opening(DICTIONARY, Field(91, Blob(Raws(4, selection, []),
        Field(92, Int(dictCount, Body(t, dictCount, dictionary, tail))))))
    case SequenceLayout(start, incr) => Opening(SEQUENCE, Field(91, Sleb(start, Field(92, Sleb(incr, tail)))))
    case ListLayout(validity, entries, childCount, child) =>
      FlatHeader(validity, count, Field(104, Int(childCount, Field(105, Int(count, Entries(entries,
        Field(106, Body(ChildTypeOf(t), childCount, child, End(tail)))))))))
    case StructLayout(validity, children) =>
      FlatHeader(validity, count, Field(103, Int(|children|,
        Bodies(StructChildren(t), count, children, tail))))
    case ArrayLayout(validity, child) =>
      FlatHeader(validity, count, Field(103, Int(ArraySize(t),
        Field(104, Body(ChildTypeOf(t), ItemCount(t, count), child, End(tail))))))
  }

  function Bodies(fields: seq<ChildType>, count: nat, children: seq<Layout>, tail: Bytes): Bytes
    requires |children| == |fields| && forall c | 0 <= c < |children| :: Legal(fields[c].typ, count, children[c])
    decreases children, 1
  {
    if children == [] then tail
    else Body(fields[0].typ, count, children[0], End(Bodies(fields[1..], count, children[1..], tail)))
  }

  // ---- meaning ----

  /** The last field of that name. */
  function LastIndex(fields: seq<ChildType>, name: Text): (index: nat)
    requires exists c | 0 <= c < |fields| :: fields[c].name == name
    ensures index < |fields| && fields[index].name == name
    ensures forall c | index < c < |fields| :: fields[c].name != name
  {
    var last := |fields| - 1;
    if fields[last].name == name then last else LastIndex(fields[..last], name)
  }

  function FieldNames(fields: seq<ChildType>): set<Text> {
    set c | 0 <= c < |fields| :: fields[c].name
  }

  /** Each distinct field name maps to that child's row. */
  function StructRow(fields: seq<ChildType>, columns: seq<seq<Cell>>, row: nat): map<Text, Cell>
    requires |columns| == |fields| && forall c | 0 <= c < |columns| :: row < |columns[c]|
  {
    map name | name in FieldNames(fields) :: columns[LastIndex(fields, name)][row]
  }

  /** The rows a layout stands for. */
  function Expand(t: LogicalType, count: nat, l: Layout): (rows: seq<Cell>)
    requires Legal(t, count, l)
    ensures |rows| == count
    decreases l, 0
  {
    match l
    case FixedLayout(validity, raws) => FixedRows(t, validity, raws)
    case TextLayout(_, validity, texts) => StringRows(t, validity, texts)
    case ConstantLayout(single) =>
      if count == 0 then [] else Repeat(Narrowed(t, Expand(t, 1, single)[0]), count)
    case DictionaryLayout(selection, dictCount, dictionary) =>
      var inner := Expand(t, dictCount, dictionary);
      seq(count, i requires 0 <= i < count => inner[selection[i]])
    case SequenceLayout(start, incr) =>
      Progression(t, start, incr, count)
    case ListLayout(validity, entries, childCount, child) =>
      var inner := Expand(ChildTypeOf(t), childCount, child);
      ListSlices(validity, entries, inner)
    case StructLayout(validity, children) =>
      var columns := ExpandAll(StructChildren(t), count, children);
      StructSlices(validity, StructChildren(t), columns, count)
    case ArrayLayout(validity, child) =>
      var size: nat := ArraySize(t);
      var inner := Expand(ChildTypeOf(t), ItemCount(t, count), child);
      ArraySlices(validity, inner, size, count)
  }

  /** A valid row is the value of its stored number. */
  function FixedRows(t: LogicalType, validity: Validity, raws: seq<nat>): (rows: seq<Cell>)
    requires MaskFits(validity, |raws|)
    ensures |rows| == |raws|
  {
    seq(|raws|, i requires 0 <= i < |raws| =>
      if IsValid(validity, i) then CellFromRaw(t, Physical(t), raws[i]) else None)
  }

  /** A repeated number takes the Go type of the column. */
  function Narrowed(t: LogicalType, c: Cell): Cell {
    if Primitive(t) && c.Some? then Some(Num(PrimKind(Physical(t)), RepeatedNumber(Physical(t), c.value))) else c
  }

  /** Row i is start + i * incr, wrapped to 64 bits and then read as the type reads a 64-bit number. */
  function Progression(t: LogicalType, start: Int64, incr: Int64, count: nat): (rows: seq<Cell>)
    ensures |rows| == count
  {
    seq(count, i requires 0 <= i < count =>
      var v := ToInt64(start + i * incr);
      Some(if t.id == INTEGER then Num(KInt32, Signed(v, TWO_32))
           else if t.id == BIGINT then Num(KInt64, v)
           else Int64Logical(t, v)))
  }

  /** A valid row is its slice of the child rows. */
  function ListSlices(validity: Validity, entries: seq<ListEntry>, inner: seq<Cell>): (rows: seq<Cell>)
    requires MaskLegal(validity, |entries|) && EntriesLegal(validity, entries, |inner|)
    ensures |rows| == |entries|
  {
    seq(|entries|, row requires 0 <= row < |entries| =>
      if IsValid(validity, row)
      then (assert EntryLegal(entries[row], true, |inner|);
            Some(Items(inner[entries[row].offset..entries[row].offset + entries[row].length])))
      else None)
  }

  function StructSlices(validity: Validity, fields: seq<ChildType>, columns: seq<seq<Cell>>, count: nat)
    : (rows: seq<Cell>)
    requires MaskLegal(validity, count)
    requires |columns| == |fields| && forall c | 0 <= c < |columns| :: |columns[c]| == count
    ensures |rows| == count
  {
    seq(count, row requires 0 <= row < count =>
      if IsValid(validity, row) then Some(Fields(StructRow(fields, columns, row))) else None)
  }

  /** Row i is child rows [i * size, (i + 1) * size), with Go's products. */
  function ArraySlices(validity: Validity, inner: seq<Cell>, size: nat, count: nat): (rows: seq<Cell>)
    requires MaskLegal(validity, count) && SlicesLegal(validity, size, count, |inner|)
    ensures |rows| == count
  {
    seq(count, row requires 0 <= row < count =>
      if IsValid(validity, row) then Some(Items(inner[ToInt64(row * size)..ToInt64(row * size) + size])) else None)
  }

  /** When the number of items is a Go int, no product wraps and every slice lies inside the child. */
  lemma ItemsFit(t: LogicalType, validity: Validity, count: nat)
    requires MaskFits(validity, count) && ArraySize(t) >= 0 && ArraySize(t) * count <= MAX_INT
    ensures ItemCount(t, count) == ArraySize(t) * count >= 0
    ensures SlicesLegal(validity, ArraySize(t), count, ArraySize(t) * count)
    ensures forall row | 0 <= row < count :: ToInt64(row * ArraySize(t)) == row * ArraySize(t)
  {
    var size: nat := ArraySize(t);
    MulRange(size, count, count);
    SignedOfMod(size * count, TWO_64);
    forall row | 0 <= row < count
      ensures 0 <= row * size == ToInt64(row * size) && row * size + size <= size * count
    {
      RowBounds(size, row, count);
      SignedOfMod(row * size, TWO_64);
    }
  }

  function ExpandAll(fields: seq<ChildType>, count: nat, children: seq<Layout>): (columns: seq<seq<Cell>>)
    requires |children| == |fields| && forall c | 0 <= c < |children| :: Legal(fields[c].typ, count, children[c])
    ensures |columns| == |fields| && forall c | 0 <= c < |columns| :: |columns[c]| == count
    decreases children, 1
  {
    if children == [] then []
    else [Expand(fields[0].typ, count, children[0])] + ExpandAll(fields[1..], count, children[1..])
  }

  lemma RowBounds(size: nat, row: nat, count: nat)
    requires row < count
    ensures 0 <= row * size && row * size + size <= size * count
  {
    MulRange(size, row + 1, count);
  }
}
