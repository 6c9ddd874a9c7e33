/** Writing columns and chunks: only the flat layout is written. */
module VectorEncoder {
  import opened Numbers
  import opened Wire
  import opened QuackTypes
  import opened Validity
  import opened TypeCodec
  import opened Vectors

  /** Fixed-width numbers one after the other. */
  function Raws(width: nat, numbers: seq<int>, tail: Bytes): (s: Bytes)
    ensures |s| == width * |numbers| + |tail|
  {
    if numbers == [] then tail else Le(width, numbers[0], Raws(width, numbers[1..], tail))
  }

  /** The bitmap of a primitive column, or one built from the nil rows of an object column. */
  function ExtractValidity(vec: Vec): Validity {
    match vec
    case Prim(_, _, _, validity) => validity
    case Obj(_, cells) => FromNulls(seq(|cells|, i requires 0 <= i < |cells| => cells[i].None?))
  }

  /** Strings and byte slices are written as they are; other values in text columns are not part of the model. */
  predicate TextWritable(c: Cell) {
    c.None? || c.value.Str? || c.value.Raw?
  }

  function TextOf(c: Cell): Text
    requires TextWritable(c)
  {
    if c.None? then [] else if c.value.Str? then c.value.text else c.value.bytes
  }

  predicate RowsWritable(t: LogicalType, rows: seq<Cell>) {
    if Physical(t).ConstantSize() then forall c | c in rows :: Writable(t, Physical(t), c)
    else Physical(t).PVarchar? && forall c | c in rows :: TextWritable(c)
  }

  /**
   Writing the column does not panic: its bitmap has the words its rows need, its type has a flat encoder, and
   every row can be written. Its bytes fit a Go slice.
   */
  predicate Encodable(t: LogicalType, vec: Vec) {
    vec.WellSized() && 16 * vec.Size() <= MAX_INT && RowsWritable(t, vec.Rows())
  }

  function RawNumbers(t: LogicalType, rows: seq<Cell>): (numbers: seq<int>)
    requires Physical(t).ConstantSize() && RowsWritable(t, rows)
    ensures |numbers| == |rows|
  {
    seq(|rows|, i requires 0 <= i < |rows| => ToRaw(t, Physical(t), rows[i]))
  }

  function RowTexts(t: LogicalType, rows: seq<Cell>): (texts: seq<Text>)
    requires Physical(t).PVarchar? && RowsWritable(t, rows)
    ensures |texts| == |rows|
  {
    seq(|rows|, i requires 0 <= i < |rows| => TextOf(rows[i]))
  }

  function FlatData(t: LogicalType, rows: seq<Cell>, tail: Bytes): Bytes
    requires RowsWritable(t, rows)
  {
    var p := Physical(t);
    Field(102,
      if p.ConstantSize() then Blob(Raws(p.ByteWidth(), RawNumbers(t, rows), []), tail)
      else Int(|rows|, Texts(RowTexts(t, rows), tail)))
  }

  /** The presence flag of the bitmap and, if present, the bitmap. */
  function FlatHeader(validity: Validity, count: nat, tail: Bytes): Bytes
    requires validity.Some? ==> |validity.value| <= WordCount(count)
  {
    Field(100, Bool(validity.Some?, if validity.Some? then Field(101, Blob(ToBytes(validity, count), tail)) else tail))
  }

  function FlatBody(t: LogicalType, vec: Vec, tail: Bytes): Bytes
    requires Encodable(t, vec)
  {
    FlatHeader(ExtractValidity(vec), vec.Size(), FlatData(t, vec.Rows(), tail))
  }

  function Vector(t: LogicalType, vec: Vec, tail: Bytes): Bytes
    requires Encodable(t, vec)
  {
    FlatBody(t, vec, End(tail))
  }

  predicate ColumnsEncodable(types: seq<LogicalType>, columns: seq<Option<Vec>>, rowCount: nat) {
    |types| == |columns|
    && forall i | 0 <= i < |columns| ::
         columns[i].Some? && columns[i].value.Size() == rowCount && Encodable(types[i], columns[i].value)
  }

  function Columns(types: seq<LogicalType>, columns: seq<Option<Vec>>, rowCount: nat, tail: Bytes): Bytes
    requires ColumnsEncodable(types, columns, rowCount)
  {
    if columns == [] then tail
    else Vector(types[0], columns[0].value, Columns(types[1..], columns[1..], rowCount, tail))
  }

  /** Go panics when counts differ or a column has another size than the chunk. */
  predicate ChunkEncodable(chunk: DataChunk) {
    chunk.rowCount <= MAX_INT && ColumnsEncodable(chunk.types, chunk.columns, chunk.rowCount)
  }

  function Chunk(chunk: DataChunk, tail: Bytes): Bytes
    requires ChunkEncodable(chunk)
  {
    Field(100, Int(chunk.rowCount,
      Field(101, Int(|chunk.types|, Types(chunk.types,
        Field(102, Int(|chunk.columns|, Columns(chunk.types, chunk.columns, chunk.rowCount, End(tail)))))))))
  }

  function ChunkWrapper(chunk: DataChunk, tail: Bytes): Bytes
    requires ChunkEncodable(chunk)
  {
    Field(300, Chunk(chunk, End(tail)))
  }
}
