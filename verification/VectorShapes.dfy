/** How many rows each column of a decoded chunk has. */
module VectorShapes {
  import opened Numbers
  import opened Wire
  import opened QuackTypes
  import opened TypeCodec
  import opened Vectors
  import opened VectorDecoder

  /** Where the i-th of several columns starts. */
  function ColumnStart(types: seq<LogicalType>, count: int, i: nat, s: Bytes): Bytes
    requires i <= |types|
    decreases i
  {
    if i == 0 then s
    else match ReadVector(types[0], count, s)
      case Ok(_, rest) => ColumnStart(types[1..], count, i - 1, rest)
      case _ => []
  }

  lemma {:induction false} ColumnsHead(types: seq<LogicalType>, count: int, n: nat, s: Bytes)
    requires ReadColumns(types, count, n, s).Ok? && n > 0 && types != []
    ensures var head := ReadVector(types[0], count, s);
            head.Ok?
            && var others := ReadColumns(types[1..], count, n - 1, head.rest);
               others.Ok? && ReadColumns(types, count, n, s).value == [head.value] + others.value
  {
    hide ReadVector;
  }

  /** Every column of a list that was read, was read where it starts. */
  lemma {:induction false} ColumnReads(types: seq<LogicalType>, count: int, n: nat, s: Bytes, i: nat)
    requires ReadColumns(types, count, n, s).Ok? && i < n && i < |types|
    ensures var r := ReadVector(types[i], count, ColumnStart(types, count, i, s));
            r.Ok? && r.value == ReadColumns(types, count, n, s).value[i]
    decreases i
  {
    hide ReadVector, ReadColumns;
    ColumnsHead(types, count, n, s);
    if i > 0 {
      ColumnReads(types[1..], count, n - 1, ReadVector(types[0], count, s).rest, i - 1);
    }
  }

  /**
   The rows of a column against its own bytes. Every layout of every type has the row count, except that a flat string
   column has as many rows as its string list is long; so it has the row count if and only if its list has that length.
   */
  ghost predicate Sized(t: LogicalType, count: int, s: Bytes, vec: Vec) {
    ReadVectorType(s).Ok?
    && if Physical(t).PVarchar? && ReadVectorType(s).value == FLAT then
         var strings := StringCount(t, count, ReadVectorType(s).rest);
         strings.Ok? && vec.Size() == strings.value
       else vec.Size() == count
  }

  lemma {:induction false} VectorSize(t: LogicalType, count: int, s: Bytes)
    requires ReadVector(t, count, s).Ok?
    ensures ReadVector(t, count, s).value.Some? && Sized(t, count, s, ReadVector(t, count, s).value.value)
  {
    hide ReadFlat, ReadConstantColumn, ReadDictionaryColumn, ReadSequenceColumn, ReadFlatHeader, StringCount;
    var vectorType := ReadVectorType(s);
    assert ReadBody(t, count, s).Ok?;
    if Physical(t).PVarchar? && vectorType.value == FLAT {
      StringsCounted(t, count, vectorType.rest);
    }
  }

  lemma {:induction false} StringsCounted(t: LogicalType, count: int, s: Bytes)
    requires Physical(t).PVarchar? && ReadFlat(t, count, s).Ok?
    ensures StringCount(t, count, s).Ok?
  {
    hide ReadStringColumn, ReadFlatHeader, RequiredInt;
  }

  /** Where the columns of a chunk start. */
  function ColumnBytes(s: Bytes): Read<nat> {
    var (rowCount, s1) :- RequiredInt(100, s);
    var (n, s2) :- RequiredInt(101, s1);
    var (types, s3) :- ReadTypes(n, s2);
    RequiredInt(102, s3)
  }

  lemma ChunkColumns(s: Bytes)
    requires ReadChunk(s).Ok?
    ensures var chunk := ReadChunk(s).value;
            ColumnBytes(s).Ok? && ColumnBytes(s).value == |chunk.columns|
            && ReadColumns(chunk.types, chunk.rowCount, |chunk.columns|, ColumnBytes(s).rest).Ok?
            && ReadColumns(chunk.types, chunk.rowCount, |chunk.columns|, ColumnBytes(s).rest).value == chunk.columns
  {
    hide ReadColumns, ReadTypes, RequiredInt, ReadEnd;
  }

  /** For every chunk that decodes, and every column of it. */
  lemma {:induction false} ChunkSizes(s: Bytes, i: nat)
    requires ReadChunk(s).Ok? && i < |ReadChunk(s).value.types|
    ensures var chunk := ReadChunk(s).value;
            ColumnBytes(s).Ok? && chunk.columns[i].Some?
            && Sized(chunk.types[i], chunk.rowCount,
                     ColumnStart(chunk.types, chunk.rowCount, i, ColumnBytes(s).rest), chunk.columns[i].value)
  {
    hide ReadChunk, ReadColumns, ColumnStart, Sized, ReadVector, ColumnBytes;
    var chunk := ReadChunk(s).value;
    ChunkColumns(s);
    ColumnReads(chunk.types, chunk.rowCount, |chunk.columns|, ColumnBytes(s).rest, i);
    VectorSize(chunk.types[i], chunk.rowCount, ColumnStart(chunk.types, chunk.rowCount, i, ColumnBytes(s).rest));
  }
}
