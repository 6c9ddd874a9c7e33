/** What the encoder writes, the decoder reads back: row for row, for columns and for whole chunks. */
module ChunkRoundTrip {
  import opened Numbers
  import opened Wire
  import opened QuackTypes
  import opened Validity
  import opened TypeCodec
  import opened TypeRoundTrip
  import opened Vectors
  import opened ValueRoundTrip
  import opened RawRoundTrip
  import opened VectorEncoder
  import opened VectorDecoder

  /** The row the decoder reads for a row the encoder wrote. */
  function Back(t: LogicalType, c: Cell): Cell
    requires RowsWritable(t, [c])
  {
    assert c in [c];
    if c.None? then None
    else if Physical(t).ConstantSize() then Stored(t, c)
    else Some(StringLike(t, TextOf(c)))
  }

  /** The column the decoder builds from what the encoder wrote. */
  function Settled(t: LogicalType, vec: Vec): (settled: Vec)
    requires Encodable(t, vec)
    ensures settled.WellSized() && settled.Size() == vec.Size()
  {
    var rows, validity := vec.Rows(), ExtractValidity(vec);
    if Physical(t).ConstantSize() then
      DecodeFixed(t, Physical(t), StoredRaws(t, rows), validity)
    else
      Obj(t, seq(|rows|, i requires 0 <= i < |rows| =>
        if IsValid(validity, i) then Some(StringLike(t, RowTexts(t, rows)[i])) else None))
  }

  function StoredRaws(t: LogicalType, rows: seq<Cell>): (raws: seq<nat>)
    requires Physical(t).ConstantSize() && RowsWritable(t, rows)
    ensures |raws| == |rows|
  {
    var m := Pow256(Physical(t).ByteWidth());
    seq(|rows|, i requires 0 <= i < |rows| => RawNumbers(t, rows)[i] % m)
  }

  // ---- one column ----

  /** The bitmap that is written says exactly which rows are not nil. */
  lemma ValidityOfRows(vec: Vec, row: nat)
    requires vec.WellSized() && row < vec.Size()
    ensures Covers(ExtractValidity(vec), row) && MaskFits(ExtractValidity(vec), vec.Size())
    ensures IsValid(ExtractValidity(vec), row) <==> vec.Rows()[row].Some?
  {
    if vec.Obj? {
      FromNullsRows(seq(|vec.cells|, i requires 0 <= i < |vec.cells| => vec.cells[i].None?), row);
    }
  }

  lemma DecodedRow(t: LogicalType, raws: seq<nat>, validity: Validity, row: nat)
    requires MaskFits(validity, |raws|) && row < |raws|
    ensures Covers(validity, row)
    ensures DecodeFixed(t, Physical(t), raws, validity).Rows()[row]
            == if IsValid(validity, row) then CellFromRaw(t, Physical(t), raws[row]) else None
  {
    var vec := DecodeFixed(t, Physical(t), raws, validity);
    assert vec.Rows()[row] == vec.GetObject(row);
  }

  lemma StoredRaw(t: LogicalType, rows: seq<Cell>, row: nat)
    requires Physical(t).ConstantSize() && RowsWritable(t, rows) && row < |rows|
    ensures Writable(t, Physical(t), rows[row])
    ensures StoredRaws(t, rows)[row] == ToRaw(t, Physical(t), rows[row]) % Pow256(Physical(t).ByteWidth())
  {
    assert rows[row] in rows;
    assert RawNumbers(t, rows)[row] == ToRaw(t, Physical(t), rows[row]);
  }

  lemma SettledFixedRow(t: LogicalType, rows: seq<Cell>, validity: Validity, row: nat)
    requires Physical(t).ConstantSize() && RowsWritable(t, rows) && row < |rows|
    requires MaskFits(validity, |rows|) && Covers(validity, row)
    requires IsValid(validity, row) <==> rows[row].Some?
    ensures RowsWritable(t, [rows[row]])
    ensures DecodeFixed(t, Physical(t), StoredRaws(t, rows), validity).Rows()[row] == Back(t, rows[row])
  {
    assert rows[row] in rows;
    var raws := StoredRaws(t, rows);
    DecodedRow(t, raws, validity, row);
    StoredRaw(t, rows, row);
  }

  lemma SettledRow(t: LogicalType, vec: Vec, row: nat)
    requires Encodable(t, vec) && row < vec.Size()
    ensures RowsWritable(t, [vec.Rows()[row]])
    ensures Settled(t, vec).Rows()[row] == Back(t, vec.Rows()[row])
  {
    var rows, validity := vec.Rows(), ExtractValidity(vec);
    ValidityOfRows(vec, row);
    if Physical(t).ConstantSize() {
      SettledFixedRow(t, rows, validity, row);
    } else {
      assert rows[row] in rows;
      assert Settled(t, vec).Rows()[row] == Settled(t, vec).cells[row];
    }
  }

  lemma {:induction false} RawsRoundTrip(width: nat, numbers: seq<int>)
    ensures |Raws(width, numbers, [])| == width * |numbers|
    ensures RawsOf(width, |numbers|, Raws(width, numbers, []))
            == seq(|numbers|, i requires 0 <= i < |numbers| => numbers[i] % Pow256(width))
  {
    if numbers != [] {
      var rest := Raws(width, numbers[1..], []);
      LeRoundTrip(width, numbers[0], rest);
      LeDrop(width, numbers[0], rest);
      RawsRoundTrip(width, numbers[1..]);
    }
  }

  /** Only the low bytes of the numbers are written. */
  lemma {:induction false} RawsCongruent(width: nat, a: seq<int>, b: seq<int>, tail: Bytes)
    requires |a| == |b| && forall i | 0 <= i < |a| :: a[i] % Pow256(width) == b[i] % Pow256(width)
    ensures Raws(width, a, tail) == Raws(width, b, tail)
  {
    if a != [] {
      RawsCongruent(width, a[1..], b[1..], tail);
      LeCongruent(width, a[0], b[0], Raws(width, a[1..], tail));
    }
  }

  lemma MaskRoundTrip(words: seq<Word>, count: nat, tail: Bytes)
    requires |words| == WordCount(count) && count <= MAX_INT - 63
    ensures ReadMask(count, Blob(ToBytes(Some(words), count), tail)) == Ok(Some(words), tail)
  {
    BlobRoundTrip(ToBytes(Some(words), count), tail);
    FromBytesOfToBytes(words, count);
  }

  lemma HeaderRoundTrip(t: LogicalType, validity: Validity, count: nat, tail: Bytes)
    requires MaskFits(validity, count) && (validity.Some? ==> 16 * count <= MAX_INT)
    ensures ReadFlatHeader(t, count, FlatHeader(validity, count, tail)) == Ok(validity, tail)
    ensures ReadVectorType(FlatHeader(validity, count, tail)) == Ok(FLAT, FlatHeader(validity, count, tail))
  {
    var s := if validity.Some? then Field(101, Blob(ToBytes(validity, count), tail)) else tail;
    OptionalField(90, 100, Bool(validity.Some?, s));
    OptionalField(99, 100, Bool(validity.Some?, s));
    RequireField(100, Bool(validity.Some?, s));
    BoolRoundTrip(validity.Some?, s);
    if validity.Some? {
      RequireField(101, Blob(ToBytes(validity, count), tail));
      MaskRoundTrip(validity.value, count, tail);
    }
  }

  lemma FixedRoundTrip(t: LogicalType, rows: seq<Cell>, validity: Validity, tail: Bytes)
    requires Physical(t).ConstantSize() && RowsWritable(t, rows)
    requires MaskFits(validity, |rows|) && 16 * |rows| <= MAX_INT
    ensures ReadFixedColumn(t, |rows|, validity, FlatData(t, rows, tail))
            == Ok(Some(DecodeFixed(t, Physical(t), StoredRaws(t, rows), validity)), tail)
  {
    var width, numbers := Physical(t).ByteWidth(), RawNumbers(t, rows);
    var bytes := Raws(width, numbers, []);
    RawsRoundTrip(width, numbers);
    assert 0 <= width * |rows| <= 16 * |rows| by {
      assert (16 - width) * |rows| >= 0;
      assert (16 - width) * |rows| == 16 * |rows| - width * |rows|;
    }
    SignedOfMod(width * |rows|, TWO_64);
    RequireField(102, Blob(bytes, tail));
    BlobRoundTrip(bytes, tail);
    assert RawsOf(width, |rows|, bytes) == StoredRaws(t, rows);
  }

  lemma StringsRoundTrip(t: LogicalType, rows: seq<Cell>, validity: Validity, tail: Bytes)
    requires Physical(t).PVarchar? && RowsWritable(t, rows)
    requires MaskFits(validity, |rows|) && |rows| <= MAX_INT
    ensures ReadStringColumn(t, validity, FlatData(t, rows, tail))
            == Ok(Some(Obj(t, seq(|rows|, i requires 0 <= i < |rows| =>
                 if IsValid(validity, i) then Some(StringLike(t, RowTexts(t, rows)[i])) else None))), tail)
  {
    var texts := RowTexts(t, rows);
    RequiredIntRoundTrip(102, |rows|, Texts(texts, tail));
    TextsRoundTrip(texts, tail);
  }

  lemma {:induction false} FlatRoundTrip(t: LogicalType, vec: Vec, tail: Bytes)
    requires Encodable(t, vec)
    ensures ReadBody(t, vec.Size(), FlatBody(t, vec, tail)) == Ok(Some(Settled(t, vec)), tail)
  {
    var rows, validity := vec.Rows(), ExtractValidity(vec);
    var data := FlatData(t, rows, tail);
    HeaderRoundTrip(t, validity, vec.Size(), data);
    if Physical(t).ConstantSize() {
      FixedRoundTrip(t, rows, validity, tail);
    } else {
      StringsRoundTrip(t, rows, validity, tail);
    }
  }

  lemma {:induction false} VectorRoundTrip(t: LogicalType, vec: Vec, tail: Bytes)
    requires Encodable(t, vec)
    ensures ReadVector(t, vec.Size(), Vector(t, vec, tail)) == Ok(Some(Settled(t, vec)), tail)
  {
    FlatRoundTrip(t, vec, End(tail));
    EndRoundTrip(tail);
  }

  /**
   The exception to the size rule: a string column without nulls decodes under any row count, and has one row per
   string, not one per row of the chunk.
   */
  lemma {:induction false} StringCountUnchecked(t: LogicalType, vec: Vec, count: nat, tail: Bytes)
    requires Encodable(t, vec) && Physical(t).PVarchar? && ExtractValidity(vec).None?
    ensures ReadVector(t, count, Vector(t, vec, tail)) == Ok(Some(Settled(t, vec)), tail)
    ensures Settled(t, vec).Size() == vec.Size()
  {
    hide ReadBody, FlatBody, Encodable;
    StringBodyUnchecked(t, vec, count, End(tail));
    EndRoundTrip(tail);
  }

  lemma {:induction false} StringBodyUnchecked(t: LogicalType, vec: Vec, count: nat, tail: Bytes)
    requires Encodable(t, vec) && Physical(t).PVarchar? && ExtractValidity(vec).None?
    ensures ReadBody(t, count, FlatBody(t, vec, tail)) == Ok(Some(Settled(t, vec)), tail)
  {
    hide ReadStringColumn, FlatData, ReadFlatHeader, ReadVectorType;
    var data := FlatData(t, vec.Rows(), tail);
    assert FlatHeader(None, vec.Size(), data) == FlatHeader(None, count, data);
    HeaderRoundTrip(t, None, count, data);
    StringsRoundTrip(t, vec.Rows(), None, tail);
  }

  // ---- rows ----

  /** The value is one that the column's storage holds exactly; text columns hold strings, binary ones bytes. */
  predicate CanonicalRow(t: LogicalType, c: Cell) {
    c.Some? ==>
      if Physical(t).ConstantSize() then Canonical(t, c.value)
      else if t.id in {BLOB, GEOMETRY, BIT} then c.value.Raw? else c.value.Str?
  }

  predicate CanonicalRows(t: LogicalType, rows: seq<Cell>) {
    forall i | 0 <= i < |rows| :: CanonicalRow(t, rows[i])
  }

  lemma BackCanonical(t: LogicalType, c: Cell)
    requires RowsWritable(t, [c])
    ensures Back(t, c) == c <==> CanonicalRow(t, c)
  {
    assert c in [c];
    if c.Some? && Physical(t).ConstantSize() {
      StoredCell(t, c.value);
    }
  }

  /** A column keeps its rows, values and nulls alike, exactly when every value is canonical for its type. */
  lemma RowsSurvive(t: LogicalType, vec: Vec)
    requires Encodable(t, vec)
    ensures Settled(t, vec).Rows() == vec.Rows() <==> CanonicalRows(t, vec.Rows())
  {
    var before, after := vec.Rows(), Settled(t, vec).Rows();
    forall i | 0 <= i < |before|
      ensures after[i] == before[i] <==> CanonicalRow(t, before[i])
    {
      SettledRow(t, vec, i);
      BackCanonical(t, before[i]);
    }
    if CanonicalRows(t, before) {
      assert after == before;
    }
  }

  /** The column is of the variant that the decoder uses for its type. */
  predicate NativeVariant(t: LogicalType, vec: Vec) {
    vec.Obj? || Primitive(t)
  }

  /** No number was given for a DATE or a TIME that the type's own times do not reach. */
  predicate SteadyRows(t: LogicalType, rows: seq<Cell>) {
    Physical(t).ConstantSize() ==> forall i | 0 <= i < |rows| :: Steady(t, rows[i])
  }

  lemma CanonicalRowsAreSteady(t: LogicalType, rows: seq<Cell>)
    requires CanonicalRows(t, rows)
    ensures SteadyRows(t, rows)
  {
    if Physical(t).ConstantSize() {
      forall i | 0 <= i < |rows| ensures Steady(t, rows[i]) {
        assert CanonicalRow(t, rows[i]);
        if rows[i].Some? {
          CanonicalIsSteady(t, rows[i].value);
        }
      }
    }
  }

  /** A steady row is read back as a canonical one, which is written as the same number or text. */
  lemma SteadyRow(t: LogicalType, c: Cell)
    requires RowsWritable(t, [c]) && (Physical(t).ConstantSize() ==> Steady(t, c))
    ensures CanonicalRow(t, Back(t, c)) && RowsWritable(t, [Back(t, c)])
    ensures Physical(t).ConstantSize() ==>
              Writable(t, Physical(t), c) && Writable(t, Physical(t), Back(t, c))
              && var m := Pow256(Physical(t).ByteWidth());
                 ToRaw(t, Physical(t), Back(t, c)) % m == ToRaw(t, Physical(t), c) % m
    ensures !Physical(t).ConstantSize() ==>
              TextWritable(c) && TextWritable(Back(t, c)) && TextOf(Back(t, c)) == TextOf(c)
  {
    hide ToRaw, Writable, CellFromRaw, Canonical, Holdable, Pow256, Steady;
    assert c in [c];
    if c.Some? && Physical(t).ConstantSize() {
      var raw := ToRaw(t, Physical(t), c) % Pow256(Physical(t).ByteWidth());
      WrittenIsHoldable(t, c);
      RawSurvives(t, raw);
    }
  }

  /**
   Settling twice is settling once: a column of steady rows is read back with canonical rows, and writing it again gives
   the same bytes.
   */
  lemma {:induction false} SettledReencodes(t: LogicalType, vec: Vec, tail: Bytes)
    requires Encodable(t, vec) && SteadyRows(t, vec.Rows()) && NativeVariant(t, vec)
    ensures Encodable(t, Settled(t, vec)) && CanonicalRows(t, Settled(t, vec).Rows())
    ensures FlatBody(t, Settled(t, vec), tail) == FlatBody(t, vec, tail)
    ensures Settled(t, Settled(t, vec)) == Settled(t, vec)
  {
    hide Settled, CanonicalRow, RowsWritable, ExtractValidity, FlatHeader, FlatData;
    var settled := Settled(t, vec);
    SettledRowsSteady(t, vec);
    SettledValidity(t, vec);
    SettledData(t, vec.Rows(), settled.Rows(), tail);
    SettledData(t, vec.Rows(), settled.Rows(), []);
    FlatRoundTrip(t, vec, []);
    FlatRoundTrip(t, settled, []);
  }

  lemma SettledRowsSteady(t: LogicalType, vec: Vec)
    requires Encodable(t, vec) && SteadyRows(t, vec.Rows())
    ensures var before, after := vec.Rows(), Settled(t, vec).Rows();
            CanonicalRows(t, after) && RowsWritable(t, after)
            && forall i | 0 <= i < |before| :: RowsWritable(t, [before[i]]) && after[i] == Back(t, before[i])
  {
    hide Settled, CanonicalRow, Back, Steady;
    var before, after := vec.Rows(), Settled(t, vec).Rows();
    forall i | 0 <= i < |before|
      ensures RowsWritable(t, [before[i]]) && after[i] == Back(t, before[i])
      ensures CanonicalRow(t, after[i]) && RowsWritable(t, [after[i]])
    {
      SettledRow(t, vec, i);
      SteadyRow(t, before[i]);
    }
    EachRowWritable(t, before, after);
  }

  lemma EachRowWritable(t: LogicalType, before: seq<Cell>, after: seq<Cell>)
    requires RowsWritable(t, before) && |after| == |before|
    requires forall i | 0 <= i < |after| :: RowsWritable(t, [after[i]])
    ensures RowsWritable(t, after)
  {
    forall i | 0 <= i < |after|
      ensures if Physical(t).ConstantSize() then Writable(t, Physical(t), after[i]) else TextWritable(after[i])
    {
      assert after[i] in [after[i]];
    }
  }

  lemma SettledValidity(t: LogicalType, vec: Vec)
    requires Encodable(t, vec) && NativeVariant(t, vec)
    ensures ExtractValidity(Settled(t, vec)) == ExtractValidity(vec)
  {
    hide CellFromRaw, ToRaw;
    var settled := Settled(t, vec);
    if settled.Obj? && vec.Obj? {
      forall i | 0 <= i < |vec.cells| ensures settled.cells[i].None? == vec.cells[i].None? {
        NilStays(t, vec, i);
        assert vec.Rows()[i] == vec.cells[i] && settled.Rows()[i] == settled.cells[i];
      }
      assert seq(|settled.cells|, i requires 0 <= i < |settled.cells| => settled.cells[i].None?)
             == seq(|vec.cells|, i requires 0 <= i < |vec.cells| => vec.cells[i].None?);
    }
  }

  lemma NilStays(t: LogicalType, vec: Vec, i: nat)
    requires Encodable(t, vec) && i < vec.Size()
    ensures Settled(t, vec).Rows()[i].None? == vec.Rows()[i].None?
  {
    SettledRow(t, vec, i);
    assert vec.Rows()[i] in [vec.Rows()[i]];
    if vec.Rows()[i].Some? && Physical(t).ConstantSize() {
      ReadIsSome(t, ToRaw(t, Physical(t), vec.Rows()[i]) % Pow256(Physical(t).ByteWidth()));
    }
  }

  lemma ReadIsSome(t: LogicalType, raw: nat)
    requires Physical(t).ConstantSize()
    ensures CellFromRaw(t, Physical(t), raw).Some?
  {
  }

  /** Rows that are written as the same numbers or texts are written as the same bytes. */
  lemma {:induction false} SettledData(t: LogicalType, before: seq<Cell>, after: seq<Cell>, tail: Bytes)
    requires RowsWritable(t, before) && RowsWritable(t, after) && |after| == |before| && SteadyRows(t, before)
    requires forall i | 0 <= i < |before| :: RowsWritable(t, [before[i]]) && after[i] == Back(t, before[i])
    ensures FlatData(t, after, tail) == FlatData(t, before, tail)
  {
    hide Back, ToRaw, Pow256, Steady, Writable, TextWritable;
    if Physical(t).ConstantSize() {
      var width := Physical(t).ByteWidth();
      forall i | 0 <= i < |before|
        ensures RawNumbers(t, after)[i] % Pow256(width) == RawNumbers(t, before)[i] % Pow256(width)
      {
        SteadyRow(t, before[i]);
      }
      RawsCongruent(width, RawNumbers(t, after), RawNumbers(t, before), []);
    } else {
      forall i | 0 <= i < |before| ensures RowTexts(t, after)[i] == RowTexts(t, before)[i] {
        SteadyRow(t, before[i]);
      }
      assert RowTexts(t, after) == RowTexts(t, before);
    }
  }

  /** And only then, for every type but ENUM: bytes that stay the same show that every row was steady. */
  lemma {:induction false} ReencodesExactly(t: LogicalType, vec: Vec, tail: Bytes)
    requires Encodable(t, vec) && NativeVariant(t, vec) && t.id != ENUM
    ensures SteadyRows(t, vec.Rows())
            <==> Encodable(t, Settled(t, vec)) && FlatBody(t, Settled(t, vec), tail) == FlatBody(t, vec, tail)
  {
    hide SteadyRows, Settled, RowsWritable, FlatBody, NativeVariant;
    var settled := Settled(t, vec);
    if SteadyRows(t, vec.Rows()) {
      SettledReencodes(t, vec, tail);
    } else if Encodable(t, settled) && FlatBody(t, settled, tail) == FlatBody(t, vec, tail) {
      SameBytesSteady(t, vec, settled, tail);
    }
  }

  lemma {:induction false} SameBytesSteady(t: LogicalType, vec: Vec, settled: Vec, tail: Bytes)
    requires Encodable(t, vec) && t.id != ENUM && settled == Settled(t, vec) && Encodable(t, settled)
    requires FlatBody(t, settled, tail) == FlatBody(t, vec, tail)
    ensures SteadyRows(t, vec.Rows())
  {
    hide Settled, Steady, ToRaw, Writable, CellFromRaw, Holdable, Pow256, FlatData, ReadFlatHeader, FlatHeader;
    if Physical(t).ConstantSize() {
      var before, after := vec.Rows(), settled.Rows();
      HeaderRoundTrip(t, ExtractValidity(vec), vec.Size(), FlatData(t, before, tail));
      HeaderRoundTrip(t, ExtractValidity(settled), settled.Size(), FlatData(t, after, tail));
      SameDataSameNumbers(t, before, after, tail);
      forall i | 0 <= i < |before| ensures Steady(t, before[i]) {
        SettledRow(t, vec, i);
        StoredRaw(t, before, i);
        RewrittenSteady(t, before[i], after, i);
      }
    }
  }

  lemma {:induction false} SameDataSameNumbers(t: LogicalType, a: seq<Cell>, b: seq<Cell>, tail: Bytes)
    requires Physical(t).ConstantSize() && RowsWritable(t, a) && RowsWritable(t, b) && |a| == |b|
    requires 16 * |a| <= MAX_INT && FlatData(t, a, tail) == FlatData(t, b, tail)
    ensures StoredRaws(t, a) == StoredRaws(t, b)
  {
    hide DecodeFixed, ReadFixedColumn;
    var width := Physical(t).ByteWidth();
    var x, y := Raws(width, RawNumbers(t, a), []), Raws(width, RawNumbers(t, b), []);
    RawsRoundTrip(width, RawNumbers(t, a));
    RawsRoundTrip(width, RawNumbers(t, b));
    MulRange(|a|, width, 16);
    RequireField(102, Blob(x, tail));
    RequireField(102, Blob(y, tail));
    BlobRoundTrip(x, tail);
    BlobRoundTrip(y, tail);
    assert x == y;
    assert StoredRaws(t, a) == RawsOf(width, |a|, x);
    assert StoredRaws(t, b) == RawsOf(width, |b|, y);
  }

  lemma RewrittenSteady(t: LogicalType, c: Cell, after: seq<Cell>, i: nat)
    requires Physical(t).ConstantSize() && t.id != ENUM && RowsWritable(t, [c]) && RowsWritable(t, after) && i < |after|
    requires after[i] == Back(t, c)
    requires Writable(t, Physical(t), c)
    requires StoredRaws(t, after)[i] == ToRaw(t, Physical(t), c) % Pow256(Physical(t).ByteWidth())
    ensures Steady(t, c)
  {
    hide ToRaw, Writable, CellFromRaw, Holdable, Pow256, Canonical;
    if c.Some? {
      var raw := ToRaw(t, Physical(t), c) % Pow256(Physical(t).ByteWidth());
      StoredRaw(t, after, i);
      RawSurvives(t, raw);
      WrittenIsHoldable(t, c);
    }
  }

  // ---- chunks ----

  function SettledColumns(types: seq<LogicalType>, columns: seq<Option<Vec>>, rowCount: nat): (settled: seq<Option<Vec>>)
    requires ColumnsEncodable(types, columns, rowCount)
    ensures |settled| == |columns|
  {
    seq(|columns|, i requires 0 <= i < |columns| => Some(Settled(types[i], columns[i].value)))
  }

  function SettledChunk(chunk: DataChunk): DataChunk
    requires ChunkEncodable(chunk)
  {
    DataChunk(chunk.rowCount, chunk.types, SettledColumns(chunk.types, chunk.columns, chunk.rowCount))
  }

  lemma {:induction false} ColumnsRoundTrip(types: seq<LogicalType>, columns: seq<Option<Vec>>, rowCount: nat,
                                            tail: Bytes)
    requires ColumnsEncodable(types, columns, rowCount)
    ensures ReadColumns(types, rowCount, |columns|, Columns(types, columns, rowCount, tail))
            == Ok(SettledColumns(types, columns, rowCount), tail)
  {
    if columns != [] {
      var rest := Columns(types[1..], columns[1..], rowCount, tail);
      VectorRoundTrip(types[0], columns[0].value, rest);
      ColumnsRoundTrip(types[1..], columns[1..], rowCount, tail);
      SettledColumnsHead(types, columns, rowCount);
    }
  }

  lemma SettledColumnsHead(types: seq<LogicalType>, columns: seq<Option<Vec>>, rowCount: nat)
    requires columns != [] && ColumnsEncodable(types, columns, rowCount)
    ensures SettledColumns(types, columns, rowCount)
            == [Some(Settled(types[0], columns[0].value))] + SettledColumns(types[1..], columns[1..], rowCount)
  {
    hide Settled, Encodable;
  }

  predicate ChunkPortable(chunk: DataChunk) {
    forall t | t in chunk.types :: Portable(t)
  }

  /** Prefix form: decoding an encoded chunk gives its settled form and stops exactly where the chunk ends. */
  lemma ChunkRoundTrip(chunk: DataChunk, tail: Bytes)
    requires ChunkEncodable(chunk) && TypesPortable(chunk.types)
    ensures ReadChunk(Chunk(chunk, tail)) == Ok(SettledChunk(chunk), tail)
  {
    ChunkStart(chunk, tail);
    TypesRoundTrip(chunk.types, ChunkColumns(chunk, tail));
    ColumnsSurvive(chunk, tail);
  }

  /** With a type that does not survive the wire, the chunk does not either. */
  lemma ChunkTypesLost(chunk: DataChunk, tail: Bytes)
    requires ChunkEncodable(chunk) && !TypesPortable(chunk.types)
    ensures var r := ReadChunk(Chunk(chunk, tail)); !(r.Ok? && r.value == SettledChunk(chunk))
  {
    hide ReadColumns, ReadTypes, Types, Columns, TypesPortable, Chunk, RequiredInt;
    ChunkStart(chunk, tail);
    TypesRoundTrip(chunk.types, ChunkColumns(chunk, tail));
  }

  lemma ChunkSurvives(chunk: DataChunk, tail: Bytes)
    requires ChunkEncodable(chunk)
    ensures Survives(ReadChunk(Chunk(chunk, tail)), ChunkPortable(chunk), SettledChunk(chunk), tail)
  {
    if ChunkPortable(chunk) {
      ChunkRoundTrip(chunk, tail);
    } else {
      ChunkTypesLost(chunk, tail);
    }
  }

  function ChunkColumns(chunk: DataChunk, tail: Bytes): Bytes
    requires ChunkEncodable(chunk)
  {
    Field(102, Int(|chunk.types|, Columns(chunk.types, chunk.columns, chunk.rowCount, End(tail))))
  }

  lemma ChunkStart(chunk: DataChunk, tail: Bytes)
    requires ChunkEncodable(chunk)
    ensures var n := |chunk.types|;
            var s2 := Types(chunk.types, ChunkColumns(chunk, tail));
            Chunk(chunk, tail) == Field(100, Int(chunk.rowCount, Field(101, Int(n, s2))))
            && RequiredInt(100, Chunk(chunk, tail)) == Ok(chunk.rowCount, Field(101, Int(n, s2)))
            && RequiredInt(101, Field(101, Int(n, s2))) == Ok(n, s2)
  {
    var n := |chunk.types|;
    var s2 := Types(chunk.types, ChunkColumns(chunk, tail));
    RequiredIntRoundTrip(100, chunk.rowCount, Field(101, Int(n, s2)));
    RequiredIntRoundTrip(101, n, s2);
  }

  lemma ColumnsSurvive(chunk: DataChunk, tail: Bytes)
    requires ChunkEncodable(chunk)
    ensures var n := |chunk.types|;
            var s4 := Columns(chunk.types, chunk.columns, chunk.rowCount, End(tail));
            RequiredInt(102, Field(102, Int(n, s4))) == Ok(n, s4)
            && ReadColumns(chunk.types, chunk.rowCount, n, s4)
               == Ok(SettledColumns(chunk.types, chunk.columns, chunk.rowCount), End(tail))
            && ReadEnd(End(tail)) == Ok((), tail)
  {
    RequiredIntRoundTrip(102, |chunk.types|, Columns(chunk.types, chunk.columns, chunk.rowCount, End(tail)));
    ColumnsRoundTrip(chunk.types, chunk.columns, chunk.rowCount, End(tail));
    EndRoundTrip(tail);
  }

  lemma ChunkWrapperRoundTrip(chunk: DataChunk, tail: Bytes)
    requires ChunkEncodable(chunk)
    ensures Survives(ReadChunkWrapper(ChunkWrapper(chunk, tail)), ChunkPortable(chunk), SettledChunk(chunk), tail)
  {
    RequireField(300, Chunk(chunk, End(tail)));
    ChunkSurvives(chunk, End(tail));
    EndRoundTrip(tail);
  }

  // ---- what a chunk shows ----

  predicate SameColumn(a: Option<Vec>, b: Option<Vec>) {
    a.Some? && b.Some? && a.value.WellSized() && b.value.WellSized() && a.value.Rows() == b.value.Rows()
  }

  /** The same row count and types, and row by row the same columns. */
  predicate SameChunk(a: DataChunk, b: DataChunk) {
    a.rowCount == b.rowCount && a.types == b.types && |a.columns| == |b.columns|
    && forall i | 0 <= i < |a.columns| :: SameColumn(a.columns[i], b.columns[i])
  }

  predicate RowsCanonical(chunk: DataChunk)
    requires ChunkEncodable(chunk)
  {
    forall i | 0 <= i < |chunk.columns| :: CanonicalRows(chunk.types[i], chunk.columns[i].value.Rows())
  }

  /** The chunk that comes back shows the same rows if and only if every row is canonical. */
  lemma ChunkRowsSurvive(chunk: DataChunk)
    requires ChunkEncodable(chunk)
    ensures SameChunk(chunk, SettledChunk(chunk)) <==> RowsCanonical(chunk)
  {
    hide CanonicalRows, Settled;
    var back := SettledChunk(chunk);
    forall i | 0 <= i < |chunk.columns|
      ensures SameColumn(chunk.columns[i], back.columns[i])
              <==> CanonicalRows(chunk.types[i], chunk.columns[i].value.Rows())
    {
      RowsSurvive(chunk.types[i], chunk.columns[i].value);
    }
  }

  /** Every column holds values its storage keeps, in the variant that the decoder uses. */
  predicate CanonicalChunk(chunk: DataChunk)
    requires ChunkEncodable(chunk)
  {
    RowsCanonical(chunk)
    && forall i | 0 <= i < |chunk.columns| :: NativeVariant(chunk.types[i], chunk.columns[i].value)
  }

  ghost predicate SameBytes(t: LogicalType, a: Vec, b: Vec) {
    Encodable(t, a) && Encodable(t, b) && forall tail :: FlatBody(t, a, tail) == FlatBody(t, b, tail)
  }

  lemma {:induction false} ColumnsSameBytes(types: seq<LogicalType>, a: seq<Option<Vec>>, b: seq<Option<Vec>>,
                                            rowCount: nat, tail: Bytes)
    requires ColumnsEncodable(types, a, rowCount) && ColumnsEncodable(types, b, rowCount)
    requires forall i | 0 <= i < |types| :: SameBytes(types[i], a[i].value, b[i].value)
    ensures Columns(types, a, rowCount, tail) == Columns(types, b, rowCount, tail)
  {
    if types != [] {
      ColumnsSameBytes(types[1..], a[1..], b[1..], rowCount, tail);
      assert SameBytes(types[0], a[0].value, b[0].value);
    }
  }

  /** Every row is one that is written as it is read back, in the variant that the decoder uses. */
  predicate SteadyChunk(chunk: DataChunk)
    requires ChunkEncodable(chunk)
  {
    forall i | 0 <= i < |chunk.columns| ::
      SteadyRows(chunk.types[i], chunk.columns[i].value.Rows())
      && NativeVariant(chunk.types[i], chunk.columns[i].value)
  }

  /** A canonical chunk is read back with the same rows, and writing it again gives identical bytes. */
  lemma CanonicalChunkSurvives(chunk: DataChunk, tail: Bytes)
    requires ChunkEncodable(chunk) && CanonicalChunk(chunk)
    ensures var back := SettledChunk(chunk);
            (ChunkPortable(chunk) <==> ReadChunk(Chunk(chunk, tail)) == Ok(back, tail))
            && ChunkEncodable(back) && Chunk(back, tail) == Chunk(chunk, tail) && SameChunk(chunk, back)
  {
    hide Chunk, ReadChunk, CanonicalRows, SteadyRows, Settled, RowsWritable;
    ChunkSurvives(chunk, tail);
    ChunkRowsSurvive(chunk);
    forall i | 0 <= i < |chunk.columns| ensures SteadyRows(chunk.types[i], chunk.columns[i].value.Rows()) {
      CanonicalRowsAreSteady(chunk.types[i], chunk.columns[i].value.Rows());
    }
    SteadyChunkReencodes(chunk, tail);
  }

  /** A chunk of steady rows settles once: what is read back is written as the same bytes and settles to itself. */
  lemma SteadyChunkReencodes(chunk: DataChunk, tail: Bytes)
    requires ChunkEncodable(chunk) && SteadyChunk(chunk)
    ensures var back := SettledChunk(chunk);
            ChunkEncodable(back) && Chunk(back, tail) == Chunk(chunk, tail)
            && RowsCanonical(back) && SettledChunk(back) == back
  {
    hide CanonicalRows, SteadyRows, NativeVariant, Settled, FlatBody, Encodable, Columns;
    var types, columns, back := chunk.types, chunk.columns, SettledChunk(chunk);
    forall i | 0 <= i < |columns|
      ensures SameBytes(types[i], back.columns[i].value, columns[i].value)
      ensures CanonicalRows(types[i], back.columns[i].value.Rows())
      ensures Settled(types[i], back.columns[i].value) == back.columns[i].value
    {
      ColumnReencodes(types[i], columns[i].value);
    }
    ColumnsSameBytes(types, back.columns, columns, chunk.rowCount, End(tail));
  }

  lemma {:induction false} ColumnReencodes(t: LogicalType, vec: Vec)
    requires Encodable(t, vec) && SteadyRows(t, vec.Rows()) && NativeVariant(t, vec)
    ensures var settled := Settled(t, vec);
            SameBytes(t, settled, vec) && CanonicalRows(t, settled.Rows()) && Settled(t, settled) == settled
  {
    hide CanonicalRows, SteadyRows, NativeVariant, Settled, FlatBody, Encodable;
    SettledReencodes(t, vec, []);
    forall tail: Bytes ensures FlatBody(t, Settled(t, vec), tail) == FlatBody(t, vec, tail) {
      SettledReencodes(t, vec, tail);
    }
  }
}
