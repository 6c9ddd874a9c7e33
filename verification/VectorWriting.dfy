/** Columns and chunks through the writer, row by row; the wire form is that of VectorEncoder. */
module VectorWriting {
  import opened Numbers
  import opened Wire
  import opened QuackTypes
  import opened Validity
  import opened ValidityArrays
  import opened HugeInts
  import opened Uuids
  import opened TypeCodec
  import opened Vectors
  import opened VectorEncoder
  import opened BinaryWriters
  import TypeIO

  /** The position of an ENUM string, found by trying the values in order. */
  method FindEnum(values: seq<Text>, text: Text) returns (index: nat)
    requires text in values
    ensures index == IndexOf(values, text)
  {
    index := 0;
    assert values[0..] == values;
    while values[index] != text
      invariant index < |values| && text in values[index..]
      invariant IndexOf(values, text) == index + IndexOf(values[index..], text)
      decreases |values| - index
    {
      assert values[index..][1..] == values[index + 1..];
      index := index + 1;
    }
  }

  /** 128 bits are two words, the lower one first. */
  lemma TwoWords(v: int, lower: int, upper: int)
    requires (v - (lower + TWO_64 * upper)) % TWO_128 == 0 && 0 <= lower < TWO_64
    ensures forall rest: Bytes {:trigger Le(16, v, rest)} :: Le(16, v, rest) == Le(8, lower, Le(8, upper, rest))
  {
    Pow256Values();
    ModEqual(v, lower + TWO_64 * upper, TWO_128);
    forall rest: Bytes ensures Le(16, v, rest) == Le(8, lower, Le(8, upper, rest)) {
      LeCongruent(16, v, lower + TWO_64 * upper, rest);
      LeSplit(8, 8, lower, upper, rest);
    }
  }

  method WriteTwoWords(w: BinaryWriter, v: int, lower: int, upper: int)
    requires (v - (lower + TWO_64 * upper)) % TWO_128 == 0 && 0 <= lower < TWO_64
    modifies w`buf
    ensures w.err.Some? ==> w.buf == old(w.buf)
    ensures w.err.None? ==>
              forall rest: Bytes {:trigger w.buf + rest} :: w.buf + rest == old(w.buf) + Le(16, v, rest)
  {
    hide Le;
    TwoWords(v, lower, upper);
    w.WriteFixed(8, lower);
    w.WriteFixed(8, upper);
  }

  /** Months, days and microseconds, one after the other. */
  lemma ThreeParts(months: int, days: int, micros: int)
    ensures forall rest: Bytes {:trigger Le(8, micros, rest)} ::
              Le(4, months, Le(4, days, Le(8, micros, rest)))
              == Le(16, months % TWO_32 + TWO_32 * (days % TWO_32 + TWO_32 * micros), rest)
  {
    hide Le;
    forall rest: Bytes ensures Le(4, months, Le(4, days, Le(8, micros, rest)))
                               == Le(16, months % TWO_32 + TWO_32 * (days % TWO_32 + TWO_32 * micros), rest) {
      LowPart(days, micros, 8, rest);
      LowPart(months, days % TWO_32 + TWO_32 * micros, 12, rest);
    }
  }

  lemma {:induction false} LowPart(low: int, high: int, n: nat, rest: Bytes)
    ensures Le(4, low, Le(n, high, rest)) == Le(4 + n, low % TWO_32 + TWO_32 * high, rest)
  {
    hide Le;
    Pow256Values();
    ModUnique(low % TWO_32, TWO_32, 0, low % TWO_32);
    LeCongruent(4, low, low % TWO_32, Le(n, high, rest));
    LeSplit(4, n, low % TWO_32, high, rest);
  }

  method WriteInterval(w: BinaryWriter, months: int, days: int, micros: int)
    modifies w`buf
    ensures w.err.Some? ==> w.buf == old(w.buf)
    ensures w.err.None? ==> forall rest: Bytes {:trigger w.buf + rest} ::
              w.buf + rest
              == old(w.buf) + Le(16, months % TWO_32 + TWO_32 * (days % TWO_32 + TWO_32 * micros), rest)
  {
    hide Le;
    ThreeParts(months, days, micros);
    w.WriteFixed(4, months);
    w.WriteFixed(4, days);
    w.WriteFixed(8, micros);
  }

  method EncodeInt128(w: BinaryWriter, v: int)
    modifies w`buf
    ensures w.err.Some? ==> w.buf == old(w.buf)
    ensures w.err.None? ==>
              forall rest: Bytes {:trigger w.buf + rest} :: w.buf + rest == old(w.buf) + Le(16, v, rest)
  {
    var parts := FromSigned(v);
    SignedOfParts(v);
    WriteTwoWords(w, v, parts.lower, parts.upper);
  }

  method EncodeUint128(w: BinaryWriter, v: int)
    modifies w`buf
    ensures w.err.Some? ==> w.buf == old(w.buf)
    ensures w.err.None? ==>
              forall rest: Bytes {:trigger w.buf + rest} :: w.buf + rest == old(w.buf) + Le(16, v, rest)
  {
    var lower, upper := v % TWO_64, (v / TWO_64) % TWO_64;
    ghost var k := v / TWO_64 / TWO_64;
    assert v - (lower + TWO_64 * upper) == TWO_128 * k + 0;
    ModUnique(v - (lower + TWO_64 * upper), TWO_128, k, 0);
    WriteTwoWords(w, v, lower, upper);
  }

  method EncodeFixedValue(w: BinaryWriter, t: LogicalType, c: Cell)
    requires Physical(t).ConstantSize() && Writable(t, Physical(t), c)
    modifies w`buf
    ensures w.err.Some? ==> w.buf == old(w.buf)
    ensures w.err.None? ==> forall rest: Bytes {:trigger w.buf + rest} ::
              w.buf + rest == old(w.buf) + Le(Physical(t).ByteWidth(), ToRaw(t, Physical(t), c), rest)
  {
    hide Le;
    var p := Physical(t);
    if p.PInt128? {
      if c.Some? && t.id == UUID {
        var parts := if c.value.Str? then UuidParts(c.value.text) else ZERO;
        assert SignedBig(parts) - (parts.lower + TWO_64 * parts.upper) == 0;
        WriteTwoWords(w, SignedBig(parts), parts.lower, parts.upper);
      } else {
        EncodeInt128(w, ToRaw(t, p, c));
      }
    } else if p.PUint128? {
      EncodeUint128(w, ToRaw(t, p, c));
    } else if p.PInterval? {
      if c.Some? && c.value.Interval? {
        WriteInterval(w, c.value.months, c.value.days, c.value.micros);
      } else {
        WriteInterval(w, 0, 0, 0);
      }
    } else if (p.PUint8? || p.PUint16? || p.PUint32?) && c.Some? && t.id == ENUM {
      var index := FindEnum(EnumValues(t), c.value.text);
      w.WriteFixed(p.ByteWidth(), index);
    } else {
      w.WriteFixed(p.ByteWidth(), ToRaw(t, p, c));
    }
  }

  method EncodeFixedBytes(t: LogicalType, vec: Vec) returns (bytes: Bytes)
    requires Encodable(t, vec) && Physical(t).ConstantSize()
    ensures bytes == Raws(Physical(t).ByteWidth(), RawNumbers(t, vec.Rows()), [])
  {
    ghost var width, numbers := Physical(t).ByteWidth(), RawNumbers(t, vec.Rows());
    var buf := new BinaryWriter();
    assert numbers[0..] == numbers;
    for i := 0 to vec.Size()
      invariant fresh(buf) && buf.err.None?
      invariant buf.buf + Raws(width, numbers[i..], []) == Raws(width, numbers, [])
    {
      assert vec.GetObject(i) == vec.Rows()[i];
      assert numbers[i..][1..] == numbers[i + 1..];
      ghost var before := buf.buf;
      EncodeFixedValue(buf, t, vec.GetObject(i));
      assert buf.buf + Raws(width, numbers[i + 1..], [])
          == before + Le(width, numbers[i], Raws(width, numbers[i + 1..], []));
    }
    return buf.buf;
  }

  /** A typed column carries its bitmap; that of an object column is built from its nil rows. */
  method FindValidity(vec: Vec) returns (validity: Validity)
    ensures validity == ExtractValidity(vec)
  {
    match vec
    case Prim(_, _, _, v) => validity := v;
    case Obj(_, cells) =>
      var nulls := seq(|cells|, i requires 0 <= i < |cells| => cells[i].None?);
      var bitmap := BitmapOfNulls(nulls);
      validity := if bitmap == null then None else Some(bitmap[..]);
  }

  method MaskBytes(validity: Validity, count: nat) returns (bytes: Bytes)
    requires validity.Some? && |validity.value| <= WordCount(count)
    ensures bytes == ToBytes(validity, count)
  {
    var words := new Word[|validity.value|](i requires 0 <= i < |validity.value| => validity.value[i]);
    assert words[..] == validity.value;
    var out := BitmapToBytes(words, count);
    return out[..];
  }

  method EncodeHeader(w: BinaryWriter, validity: Validity, count: nat)
    requires validity.Some? ==> |validity.value| <= WordCount(count)
    requires 16 * count <= MAX_INT
    modifies w`buf
    ensures w.err.Some? ==> w.buf == old(w.buf)
    ensures w.err.None? ==> forall rest: Bytes {:trigger w.buf + rest} ::
              w.buf + rest == old(w.buf) + FlatHeader(validity, count, rest)
  {
    w.WriteFieldID(100);
    w.WriteBool(validity.Some?);
    if validity.Some? {
      var bytes := MaskBytes(validity, count);
      w.WriteFieldID(101);
      w.WriteBlob(bytes);
    }
  }

  method EncodeStrings(w: BinaryWriter, t: LogicalType, vec: Vec)
    requires Encodable(t, vec) && Physical(t).PVarchar?
    modifies w`buf
    ensures w.err.Some? ==> w.buf == old(w.buf)
    ensures w.err.None? ==> forall rest: Bytes {:trigger w.buf + rest} ::
              w.buf + rest == old(w.buf) + Int(vec.Size(), Texts(RowTexts(t, vec.Rows()), rest))
  {
    ghost var texts := RowTexts(t, vec.Rows());
    TypeIO.WriteInt(w, vec.Size());
    ghost var mid := w.buf;
    assert texts[0..] == texts;
    for i := 0 to vec.Size()
      invariant w.err == old(w.err) && (w.err.Some? ==> w.buf == old(w.buf))
      invariant w.err.None? ==> forall rest: Bytes :: w.buf + Texts(texts[i..], rest) == mid + Texts(texts, rest)
    {
      assert texts[i..][1..] == texts[i + 1..];
      assert vec.GetObject(i) == vec.Rows()[i];
      w.WriteBlob(TextOf(vec.GetObject(i)));
    }
  }

  method EncodeFlatBody(w: BinaryWriter, t: LogicalType, vec: Vec)
    requires Encodable(t, vec)
    modifies w`buf
    ensures w.err.Some? ==> w.buf == old(w.buf)
    ensures w.err.None? ==>
              forall rest: Bytes {:trigger w.buf + rest} :: w.buf + rest == old(w.buf) + FlatBody(t, vec, rest)
  {
    hide Encodable, Texts, Raws, FlatHeader;
    var validity := FindValidity(vec);
    EncodableSizes(t, vec);
    EncodeHeader(w, validity, vec.Size());
    w.WriteFieldID(102);
    if Physical(t).ConstantSize() {
      var bytes := EncodeFixedBytes(t, vec);
      w.WriteBlob(bytes);
    } else {
      EncodeStrings(w, t, vec);
    }
  }

  lemma EncodableSizes(t: LogicalType, vec: Vec)
    requires Encodable(t, vec)
    ensures vec.WellSized() && RowsWritable(t, vec.Rows()) && 16 * vec.Size() <= MAX_INT
    ensures ExtractValidity(vec).Some? ==> |ExtractValidity(vec).value| <= WordCount(vec.Size())
    ensures Physical(t).ConstantSize() ==>
              |Raws(Physical(t).ByteWidth(), RawNumbers(t, vec.Rows()), [])| <= MAX_INT
  {
    if Physical(t).ConstantSize() {
      var width := Physical(t).ByteWidth();
      assert (16 - width) * vec.Size() >= 0;
      assert (16 - width) * vec.Size() == 16 * vec.Size() - width * vec.Size();
    }
  }

  method EncodeVector(w: BinaryWriter, t: LogicalType, vec: Vec)
    requires Encodable(t, vec)
    modifies w`buf
    ensures w.err.Some? ==> w.buf == old(w.buf)
    ensures w.err.None? ==>
              forall rest: Bytes {:trigger w.buf + rest} :: w.buf + rest == old(w.buf) + Vector(t, vec, rest)
  {
    EncodeFlatBody(w, t, vec);
    w.WriteEnd();
  }

  /** One column per type, each with as many rows as the chunk. */
  method EncodeDataChunk(w: BinaryWriter, chunk: DataChunk)
    requires ChunkEncodable(chunk)
    modifies w`buf
    ensures w.err.Some? ==> w.buf == old(w.buf)
    ensures w.err.None? ==>
              forall rest: Bytes {:trigger w.buf + rest} :: w.buf + rest == old(w.buf) + Chunk(chunk, rest)
  {
    hide Types, Columns;
    w.WriteFieldID(100);
    TypeIO.WriteInt(w, chunk.rowCount);
    w.WriteFieldID(101);
    TypeIO.EncodeTypes(w, chunk.types);
    w.WriteFieldID(102);
    EncodeColumns(w, chunk.types, chunk.columns, chunk.rowCount);
    w.WriteEnd();
  }

  method EncodeColumns(w: BinaryWriter, types: seq<LogicalType>, columns: seq<Option<Vec>>, rowCount: nat)
    requires ColumnsEncodable(types, columns, rowCount)
    modifies w`buf
    ensures w.err.Some? ==> w.buf == old(w.buf)
    ensures w.err.None? ==> forall rest: Bytes {:trigger w.buf + rest} ::
              w.buf + rest == old(w.buf) + Int(|columns|, Columns(types, columns, rowCount, rest))
  {
    TypeIO.WriteInt(w, |columns|);
    ghost var mid := w.buf;
    assert types[0..] == types && columns[0..] == columns;
    for i := 0 to |columns|
      invariant w.err == old(w.err) && (w.err.Some? ==> w.buf == old(w.buf))
      invariant ColumnsEncodable(types[i..], columns[i..], rowCount)
      invariant w.err.None? ==> forall rest: Bytes ::
                  w.buf + Columns(types[i..], columns[i..], rowCount, rest) == mid + Columns(types, columns, rowCount, rest)
    {
      assert types[i..][1..] == types[i + 1..] && columns[i..][1..] == columns[i + 1..];
      EncodeVector(w, types[i], columns[i].value);
    }
  }

  method EncodeDataChunkWrapper(w: BinaryWriter, chunk: DataChunk)
    requires ChunkEncodable(chunk)
    modifies w`buf
    ensures w.err.Some? ==> w.buf == old(w.buf)
    ensures w.err.None? ==>
              forall rest: Bytes {:trigger w.buf + rest} :: w.buf + rest == old(w.buf) + ChunkWrapper(chunk, rest)
  {
    w.WriteFieldID(300);
    EncodeDataChunk(w, chunk);
    w.WriteEnd();
  }
}
