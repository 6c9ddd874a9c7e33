/** Chunks and columns in plain bytes. */
module ColumnWire {
  import opened Numbers
  import opened Wire
  import opened QuackTypes
  import opened TypeCodec
  import opened Validity
  import ValidityArrays
  import opened Vectors
  import opened VectorEncoder
  import opened VectorDecoder
  import opened VectorLayouts
  import opened WireBytes

  /** The chunk wrapper has field 300, whose two bytes are 0x2C and 1. */
  lemma {:induction false} WrapperBytes(chunk: DataChunk, tail: Bytes)
    requires ChunkEncodable(chunk)
    ensures ChunkWrapper(chunk, tail) == [0x2C, 1] + Chunk(chunk, X(tail))
  {
    hide Chunk;
    EndIs();
    assert Le(1, 1, Chunk(chunk, X(tail))) == [1] + Le(0, 0, Chunk(chunk, X(tail)));
    assert [0x2C] + ([1] + Chunk(chunk, X(tail))) == [0x2C, 1] + Chunk(chunk, X(tail));
  }

  lemma {:induction false} ChunkBytes(chunk: DataChunk, tail: Bytes)
    requires ChunkEncodable(chunk)
    ensures Chunk(chunk, tail)
            == F(100, N(chunk.rowCount, F(101, N(|chunk.types|, Types(chunk.types,
                 F(102, N(|chunk.columns|, Columns(chunk.types, chunk.columns, chunk.rowCount, X(tail)))))))))
  {
    hide Field, Uleb, Types, Columns;
    FieldIs(100);
    FieldIs(101);
    FieldIs(102);
    EndIs();
    NumberIs(chunk.rowCount);
    NumberIs(|chunk.types|);
  }

  /** A bitmap has field 101 behind a byte 1 in field 100; without one the byte is 0. */
  lemma {:induction false} HeaderBytes(validity: Validity, count: nat, tail: Bytes)
    requires validity.Some? ==> |validity.value| <= WordCount(count)
    ensures FlatHeader(validity, count, tail)
            == F(100, if validity.Some? then [1] + F(101, Blob(ToBytes(validity, count), tail)) else [0] + tail)
  {
    hide Field, Uleb;
    FieldIs(100);
    FieldIs(101);
  }

  /** The data of a flat column is field 102: one blob of numbers, or a list of texts. */
  lemma {:induction false} DataBytes(t: LogicalType, rows: seq<Cell>, tail: Bytes)
    requires RowsWritable(t, rows) && |rows| <= MAX_INT
    ensures Physical(t).ConstantSize() ==>
              FlatData(t, rows, tail) == F(102, Blob(Raws(Physical(t).ByteWidth(), RawNumbers(t, rows), []), tail))
    ensures Physical(t).PVarchar? ==> FlatData(t, rows, tail) == F(102, N(|rows|, Texts(RowTexts(t, rows), tail)))
  {
    hide Field, Uleb;
    FieldIs(102);
    NumberIs(|rows|);
  }

  /** Vector layouts 2, 3 and 4 are named in field 90; a flat column names none. */
  lemma {:induction false} LayoutBytes(t: LogicalType, count: nat, l: Layout, tail: Bytes)
    requires Legal(t, count, l)
    ensures l.ConstantLayout? ==> Body(t, count, l, tail) == F(90, [2] + Body(t, OneOrNone(count), l.single, tail))
    ensures l.DictionaryLayout? ==>
              Body(t, count, l, tail)
              == F(90, [3] + F(91, Blob(Raws(4, l.selection, []),
                   F(92, N(l.dictCount, Body(t, l.dictCount, l.dictionary, tail))))))
    ensures l.SequenceLayout? ==>
              Body(t, count, l, tail) == F(90, [4] + F(91, Sleb(l.start, F(92, Sleb(l.incr, tail)))))
  {
    hide Field, Blob, Sleb;
    FieldIs(90);
    FieldIs(91);
    FieldIs(92);
    SmallNumber(2);
    SmallNumber(3);
    SmallNumber(4);
    if l.DictionaryLayout? {
      NumberIs(l.dictCount);
    }
  }

  lemma SmallNumber(n: nat)
    requires n < 128
    ensures forall tail: Bytes {:trigger Int(n, tail)} :: Int(n, tail) == [n] + tail
  {
    ModUnique(n, TWO_64, 0, n);
  }

  /** The numbers, texts, entries and children of a column without a layout number. */
  lemma {:induction false} LeafBytes(t: LogicalType, count: nat, l: Layout, tail: Bytes)
    requires Legal(t, count, l)
    ensures l.FixedLayout? ==>
              Body(t, count, l, tail)
              == FlatHeader(l.validity, count, F(102, Blob(Raws(Physical(t).ByteWidth(), l.raws, []), tail)))
    ensures l.TextLayout? ==>
              var column := FlatHeader(l.validity, count, F(102, N(count, Texts(l.texts, tail))));
              Body(t, count, l, tail) == if l.format.Some? then F(99, N(l.format.value, column)) else column
  {
    hide Field, Blob, FlatHeader, Uleb;
    FieldIs(99);
    FieldIs(102);
    NumberIs(count);
    if l.TextLayout? && l.format.Some? {
      NumberIs(l.format.value);
    }
  }

  lemma {:induction false} NestedBytes(t: LogicalType, count: nat, l: Layout, tail: Bytes)
    requires Legal(t, count, l)
    ensures l.ListLayout? ==>
              Body(t, count, l, tail)
              == FlatHeader(l.validity, count, F(104, N(l.childCount, F(105, N(count, Entries(l.entries,
                   F(106, Body(ChildTypeOf(t), l.childCount, l.child, X(tail)))))))))
    ensures l.StructLayout? ==>
              Body(t, count, l, tail)
              == FlatHeader(l.validity, count, F(103, Int(|l.children|,
                   Bodies(StructChildren(t), count, l.children, tail))))
    ensures l.ArrayLayout? ==>
              Body(t, count, l, tail)
              == FlatHeader(l.validity, count, F(103, N(ArraySize(t),
                   F(104, Body(ChildTypeOf(t), ItemCount(t, count), l.child, X(tail))))))
  {
    hide Field, FlatHeader, Uleb, Entries, Bodies, ItemCount;
    FieldIs(103);
    FieldIs(104);
    FieldIs(105);
    FieldIs(106);
    EndIs();
    NumberIs(count);
    if l.ListLayout? {
      NumberIs(l.childCount);
    }
    if l.ArrayLayout? {
      NumberIs(ArraySize(t));
    }
  }

  lemma {:induction false} EntryBytes(entry: ListEntry, others: seq<ListEntry>, tail: Bytes)
    requires entry.offset <= MAX_INT && entry.length <= MAX_INT
    ensures Entries([entry] + others, tail)
            == F(100, N(entry.offset, F(101, N(entry.length, X(Entries(others, tail))))))
  {
    hide Field, Uleb;
    FieldIs(100);
    FieldIs(101);
    EndIs();
    NumberIs(entry.offset);
    NumberIs(entry.length);
    assert ([entry] + others)[1..] == others;
  }

  // ---- texts ----

  /** BLOB, BIT and GEOMETRY rows are bytes, all other texts are strings. */
  lemma TextKinds(t: LogicalType, text: Text)
    ensures StringLike(t, text) == if t.id in {26, 36, 60} then Raw(text) else Str(text)
  {
  }

  // ---- bitmaps ----

  /** Row k of a bitmap is bit k % 8, counted from the lowest, of byte k / 8 on the wire; a valid row is a one. */
  lemma {:induction false} BitOrder(words: seq<Word>, count: nat, row: nat)
    requires |words| == WordCount(count) && row < count
    ensures var bytes := ToBytes(Some(words), count);
            row / 8 < |bytes| && (IsValid(Some(words), row) <==> (bytes[row / 8] / Pow2(row % 8)) % 2 == 1)
  {
    hide Bit, Words, Pow2;
    var i, b, j := row / 64, row % 64 / 8, row % 8;
    assert row / 8 == 8 * i + b && row % 64 == 8 * b + j;
    ValidityArrays.WordsByteAt(words, Zeros(WireByteCount(count) - 8 * |words|), i, b);
    BitOfByte(words[i], b, j);
    BitIs((words[i] / Pow256(b)) % 256, j);
  }

  /** A bitmap takes eight bytes for every 64 rows begun, whatever the rows are. */
  lemma BitmapBytes(words: seq<Word>, count: nat)
    requires |words| == WordCount(count)
    ensures |ToBytes(Some(words), count)| == |ToBytes(None, count)| == 8 * ((count + 63) / 64)
  {
  }

  lemma {:induction false} BitIs(w: nat, k: nat)
    ensures Bit(w, k) <==> (w / Pow2(k)) % 2 == 1
  {
    if k > 0 {
      BitIs(w / 2, k - 1);
      HalveTwice(w, Pow2(k - 1));
    }
  }

  lemma HalveTwice(w: nat, p: int)
    requires p > 0
    ensures w / 2 / p == w / (2 * p)
  {
    var u, c := w / 2, w % 2;
    var q, r := u / p, u % p;
    Regroup(2, p, q);
    assert w == (2 * p) * q + (2 * r + c);
    ModUnique(w, 2 * p, q, 2 * r + c);
  }

  lemma {:induction false} BitOfByte(w: nat, b: nat, j: nat)
    requires j < 8
    ensures Bit(w, 8 * b + j) <==> Bit((w / Pow256(b)) % 256, j)
    decreases b
  {
    if b == 0 {
      LowByteBit(w, j);
    } else {
      NextByte(w, 8 * (b - 1) + j);
      BitOfByte(w / 256, b - 1, j);
      ValidityArrays.DivDiv(w, Pow256(b - 1));
    }
  }

  lemma {:induction false} LowByteBit(w: nat, j: nat)
    requires j < 8
    ensures Bit(w, j) <==> Bit(w % 256, j)
  {
    LowBits(w, 8, j);
    assert Pow2(8) == 256 by { Pow2Values(); }
  }

  lemma {:induction false} LowBits(w: nat, n: nat, j: nat)
    requires j < n
    ensures Bit(w, j) <==> Bit(w % Pow2(n), j)
    decreases n
  {
    var p, u, c := Pow2(n - 1), w / 2, w % 2;
    var q, r := u / p, u % p;
    Regroup(2, p, q);
    assert w == (2 * p) * q + (2 * r + c);
    ModUnique(w, 2 * p, q, 2 * r + c);
    if j > 0 {
      LowBits(u, n - 1, j - 1);
    }
  }

  lemma {:induction false} NextByte(w: nat, k: nat)
    ensures Bit(w, k + 8) <==> Bit(w / 256, k)
  {
    assert Bit(w, k + 8) == Bit(w / 2, k + 7) == Bit(w / 2 / 2, k + 6) == Bit(w / 2 / 2 / 2, k + 5);
    var v := w / 2 / 2 / 2;
    assert Bit(v, k + 5) == Bit(v / 2, k + 4) == Bit(v / 2 / 2, k + 3) == Bit(v / 2 / 2 / 2, k + 2);
    var u := v / 2 / 2 / 2;
    assert Bit(u, k + 2) == Bit(u / 2, k + 1) == Bit(u / 2 / 2, k);
    assert u / 2 / 2 == w / 256;
  }
}
