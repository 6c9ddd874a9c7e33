/** Decoding the wire form of any legal layout gives exactly the rows it stands for. */
module LayoutMeaning {
  import opened Numbers
  import opened Wire
  import opened QuackTypes
  import opened Validity
  import opened TypeCodec
  import opened TypeRoundTrip
  import opened RawRoundTrip
  import opened Vectors
  import opened VectorEncoder
  import opened VectorDecoder
  import opened ChunkRoundTrip
  import opened VectorLayouts

  /** A well-sized column with exactly these rows was read, and the reader stopped at tail. */
  ghost predicate Means(r: Read<Option<Vec>>, rows: seq<Cell>, tail: Bytes) {
    r.Ok? && r.rest == tail && r.value.Some? && r.value.value.WellSized() && r.value.value.Rows() == rows
  }

  // ---- flat columns ----

  /** A flat column starts with its header, or with its format number, and never with a layout number. */
  lemma FormattedHeader(t: LogicalType, format: Option<Int64>, validity: Validity, count: nat, tail: Bytes)
    requires MaskLegal(validity, count) && FormatLegal(t, format)
    ensures ReadFlatHeader(t, count, Formatted(format, FlatHeader(validity, count, tail))) == Ok(validity, tail)
    ensures ReadVectorType(Formatted(format, FlatHeader(validity, count, tail)))
            == Ok(FLAT, Formatted(format, FlatHeader(validity, count, tail)))
  {
    HeaderRoundTrip(t, validity, count, tail);
    if format.Some? {
      hide FlatHeader;
      var header := FlatHeader(validity, count, tail);
      OptionalField(90, 99, Int(format.value, header));
      OptionalField(99, 99, Int(format.value, header));
      IntRoundTrip(format.value, header);
      HeaderIsNoFormat(t, validity, count, tail);
    }
  }

  /** After a format number, the rest of the header is read as it would be without one. */
  lemma HeaderIsNoFormat(t: LogicalType, validity: Validity, count: nat, tail: Bytes)
    requires MaskLegal(validity, count)
    ensures SkipGeometry(t, FlatHeader(validity, count, tail)) == Ok((), FlatHeader(validity, count, tail))
  {
    OptionalField(99, 100, Bool(validity.Some?, if validity.Some? then Field(101, Blob(ToBytes(validity, count), tail))
                                                else tail));
  }

  lemma {:induction false} FixedReads(t: LogicalType, raws: seq<nat>, validity: Validity, tail: Bytes)
    requires Physical(t).ConstantSize() && RawsLegal(Physical(t), raws) && MaskLegal(validity, |raws|)
    ensures ReadFixedColumn(t, |raws|, validity, Field(102, Blob(Raws(Physical(t).ByteWidth(), raws, []), tail)))
            == Ok(Some(DecodeFixed(t, Physical(t), raws, validity)), tail)
  {
    hide DecodeFixed, Pow256;
    var width := Physical(t).ByteWidth();
    var bytes := Raws(width, raws, []);
    RawsRoundTrip(width, raws);
    forall i | 0 <= i < |raws| ensures raws[i] % Pow256(width) == raws[i] {
      ModUnique(raws[i], Pow256(width), 0, raws[i]);
    }
    assert RawsOf(width, |raws|, bytes) == raws;
    MulRange(|raws|, width, 16);
    SignedOfMod(width * |raws|, TWO_64);
    RequireField(102, Blob(bytes, tail));
    BlobRoundTrip(bytes, tail);
  }

  /** The column that is decoded from a flat layout. */
  function Decoded(t: LogicalType, count: nat, l: Layout): (vec: Vec)
    requires (l.FixedLayout? || l.TextLayout?) && Legal(t, count, l)
    ensures vec.WellSized() && vec.Size() == count
  {
    match l
    case FixedLayout(validity, raws) => DecodeFixed(t, Physical(t), raws, validity)
    case TextLayout(_, validity, texts) => Obj(t, StringRows(t, validity, texts))
  }

  lemma {:induction false} FlatDecodes(t: LogicalType, count: nat, l: Layout, tail: Bytes)
    requires (l.FixedLayout? || l.TextLayout?) && Legal(t, count, l)
    ensures ReadBody(t, count, Body(t, count, l, tail)) == Ok(Some(Decoded(t, count, l)), tail)
  {
    hide ReadFixedColumn, FlatHeader, ReadFlatHeader, ReadVectorType, DecodeFixed, Raws, ReadTexts, RequiredInt, Texts,
      IsValid;
    match l {
      case FixedLayout(validity, raws) =>
        var data := Field(102, Blob(Raws(Physical(t).ByteWidth(), raws, []), tail));
        FormattedHeader(t, None, validity, count, data);
        FixedReads(t, raws, validity, tail);
      case TextLayout(format, validity, texts) =>
        FormattedHeader(t, format, validity, count, Field(102, Int(count, Texts(texts, tail))));
        RequiredIntRoundTrip(102, count, Texts(texts, tail));
        TextsRoundTrip(texts, tail);
    }
  }

  lemma {:induction false} FlatMeans(t: LogicalType, count: nat, l: Layout, tail: Bytes)
    requires (l.FixedLayout? || l.TextLayout?) && Legal(t, count, l)
    ensures Means(ReadBody(t, count, Body(t, count, l, tail)), Expand(t, count, l), tail)
  {
    hide DecodeFixed, FixedRows, ReadBody, Body, StringRows, StringsInRange;
    FlatDecodes(t, count, l, tail);
    match l {
      case FixedLayout(validity, raws) => FixedRowsMean(t, raws, validity);
      case TextLayout(_, validity, texts) =>
        var vec := Decoded(t, count, l);
        assert vec.Rows() == vec.cells;
    }
  }

  lemma FixedRowsMean(t: LogicalType, raws: seq<nat>, validity: Validity)
    requires MaskFits(validity, |raws|)
    ensures DecodeFixed(t, Physical(t), raws, validity).Rows() == FixedRows(t, validity, raws)
  {
    hide DecodeFixed, CellFromRaw;
    var rows := DecodeFixed(t, Physical(t), raws, validity).Rows();
    forall i | 0 <= i < |raws|
      ensures rows[i] == FixedRows(t, validity, raws)[i]
    {
      DecodedRow(t, raws, validity, i);
    }
  }

  // ---- what the encoder writes is a flat layout ----

  function LeafOf(t: LogicalType, vec: Vec): Layout
    requires Encodable(t, vec)
  {
    if Physical(t).ConstantSize() then FixedLayout(ExtractValidity(vec), StoredRaws(t, vec.Rows()))
    else TextLayout(None, ExtractValidity(vec), RowTexts(t, vec.Rows()))
  }

  lemma {:induction false} EncoderWritesLeaf(t: LogicalType, vec: Vec, tail: Bytes)
    requires Encodable(t, vec)
    ensures Legal(t, vec.Size(), LeafOf(t, vec))
    ensures FlatBody(t, vec, tail) == Body(t, vec.Size(), LeafOf(t, vec), tail)
  {
    hide FlatHeader, Pow256;
    var rows := vec.Rows();
    if Physical(t).ConstantSize() {
      var width := Physical(t).ByteWidth();
      forall i | 0 <= i < |rows|
        ensures 0 <= StoredRaws(t, rows)[i] < Pow256(width)
        ensures RawNumbers(t, rows)[i] % Pow256(width) == StoredRaws(t, rows)[i] % Pow256(width)
      {
        ModUnique(StoredRaws(t, rows)[i], Pow256(width), 0, StoredRaws(t, rows)[i]);
      }
      RawsCongruent(width, RawNumbers(t, rows), StoredRaws(t, rows), []);
    }
  }

  // ---- one value repeated ----

  /** The numbers of the Go type in which a primitive column keeps its values. */
  predicate GoRange(p: PhysicalType, n: int) {
    match p
    case PBool => 0 <= n <= 1
    case PInt8 => -0x80 <= n < 0x80
    case PUint8 | PInt16 => -0x8000 <= n < 0x8000
    case PUint16 | PInt32 => -TWO_31 <= n < TWO_31
    case PUint32 | PInt64 | PUint64 => -TWO_63 <= n < TWO_63
    case _ => true
  }

  /** A row of the column's own Go type that is no signalling NaN. */
  predicate OwnCell(t: LogicalType, c: Cell) {
    Primitive(t) && c.Some? ==>
      c.value.Num? && c.value.kind == PrimKind(Physical(t)) && GoRange(Physical(t), c.value.n)
      && (Physical(t).PFloat? ==> !Signalling(c.value.n))
  }

  lemma NarrowedIs(t: LogicalType, c: Cell)
    ensures Narrowed(t, c) == c <==> OwnCell(t, c)
  {
    if Primitive(t) && c.Some? && c.value.Num? && c.value.kind == PrimKind(Physical(t)) {
      RepeatedIs(Physical(t), c.value);
    }
  }

  lemma RepeatedIs(p: PhysicalType, v: Value)
    requires v.Num? && v.kind == PrimKind(p) && p.ConstantSize() && !p.PInterval? && !p.PInt128? && !p.PUint128?
    ensures RepeatedNumber(p, v) == v.n <==> GoRange(p, v.n) && (p.PFloat? ==> !Signalling(v.n))
  {
    var n := v.n;
    if GoRange(p, n) && !p.PFloat? && !p.PDouble? {
      SignedOfMod(n, TWO_64);
      match p {
        case PInt8 => SignedOfMod(n, 0x100);
        case PUint8 | PInt16 => SignedOfMod(n, 0x1_0000);
        case PUint16 | PInt32 => SignedOfMod(n, TWO_32);
        case _ =>
      }
    }
  }

  /** An integer of another Go type keeps the low bits that the column's type has; a bool asks whether it is zero. */
  lemma NarrowedWraps(t: LogicalType, n: int)
    requires Primitive(t) && !Physical(t).PFloat? && !Physical(t).PDouble? && -TWO_63 <= n < TWO_63
    ensures var c := Narrowed(t, Some(Num(KInt64, n)));
            var bits := if Physical(t).PInt8? then 0x100
                        else if Physical(t).PUint8? || Physical(t).PInt16? then 0x1_0000
                        else if Physical(t).PUint16? || Physical(t).PInt32? then 0x1_0000_0000
                        else 0x1_0000_0000_0000_0000;
            c.Some? && c.value.Num? && c.value.kind == PrimKind(Physical(t)) && GoRange(Physical(t), c.value.n)
            && if Physical(t).PBool? then c.value.n == (if n == 0 then 0 else 1) else (n - c.value.n) % bits == 0
  {
    SignedOfMod(n, TWO_64);
  }

  /** The rows were read from storage of the type, or from a sequence of its own Go type. */
  predicate Native(t: LogicalType, l: Layout) {
    match l
    case ConstantLayout(single) => Native(t, single)
    case DictionaryLayout(_, _, dictionary) => Native(t, dictionary)
    case SequenceLayout(_, _) => t.id == INTEGER || t.id == BIGINT
    case _ => true
  }

  predicate SignallingCell(t: LogicalType, c: Cell) {
    Physical(t).PFloat? && c.Some? && c.value.Num? && Signalling(c.value.n)
  }

  lemma {:induction false} NativeRow(t: LogicalType, count: nat, l: Layout, row: nat)
    requires Legal(t, count, l) && Native(t, l) && row < count
    ensures OwnCell(t, Expand(t, count, l)[row]) <==> !SignallingCell(t, Expand(t, count, l)[row])
    decreases l
  {
    match l {
      case FixedLayout(_, raws) =>
        FixedNative(t, raws[row]);
      case ConstantLayout(single) =>
        NativeRow(t, 1, single, 0);
        NarrowedNative(t, Expand(t, 1, single)[0]);
      case DictionaryLayout(selection, dictCount, dictionary) =>
        NativeRow(t, dictCount, dictionary, selection[row]);
      case _ =>
    }
  }

  lemma FixedNative(t: LogicalType, raw: nat)
    requires Physical(t).ConstantSize() && raw < Pow256(Physical(t).ByteWidth())
    ensures var c := CellFromRaw(t, Physical(t), raw); OwnCell(t, c) <==> !SignallingCell(t, c)
  {
    Pow256Values();
  }

  /** Narrowing makes a signalling NaN quiet and leaves other rows of the type alone. */
  lemma NarrowedNative(t: LogicalType, c: Cell)
    requires OwnCell(t, c) <==> !SignallingCell(t, c)
    ensures OwnCell(t, Narrowed(t, c)) <==> !SignallingCell(t, Narrowed(t, c))
  {
    NarrowedIs(t, c);
    if SignallingCell(t, c) {
      QuietOnce(c.value.n);
    }
  }

  /**
   A constant column repeats its row exactly when the row has the column's own Go type and is no signalling NaN; of rows
   read from storage only the NaN is left.
   */
  lemma {:induction false} ConstantRepeats(t: LogicalType, count: nat, single: Layout)
    requires 0 < count <= MAX_INT && Legal(t, 1, single)
    ensures var c := Expand(t, 1, single)[0];
            (Expand(t, count, ConstantLayout(single)) == Repeat(c, count) <==> OwnCell(t, c))
            && (Native(t, single) ==> (OwnCell(t, c) <==> !SignallingCell(t, c)))
  {
    var c := Expand(t, 1, single)[0];
    NarrowedIs(t, c);
    assert Repeat(c, count)[0] == c && Expand(t, count, ConstantLayout(single))[0] == Narrowed(t, c);
    if Native(t, single) {
      NativeRow(t, 1, single, 0);
    }
  }

  lemma BroadcastRows(t: LogicalType, c: Cell, count: nat)
    ensures Broadcast(t, c, count).Rows() == Repeat(Narrowed(t, c), count)
  {
    hide RepeatedNumber;
    var vec := Broadcast(t, c, count);
    forall row | 0 <= row < count
      ensures vec.Rows()[row] == Narrowed(t, c)
    {
      if Primitive(t) && c.None? {
        ZeroBits(row % 64);
      }
      assert vec.Rows()[row] == vec.GetObject(row);
    }
  }

  // ---- layouts of one column ----

  lemma OpeningRoundTrip(layout: Int64, tail: Bytes)
    requires layout >= 0
    ensures ReadVectorType(Opening(layout, tail)) == Ok(layout, tail)
  {
    OptionalField(90, 90, Int(layout, tail));
    IntRoundTrip(layout, tail);
  }

  /** The inner column of one row, or of none, and then its first row repeated. */
  lemma {:induction false} ConstantReads(t: LogicalType, count: nat, s: Bytes, vec: Vec, tail: Bytes)
    requires ReadBody(t, OneOrNone(count), s) == Ok(Some(vec), tail)
    requires vec.WellSized() && vec.Size() == OneOrNone(count)
    ensures var c := if count > 0 then vec.GetObject(0) else None;
            ReadBody(t, count, Opening(CONSTANT, s)) == Ok(Some(Broadcast(t, c, count)), tail)
  {
    hide Broadcast, ReadVectorType, Opening;
    OpeningRoundTrip(CONSTANT, s);
  }

  lemma {:induction false} ConstantMeans(t: LogicalType, count: nat, single: Layout, tail: Bytes)
    requires count <= MAX_INT && Legal(t, OneOrNone(count), single)
    requires Means(ReadBody(t, OneOrNone(count), Body(t, OneOrNone(count), single, tail)),
                   Expand(t, OneOrNone(count), single), tail)
    ensures Means(ReadBody(t, count, Body(t, count, ConstantLayout(single), tail)),
                  Expand(t, count, ConstantLayout(single)), tail)
  {
    hide Broadcast, ReadBody, Opening, Narrowed;
    var s := Body(t, OneOrNone(count), single, tail);
    var vec := ReadBody(t, OneOrNone(count), s).value.value;
    ConstantReads(t, count, s, vec, tail);
    if count > 0 {
      var c := Expand(t, 1, single)[0];
      assert vec.Rows()[0] == vec.GetObject(0) == c;
      BroadcastRows(t, c, count);
    } else {
      BroadcastRows(t, None, count);
    }
  }

  lemma ProjectRow(t: LogicalType, dict: Vec, selection: seq<int>, i: nat)
    requires dict.WellSized() && SelectionInRange(dict, selection) && i < |selection|
    ensures Project(t, dict, selection).Rows()[i] == dict.GetObject(selection[i])
  {
    var vec := Project(t, dict, selection);
    var cells := seq(|selection|, k requires 0 <= k < |selection| => dict.GetObject(selection[k]));
    if dict.Prim? {
      FromNullsRows(seq(|cells|, k requires 0 <= k < |cells| => cells[k].None?), i);
    }
    assert vec.Rows()[i] == vec.GetObject(i);
    assert cells[i] == dict.GetObject(selection[i]);
  }

  lemma SelectionRaws(selection: seq<int>, raws: seq<nat>)
    requires |raws| == |selection|
    requires forall i | 0 <= i < |selection| :: 0 <= selection[i] < TWO_31 && raws[i] == selection[i] % TWO_32
    ensures Int32s(raws) == selection
  {
    forall i | 0 <= i < |selection|
      ensures Signed(raws[i], TWO_32) == selection[i]
    {
      SignedOfMod(selection[i], TWO_32);
    }
  }

  lemma {:induction false} SelectionRoundTrip(selection: seq<int>, tail: Bytes)
    requires 4 * |selection| <= MAX_INT && forall i | 0 <= i < |selection| :: 0 <= selection[i] < TWO_31
    ensures ReadSelection(|selection|, Blob(Raws(4, selection, []), tail)) == Ok(selection, tail)
  {
    var bytes := Raws(4, selection, []);
    SignedOfMod(4 * |selection|, TWO_64);
    BlobRoundTrip(bytes, tail);
    SelectionBytes(selection, bytes);
  }

  lemma {:induction false} SelectionBytes(selection: seq<int>, bytes: Bytes)
    requires forall i | 0 <= i < |selection| :: 0 <= selection[i] < TWO_31
    requires bytes == Raws(4, selection, [])
    ensures Int32s(RawsOf(4, |selection|, bytes)) == selection
  {
    RawsRoundTrip(4, selection);
    Pow256Values();
    SelectionRaws(selection, RawsOf(4, |selection|, bytes));
  }

  lemma {:induction false} DictionaryReads(t: LogicalType, selection: seq<int>, dictCount: nat, s: Bytes, dict: Vec,
                                           tail: Bytes)
    requires 4 * |selection| <= MAX_INT && dictCount <= MAX_INT
    requires forall i | 0 <= i < |selection| :: 0 <= selection[i] < TWO_31
    requires ReadBody(t, dictCount, s) == Ok(Some(dict), tail) && SelectionInRange(dict, selection)
    ensures ReadDictionaryColumn(t, |selection|, Field(91, Blob(Raws(4, selection, []), Field(92, Int(dictCount, s)))))
            == Ok(Some(Project(t, dict, selection)), tail)
  {
    var s2 := Field(92, Int(dictCount, s));
    RequireField(91, Blob(Raws(4, selection, []), s2));
    SelectionRoundTrip(selection, s2);
    RequiredIntRoundTrip(92, dictCount, s);
  }

  lemma {:induction false} DictionaryMeans(t: LogicalType, count: nat, l: Layout, tail: Bytes)
    requires l.DictionaryLayout? && Legal(t, count, l)
    requires Means(ReadBody(t, l.dictCount, Body(t, l.dictCount, l.dictionary, tail)),
                   Expand(t, l.dictCount, l.dictionary), tail)
    ensures Means(ReadBody(t, count, Body(t, count, l, tail)), Expand(t, count, l), tail)
  {
    hide ReadDictionaryColumn, Project, SelectionInRange, ReadVectorType, Opening, Expand;
    var s := Body(t, l.dictCount, l.dictionary, tail);
    var dict := ReadBody(t, l.dictCount, s).value.value;
    ProjectMeans(t, count, l, dict);
    DictionaryReads(t, l.selection, l.dictCount, s, dict, tail);
    OpeningRoundTrip(DICTIONARY, Field(91, Blob(Raws(4, l.selection, []), Field(92, Int(l.dictCount, s)))));
  }

  lemma {:induction false} ProjectMeans(t: LogicalType, count: nat, l: Layout, dict: Vec)
    requires l.DictionaryLayout? && Legal(t, count, l)
    requires dict.WellSized() && dict.Rows() == Expand(t, l.dictCount, l.dictionary)
    ensures SelectionInRange(dict, l.selection)
    ensures Project(t, dict, l.selection).Rows() == Expand(t, count, l)
  {
    assert |dict.Rows()| == l.dictCount;
    assert SelectionInRange(dict, l.selection);
    var rows := Project(t, dict, l.selection).Rows();
    forall i | 0 <= i < count
      ensures rows[i] == Expand(t, count, l)[i]
    {
      ProjectRow(t, dict, l.selection, i);
      assert dict.Rows()[l.selection[i]] == dict.GetObject(l.selection[i]);
    }
  }

  lemma {:induction false} SequenceMeans(t: LogicalType, count: nat, l: Layout, tail: Bytes)
    requires l.SequenceLayout? && Legal(t, count, l)
    ensures Means(ReadBody(t, count, Body(t, count, l, tail)), Expand(t, count, l), tail)
  {
    hide ReadSequenceColumn, ReadVectorType, Opening, Sequence, Expand;
    var s := Field(91, Sleb(l.start, Field(92, Sleb(l.incr, tail))));
    OpeningRoundTrip(SEQUENCE, s);
    SequenceReads(t, count, l.start, l.incr, tail);
    SequenceRows(t, count, l);
  }

  lemma {:induction false} SequenceReads(t: LogicalType, count: nat, start: Int64, incr: Int64, tail: Bytes)
    ensures ReadSequenceColumn(t, count, Field(91, Sleb(start, Field(92, Sleb(incr, tail)))))
            == Ok(Some(Sequence(t, count, start, incr)), tail)
  {
    hide Sequence, ReadSleb, Sleb, Require;
    var s2 := Field(92, Sleb(incr, tail));
    RequireField(91, Sleb(start, s2));
    SlebRoundTrip(start, s2);
    RequireField(92, Sleb(incr, tail));
    SlebRoundTrip(incr, tail);
  }

  lemma {:induction false} SequenceRows(t: LogicalType, count: nat, l: Layout)
    requires l.SequenceLayout? && Legal(t, count, l)
    ensures Sequence(t, count, l.start, l.incr).Rows() == Expand(t, count, l)
  {
  }

  // ---- nested columns ----

  lemma {:induction false} EntriesRoundTrip(entries: seq<ListEntry>, tail: Bytes)
    requires forall i | 0 <= i < |entries| :: entries[i].offset <= MAX_INT && entries[i].length <= MAX_INT
    ensures ReadEntries(|entries|, Entries(entries, tail)) == Ok(entries, tail)
  {
    hide ReadEntry;
    if entries != [] {
      EntryRoundTrip(entries[0], Entries(entries[1..], tail));
      EntriesRoundTrip(entries[1..], tail);
      assert entries == [entries[0]] + entries[1..];
    }
  }

  lemma EntryRoundTrip(entry: ListEntry, tail: Bytes)
    requires entry.offset <= MAX_INT && entry.length <= MAX_INT
    ensures ReadEntry(Field(100, Int(entry.offset, Field(101, Int(entry.length, End(tail)))))) == Ok(entry, tail)
  {
    RequiredIntRoundTrip(100, entry.offset, Field(101, Int(entry.length, End(tail))));
    RequiredIntRoundTrip(101, entry.length, End(tail));
    EndRoundTrip(tail);
  }

  /** Rows of a child column, cut out of its row view. */
  lemma ItemsMeans(child: Vec, offset: nat, length: nat)
    requires child.WellSized() && offset + length <= child.Size()
    ensures ItemsInRange(Some(child), offset, length)
    ensures ItemsOf(Some(child), offset, length) == Some(Items(child.Rows()[offset..offset + length]))
  {
    assert forall k | offset <= k < offset + length :: RowInRange(Some(child), k);
    var items := seq(length, k requires 0 <= k < length => RowOf(Some(child), offset + k));
    forall k | 0 <= k < length
      ensures items[k] == child.Rows()[offset..offset + length][k]
    {
      assert items[k] == RowOf(Some(child), offset + k);
      assert child.Rows()[offset + k] == child.GetObject(offset + k);
    }
    assert items == child.Rows()[offset..offset + length];
  }

  lemma {:induction false} ListRowsMean(t: LogicalType, count: nat, l: Layout, child: Vec)
    requires l.ListLayout? && Legal(t, count, l)
    requires child.WellSized() && child.Rows() == Expand(ChildTypeOf(t), l.childCount, l.child)
    ensures ListInRange(l.validity, l.entries, Some(child), count)
    ensures ListRows(l.validity, l.entries, Some(child), count) == Expand(t, count, l)
  {
    assert |child.Rows()| == l.childCount;
    forall row | 0 <= row < count && IsValid(l.validity, row)
      ensures ItemsInRange(Some(child), l.entries[row].offset, l.entries[row].length)
      ensures ItemsOf(Some(child), l.entries[row].offset, l.entries[row].length) == Expand(t, count, l)[row]
    {
      assert EntryLegal(l.entries[row], true, l.childCount);
      ItemsMeans(child, l.entries[row].offset, l.entries[row].length);
    }
  }

  /** After its header a flat column is read according to its physical type. */
  lemma {:induction false} FlatOpens(t: LogicalType, count: nat, validity: Validity, s: Bytes)
    requires MaskLegal(validity, count)
    ensures Physical(t).PList? ==>
              ReadBody(t, count, FlatHeader(validity, count, s)) == ReadListColumn(t, count, validity, s)
    ensures Physical(t).PArray? ==>
              ReadBody(t, count, FlatHeader(validity, count, s)) == ReadArrayColumn(t, count, validity, s)
    ensures Physical(t).PStruct? ==>
              ReadBody(t, count, FlatHeader(validity, count, s)) == ReadStructColumn(t, count, validity, s)
  {
    HeaderRoundTrip(t, validity, count, s);
  }

  lemma {:induction false} ListReads(t: LogicalType, validity: Validity, entries: seq<ListEntry>, childCount: nat,
                                     s: Bytes, child: Vec, tail: Bytes)
    requires MaskLegal(validity, |entries|) && childCount <= MAX_INT
    requires forall i | 0 <= i < |entries| :: entries[i].offset <= MAX_INT && entries[i].length <= MAX_INT
    requires ReadVector(ChildTypeOf(t), childCount, s) == Ok(Some(child), tail)
    requires ListInRange(validity, entries, Some(child), |entries|)
    ensures ReadListColumn(t, |entries|, validity,
              Field(104, Int(childCount, Field(105, Int(|entries|, Entries(entries, Field(106, s)))))))
            == Ok(Some(Obj(t, ListRows(validity, entries, Some(child), |entries|))), tail)
  {
    var s4 := Field(106, s);
    var s3 := Entries(entries, s4);
    RequiredIntRoundTrip(104, childCount, Field(105, Int(|entries|, s3)));
    RequireField(105, Int(|entries|, s3));
    IntRoundTrip(|entries|, s3);
    EntriesRoundTrip(entries, s4);
    RequireField(106, s);
  }

  lemma {:induction false} ListMeans(t: LogicalType, count: nat, l: Layout, tail: Bytes)
    requires l.ListLayout? && Legal(t, count, l)
    requires Means(ReadVector(ChildTypeOf(t), l.childCount, Body(ChildTypeOf(t), l.childCount, l.child, End(tail))),
                   Expand(ChildTypeOf(t), l.childCount, l.child), tail)
    ensures Means(ReadBody(t, count, Body(t, count, l, tail)), Expand(t, count, l), tail)
  {
    hide ReadListColumn, ListRows, ListInRange, FlatHeader, ReadVector, IsValid, Entries;
    var s := Body(ChildTypeOf(t), l.childCount, l.child, End(tail));
    var child := ReadVector(ChildTypeOf(t), l.childCount, s).value.value;
    ListRowsMean(t, count, l, child);
    forall i | 0 <= i < |l.entries|
      ensures l.entries[i].offset <= MAX_INT && l.entries[i].length <= MAX_INT
    {
      assert EntryLegal(l.entries[i], IsValid(l.validity, i), l.childCount);
    }
    ListReads(t, l.validity, l.entries, l.childCount, s, child, tail);
    FlatOpens(t, count, l.validity,
      Field(104, Int(l.childCount, Field(105, Int(count, Entries(l.entries, Field(106, s)))))));
  }

  lemma {:induction false} ArrayRowsMean(t: LogicalType, count: nat, l: Layout, child: Vec)
    requires l.ArrayLayout? && Legal(t, count, l)
    requires child.WellSized() && child.Rows() == Expand(ChildTypeOf(t), ItemCount(t, count), l.child)
    ensures ArrayInRange(l.validity, ArraySize(t), Some(child), count)
    ensures ArrayRows(l.validity, ArraySize(t), Some(child), count) == Expand(t, count, l)
  {
    var size: nat := ArraySize(t);
    assert |child.Rows()| == ItemCount(t, count);
    forall row | 0 <= row < count && IsValid(l.validity, row)
      ensures ItemsInRange(Some(child), ToInt64(row * size), size)
      ensures ItemsOf(Some(child), ToInt64(row * size), size) == Expand(t, count, l)[row]
    {
      ItemsMeans(child, ToInt64(row * size), size);
    }
  }

  lemma {:induction false} ArrayReads(t: LogicalType, count: nat, validity: Validity, s: Bytes, child: Vec, tail: Bytes)
    requires MaskLegal(validity, count) && ArraySize(t) >= 0
    requires ReadVector(ChildTypeOf(t), ItemCount(t, count), s) == Ok(Some(child), tail)
    ensures ReadArrayColumn(t, count, validity, Field(103, Int(ArraySize(t), Field(104, s))))
            == if ArrayInRange(validity, ArraySize(t), Some(child), count)
               then Ok(Some(Obj(t, ArrayRows(validity, ArraySize(t), Some(child), count))), tail)
               else Panic
  {
    hide ReadVector, RequiredInt, ArrayRows, ArrayInRange, Field, ToInt64;
    RequiredIntRoundTrip(103, ArraySize(t), Field(104, s));
    RequireField(104, s);
  }

  lemma {:induction false} ArrayMeans(t: LogicalType, count: nat, l: Layout, tail: Bytes)
    requires l.ArrayLayout? && Legal(t, count, l)
    requires var n := ItemCount(t, count);
             Means(ReadVector(ChildTypeOf(t), n, Body(ChildTypeOf(t), n, l.child, End(tail))),
                   Expand(ChildTypeOf(t), n, l.child), tail)
    ensures Means(ReadBody(t, count, Body(t, count, l, tail)), Expand(t, count, l), tail)
  {
    hide ReadArrayColumn, ArrayRows, ArrayInRange, FlatHeader, ReadVector, IsValid;
    var n := ItemCount(t, count);
    var s := Body(ChildTypeOf(t), n, l.child, End(tail));
    var child := ReadVector(ChildTypeOf(t), n, s).value.value;
    ArrayRowsMean(t, count, l, child);
    ArrayReads(t, count, l.validity, s, child, tail);
    FlatOpens(t, count, l.validity, Field(103, Int(ArraySize(t), Field(104, s))));
  }

  // ---- structs ----

  /** The columns that were read show these rows. */
  ghost predicate ColumnsMean(vecs: seq<Option<Vec>>, columns: seq<seq<Cell>>) {
    |vecs| == |columns|
    && forall c | 0 <= c < |vecs| :: vecs[c].Some? && vecs[c].value.WellSized() && vecs[c].value.Rows() == columns[c]
  }

  lemma ColumnsInRange(fields: seq<ChildType>, vecs: seq<Option<Vec>>, columns: seq<seq<Cell>>, row: nat)
    requires |fields| == |vecs| && ColumnsMean(vecs, columns)
    requires forall c | 0 <= c < |columns| :: row < |columns[c]|
    ensures FieldsInRange(fields, vecs, row)
    ensures forall c | 0 <= c < |vecs| :: vecs[c].value.InRange(row) && vecs[c].value.GetObject(row) == columns[c][row]
  {
    forall c | 0 <= c < |vecs|
      ensures vecs[c].value.InRange(row) && vecs[c].value.GetObject(row) == columns[c][row]
    {
      assert vecs[c].value.Rows()[row] == vecs[c].value.GetObject(row);
    }
  }

  lemma {:induction false} FieldMapMeans(fields: seq<ChildType>, vecs: seq<Option<Vec>>, columns: seq<seq<Cell>>,
                                         row: nat, n: nat)
    requires n <= |fields| == |vecs| == |columns| && FieldsInRange(fields, vecs, row)
    requires forall c | 0 <= c < |columns| :: row < |columns[c]|
    requires forall c | 0 <= c < |vecs| ::
               vecs[c].Some? && vecs[c].value.InRange(row) && vecs[c].value.GetObject(row) == columns[c][row]
    ensures FieldMap(fields, vecs, row, n) == StructRow(fields[..n], columns[..n], row)
  {
    if n > 0 {
      FieldMapMeans(fields, vecs, columns, row, n - 1);
      assert fields[..n][..n - 1] == fields[..n - 1];
      assert columns[..n][..n - 1] == columns[..n - 1];
      StructRowStep(fields[..n], columns[..n], row);
    }
  }

  lemma StructRowStep(fields: seq<ChildType>, columns: seq<seq<Cell>>, row: nat)
    requires fields != [] && |columns| == |fields| && forall c | 0 <= c < |columns| :: row < |columns[c]|
    ensures var last := |fields| - 1;
            StructRow(fields, columns, row)
            == StructRow(fields[..last], columns[..last], row)[fields[last].name := columns[last][row]]
  {
    var last := |fields| - 1;
    assert FieldNames(fields) == FieldNames(fields[..last]) + {fields[last].name};
    forall name | name in FieldNames(fields) && name != fields[last].name
      ensures LastIndex(fields, name) == LastIndex(fields[..last], name)
    {
    }
  }

  lemma {:induction false} StructRowsMean(t: LogicalType, count: nat, l: Layout, vecs: seq<Option<Vec>>)
    requires l.StructLayout? && Legal(t, count, l)
    requires ColumnsMean(vecs, ExpandAll(StructChildren(t), count, l.children))
    ensures StructInRange(l.validity, StructChildren(t), vecs, count)
    ensures StructRows(l.validity, StructChildren(t), vecs, count) == Expand(t, count, l)
  {
    var fields := StructChildren(t);
    var columns := ExpandAll(fields, count, l.children);
    forall row | 0 <= row < count
      ensures FieldsInRange(fields, vecs, row)
      ensures FieldMap(fields, vecs, row, |fields|) == StructRow(fields, columns, row)
    {
      ColumnsInRange(fields, vecs, columns, row);
      FieldMapMeans(fields, vecs, columns, row, |fields|);
      assert fields[..|fields|] == fields && columns[..|fields|] == columns;
    }
  }

  ghost predicate AllMean(r: Read<seq<Option<Vec>>>, columns: seq<seq<Cell>>, tail: Bytes) {
    r.Ok? && r.rest == tail && ColumnsMean(r.value, columns)
  }

  function FieldTypes(fields: seq<ChildType>): seq<LogicalType> {
    seq(|fields|, i requires 0 <= i < |fields| => fields[i].typ)
  }

  lemma {:induction false} StructReads(t: LogicalType, count: nat, validity: Validity, n: nat, s: Bytes,
                                       vecs: seq<Option<Vec>>, tail: Bytes)
    requires MaskLegal(validity, count) && n <= MAX_INT
    requires ReadColumns(FieldTypes(StructChildren(t)), count, n, s) == Ok(vecs, tail)
    requires StructInRange(validity, StructChildren(t), vecs, count)
    ensures ReadStructColumn(t, count, validity, Field(103, Int(n, s)))
            == Ok(Some(Obj(t, StructRows(validity, StructChildren(t), vecs, count))), tail)
  {
    RequiredIntRoundTrip(103, n, s);
    var children := StructChildren(t);
    assert FieldTypes(children) == seq(|children|, i requires 0 <= i < |children| => children[i].typ);
  }

  lemma {:induction false} StructMeans(t: LogicalType, count: nat, l: Layout, tail: Bytes)
    requires l.StructLayout? && Legal(t, count, l)
    requires AllMean(ReadColumns(FieldTypes(StructChildren(t)), count, |l.children|,
                                 Bodies(StructChildren(t), count, l.children, tail)),
                     ExpandAll(StructChildren(t), count, l.children), tail)
    ensures Means(ReadBody(t, count, Body(t, count, l, tail)), Expand(t, count, l), tail)
  {
    hide ReadStructColumn, StructRows, StructInRange, FlatHeader, ReadColumns, IsValid;
    var fields, n := StructChildren(t), |l.children|;
    var s := Bodies(fields, count, l.children, tail);
    var vecs := ReadColumns(FieldTypes(fields), count, n, s).value;
    StructRowsMean(t, count, l, vecs);
    StructReads(t, count, l.validity, n, s, vecs, tail);
    FlatOpens(t, count, l.validity, Field(103, Int(n, s)));
  }

  // ---- products of Go ints ----

  /**
   Whatever the products are: over a child of objects, or one without nulls, an ARRAY column is read exactly when the
   slice of every valid row lies inside the child, and Go panics otherwise. ItemsFit says that it does when the number
   of items is a Go int.
   */
  lemma {:induction false} ArrayExactly(t: LogicalType, count: nat, validity: Validity, s: Bytes, child: Vec,
                                        tail: Bytes)
    requires MaskLegal(validity, count) && ArraySize(t) >= 0 && ItemCount(t, count) >= 0
    requires ReadVector(ChildTypeOf(t), ItemCount(t, count), s) == Ok(Some(child), tail)
    requires child.Size() == ItemCount(t, count) && (child.Obj? || child.validity.None?)
    ensures var r := ReadArrayColumn(t, count, validity, Field(103, Int(ArraySize(t), Field(104, s))));
            if SlicesLegal(validity, ArraySize(t), count, ItemCount(t, count)) then r.Ok? && r.rest == tail
            else r == Panic
  {
    hide ReadArrayColumn, ReadVector, ArrayRows, ArrayInRange, SlicesLegal;
    ArrayReads(t, count, validity, s, child, tail);
    InRangeIsSlices(validity, ArraySize(t), count, child);
  }

  lemma InRangeIsSlices(validity: Validity, size: nat, count: nat, child: Vec)
    requires MaskFits(validity, count) && (child.Obj? || child.validity.None?)
    ensures ArrayInRange(validity, size, Some(child), count) <==> SlicesLegal(validity, size, count, child.Size())
  {
    forall row | 0 <= row < count && IsValid(validity, row)
      ensures ItemsInRange(Some(child), ToInt64(row * size), size)
              <==> 0 <= ToInt64(row * size) <= ToInt64(row * size) + size <= child.Size()
    {
      SliceInRange(child, ToInt64(row * size), size);
      if size == 0 {
        assert row * size == 0;
      }
    }
  }

  lemma SliceInRange(child: Vec, offset: int, size: nat)
    requires child.Obj? || child.validity.None?
    requires size == 0 ==> offset == 0
    ensures ItemsInRange(Some(child), offset, size) <==> 0 <= offset && offset + size <= child.Size()
  {
    if ItemsInRange(Some(child), offset, size) && size > 0 {
      assert RowInRange(Some(child), offset) && RowInRange(Some(child), offset + size - 1);
    }
  }

  const WIDE: LogicalType := LogicalType(ARRAY, Some(ArrayInfo(LogicalType(INTEGER, None), 0x4000_0000_0000_0000, [])))

  /** One INTEGER, and a constant column that repeats it. */
  const SEVEN: Vec := Prim(LogicalType(INTEGER, None), KInt32, [7], None)

  /**
   The row count of an ARRAY child is a Go product that can wrap. Four rows of 2^62 items each make 2^64, which wraps to
   zero: the child is read as an empty column, its single stored row does not fit, and decoding fails.
   */
  lemma {:induction false} ArrayProductWraps(validity: Validity, tail: Bytes)
    requires MaskLegal(validity, 4)
    ensures Encodable(ChildTypeOf(WIDE), SEVEN)
    ensures var s := Opening(CONSTANT, FlatBody(ChildTypeOf(WIDE), SEVEN, End(tail)));
            ReadArrayColumn(WIDE, 4, validity, Field(103, Int(ArraySize(WIDE), Field(104, s)))).Fail?
  {
    hide ReadVector, RequiredInt, FlatBody, Opening;
    SevenIsFlat(ChildTypeOf(WIDE));
    var s := Opening(CONSTANT, FlatBody(ChildTypeOf(WIDE), SEVEN, End(tail)));
    RequiredIntRoundTrip(103, ArraySize(WIDE), Field(104, s));
    RequireField(104, s);
    ConstantChildFails(ChildTypeOf(WIDE), tail);
    ModUnique(TWO_64, TWO_64, 1, 0);
    assert ToInt64(ArraySize(WIDE) * 4) == 0;
  }

  lemma {:induction false} ConstantChildFails(t: LogicalType, tail: Bytes)
    requires t == LogicalType(INTEGER, None) && Encodable(t, SEVEN)
    ensures ReadVector(t, 0, Opening(CONSTANT, FlatBody(t, SEVEN, End(tail)))).Fail?
  {
    hide FlatBody, ReadFlat, Opening;
    var s := FlatBody(t, SEVEN, End(tail));
    OpeningRoundTrip(CONSTANT, s);
    NoRoomForOne(t, tail);
    assert ReadConstantColumn(t, 0, s).Fail?;
  }

  lemma SevenIsFlat(t: LogicalType)
    requires t == LogicalType(INTEGER, None)
    ensures Encodable(t, SEVEN) && Physical(t) == PInt32 && ExtractValidity(SEVEN) == None
  {
    assert SEVEN.Rows() == [Some(Num(KInt32, 7))];
  }

  lemma {:induction false} NoRoomForOne(t: LogicalType, tail: Bytes)
    requires t == LogicalType(INTEGER, None) && Encodable(t, SEVEN)
    ensures ReadBody(t, 0, FlatBody(t, SEVEN, End(tail))).Fail?
  {
    SevenIsFlat(t);
    var bytes := Raws(4, RawNumbers(t, SEVEN.Rows()), []);
    var data := FlatData(t, SEVEN.Rows(), End(tail));
    assert |bytes| == 4;
    HeaderRoundTrip(t, None, 0, data);
    assert FlatHeader(None, SEVEN.Size(), data) == FlatHeader(None, 0, data);
    RequireField(102, Blob(bytes, End(tail)));
    BlobRoundTrip(bytes, End(tail));
    assert ToInt64(4 * 0) == 0;
  }

  // ---- every layout ----

  /**
   For every nesting of layouts, decoding the wire form gives the rows of the expansion, in prefix form. Layouts of
   any depth are covered, since the proof follows the layout.
   */
  lemma {:induction false} LayoutMeans(t: LogicalType, count: nat, l: Layout, tail: Bytes)
    requires Legal(t, count, l)
    ensures Means(ReadBody(t, count, Body(t, count, l, tail)), Expand(t, count, l), tail)
    decreases l, 0
  {
    match l {
      case FixedLayout(_, _) | TextLayout(_, _, _) =>
        FlatMeans(t, count, l, tail);
      case ConstantLayout(single) =>
        LayoutMeans(t, OneOrNone(count), single, tail);
        ConstantMeans(t, count, single, tail);
      case DictionaryLayout(_, dictCount, dictionary) =>
        LayoutMeans(t, dictCount, dictionary, tail);
        DictionaryMeans(t, count, l, tail);
      case SequenceLayout(_, _) =>
        SequenceMeans(t, count, l, tail);
      case ListLayout(_, _, childCount, child) =>
        LayoutMeans(ChildTypeOf(t), childCount, child, End(tail));
        EndRoundTrip(tail);
        ListMeans(t, count, l, tail);
      case StructLayout(_, children) =>
        LayoutsMean(StructChildren(t), count, children, tail);
        StructMeans(t, count, l, tail);
      case ArrayLayout(_, child) =>
        LayoutMeans(ChildTypeOf(t), ItemCount(t, count), child, End(tail));
        EndRoundTrip(tail);
        ArrayMeans(t, count, l, tail);
    }
  }

  lemma {:induction false} LayoutsMean(fields: seq<ChildType>, count: nat, children: seq<Layout>, tail: Bytes)
    requires |children| == |fields| && forall c | 0 <= c < |children| :: Legal(fields[c].typ, count, children[c])
    ensures AllMean(ReadColumns(FieldTypes(fields), count, |children|, Bodies(fields, count, children, tail)),
                    ExpandAll(fields, count, children), tail)
    decreases children, 1
  {
    hide Body, Expand, Legal, ReadBody;
    if children != [] {
      var rest := Bodies(fields[1..], count, children[1..], tail);
      LayoutMeans(fields[0].typ, count, children[0], End(rest));
      EndRoundTrip(rest);
      LayoutsMean(fields[1..], count, children[1..], tail);
      assert FieldTypes(fields)[1..] == FieldTypes(fields[1..]);
    }
  }

  /** The same for a column as it stands in a chunk, closed by its end marker. */
  lemma {:induction false} VectorMeans(t: LogicalType, count: nat, l: Layout, tail: Bytes)
    requires Legal(t, count, l)
    ensures Means(ReadVector(t, count, Body(t, count, l, End(tail))), Expand(t, count, l), tail)
  {
    LayoutMeans(t, count, l, End(tail));
    EndRoundTrip(tail);
  }
}
