/** Filling the rows of a decoded column: the loops behind the functions of VectorDecoder. */
module VectorArrays {
  import opened Numbers
  import opened Wire
  import opened QuackTypes
  import opened Validity
  import opened ValidityArrays
  import opened Vectors
  import opened VectorDecoder
  import opened BinaryReaders

  /** The outcome of Go code that may panic. */
  datatype Go<+T> = Returned(value: T) | Panicked {
    predicate IsFailure() {
      Panicked?
    }

    function PropagateFailure<U>(): Go<U>
      requires IsFailure()
    {
      Panicked
    }

    function Extract(): T
      requires !IsFailure()
    {
      value
    }
  }

  // ---- fixed-width rows ----

  lemma {:induction false} ReadLeJoin(n: nat, m: nat, s: Bytes)
    requires n + m <= |s|
    ensures ReadLe(n + m, s).value == ReadLe(n, s).value + Pow256(n) * ReadLe(m, s[n..]).value
  {
    hide ReadLe;
    if n == 0 {
      assert s[0..] == s;
      NoBytes(s);
    } else {
      var tail := s[1..];
      ReadLeJoin(n - 1, m, tail);
      assert tail[n - 1..] == s[n..];
      ReadLeHead(n + m, s);
      ReadLeHead(n, s);
      Carry(s[0], ReadLe(n - 1, tail).value, Pow256(n - 1), ReadLe(m, s[n..]).value);
    }
  }

  lemma {:induction false} NoBytes(s: Bytes)
    ensures ReadLe(0, s).value == 0
  {
  }

  lemma ReadLeHead(n: nat, s: Bytes)
    requires 0 < n <= |s|
    ensures ReadLe(n, s).value == s[0] + 256 * ReadLe(n - 1, s[1..]).value
  {
  }

  lemma Carry(digit: nat, low: nat, p: nat, high: nat)
    ensures digit + 256 * (low + p * high) == digit + 256 * low + (256 * p) * high
  {
    assert 256 * (p * high) == (256 * p) * high;
  }

  /** The words of one stored value: two for 128-bit numbers, three for an interval. */
  method ReadRaw(r: BinaryReader, p: PhysicalType) returns (raw: nat)
    requires r.Valid() && r.err.None? && p.ConstantSize() && p.ByteWidth() <= |r.Rest()|
    modifies r
    ensures r.Valid() && r.err.None?
    ensures raw == ReadLe(p.ByteWidth(), old(r.Rest())).value
    ensures r.Rest() == old(r.Rest())[p.ByteWidth()..]
  {
    hide ReadLe;
    ghost var s := r.Rest();
    Pow256Values();
    if p.PInt128? || p.PUint128? {
      ReadLeJoin(8, 8, s);
      var lower := ReadWord(r, 8);
      var upper := ReadWord(r, 8);
      assert s[8..][8..] == s[16..];
      raw := lower + TWO_64 * upper;
    } else if p.PInterval? {
      ReadLeJoin(4, 12, s);
      ReadLeJoin(4, 8, s[4..]);
      var months := ReadWord(r, 4);
      var days := ReadWord(r, 4);
      assert s[4..][4..] == s[8..];
      var micros := ReadWord(r, 8);
      assert s[8..][8..] == s[16..];
      raw := months + TWO_32 * (days + TWO_32 * micros);
    } else {
      raw := ReadWord(r, p.ByteWidth());
    }
  }

  method ReadWord(r: BinaryReader, width: nat) returns (raw: nat)
    requires r.Valid() && r.err.None? && width <= |r.Rest()|
    modifies r
    ensures r.Valid() && r.err.None?
    ensures raw == ReadLe(width, old(r.Rest())).value && r.Rest() == old(r.Rest())[width..]
  {
    ReadLeRest(width, r.Rest());
    raw := r.ReadFixedUint(width);
  }

  /** The raw numbers still to be read are those of the unread bytes. */
  ghost predicate RawsLeft(width: nat, n: nat, s: Bytes, done: nat, rest: Bytes) {
    done <= n && |s| == width * n && |rest| == width * (n - done)
    && RawsOf(width, n, s)[done..] == RawsOf(width, n - done, rest)
  }

  lemma RawsStart(width: nat, n: nat, s: Bytes)
    requires |s| == width * n
    ensures RawsLeft(width, n, s, 0, s)
  {
  }

  lemma RawsHead(width: nat, n: nat, s: Bytes)
    requires |s| == width * n && n > 0
    ensures width <= |s| && |s[width..]| == width * (n - 1)
    ensures RawsOf(width, n, s) == [ReadLe(width, s).value] + RawsOf(width, n - 1, s[width..])
  {
    assert width * n == width + width * (n - 1);
    assert width * (n - 1) >= 0;
  }

  lemma {:induction false} RawsNext(width: nat, n: nat, s: Bytes, done: nat, rest: Bytes)
    requires RawsLeft(width, n, s, done, rest) && done < n
    ensures width <= |rest| && RawsOf(width, n, s)[done] == ReadLe(width, rest).value
    ensures RawsLeft(width, n, s, done + 1, rest[width..])
  {
    hide RawsOf, ReadLe;
    RawsHead(width, n - done, rest);
    var all, left := RawsOf(width, n, s), RawsOf(width, n - done, rest);
    assert all[done] == all[done..][0] == left[0];
    assert all[done + 1..] == all[done..][1..] == left[1..];
  }

  method DecodeFixedFlatVector(t: LogicalType, bytes: Bytes, count: nat, validity: Validity) returns (vec: Vec)
    requires Physical(t).ConstantSize() && |bytes| == Physical(t).ByteWidth() * count && MaskFits(validity, count)
    ensures vec == DecodeFixed(t, Physical(t), RawsOf(Physical(t).ByteWidth(), count, bytes), validity)
  {
    if NeedsObject(t, Physical(t)) {
      var values := DecodeObjects(t, Physical(t), bytes, count, validity);
      return Obj(t, values);
    }
    var numbers := DecodeNumbers(Physical(t), bytes, count);
    return Prim(t, PrimKind(Physical(t)), numbers, validity);
  }

  method DecodeObjects(t: LogicalType, p: PhysicalType, bytes: Bytes, count: nat, validity: Validity)
    returns (rows: seq<Cell>)
    requires p.ConstantSize() && |bytes| == p.ByteWidth() * count && MaskFits(validity, count)
    ensures var raws := RawsOf(p.ByteWidth(), count, bytes);
            |rows| == count
            && forall i | 0 <= i < count :: rows[i] == if IsValid(validity, i) then ObjectFromRaw(t, p, raws[i]) else None
  {
    hide RawsLeft, RawsOf, ObjectFromRaw, ReadLe, Bit;
    var width := p.ByteWidth();
    ghost var raws := RawsOf(width, count, bytes);
    var rr := new BinaryReader(bytes);
    assert rr.Rest() == bytes;
    RawsStart(width, count, bytes);
    var values := new Cell[count](_ => None);
    for i := 0 to count
      invariant fresh(rr) && rr.Valid() && rr.err.None? && RawsLeft(width, count, bytes, i, rr.Rest())
      invariant forall j | 0 <= j < i ::
                  values[j] == if IsValid(validity, j) then ObjectFromRaw(t, p, raws[j]) else None
      invariant forall j | i <= j < count :: values[j] == None
    {
      RawsNext(width, count, bytes, i, rr.Rest());
      var raw := ReadRaw(rr, p);
      assert raw == raws[i];
      if IsValid(validity, i) {
        values[i] := ObjectFromRaw(t, p, raw);
      }
    }
    return values[..];
  }

  method DecodeNumbers(p: PhysicalType, bytes: Bytes, count: nat) returns (numbers: seq<int>)
    requires p.ConstantSize() && |bytes| == p.ByteWidth() * count
    ensures var raws := RawsOf(p.ByteWidth(), count, bytes);
            |numbers| == count && forall i | 0 <= i < count :: numbers[i] == PrimFromRaw(p, raws[i])
  {
    hide RawsLeft, RawsOf, PrimFromRaw, ReadLe;
    var width := p.ByteWidth();
    ghost var raws := RawsOf(width, count, bytes);
    var rr := new BinaryReader(bytes);
    assert rr.Rest() == bytes;
    RawsStart(width, count, bytes);
    var arr := new int[count](_ => 0);
    for i := 0 to count
      invariant fresh(rr) && rr.Valid() && rr.err.None? && RawsLeft(width, count, bytes, i, rr.Rest())
      invariant forall j | 0 <= j < i :: arr[j] == PrimFromRaw(p, raws[j])
    {
      RawsNext(width, count, bytes, i, rr.Rest());
      var raw := ReadRaw(rr, p);
      assert raw == raws[i];
      arr[i] := PrimFromRaw(p, raw);
    }
    numbers := arr[..];
  }

  // ---- layouts ----

  /** One value over `count` rows; a nil value gives zeros under a bitmap of zeros. */
  method BroadcastValue(t: LogicalType, value: Cell, count: nat) returns (vec: Vec)
    ensures vec == Broadcast(t, value, count)
  {
    if !Primitive(t) {
      var values := new Cell[count](_ => None);
      if value.Some? {
        for i := 0 to count
          invariant forall j | 0 <= j < i :: values[j] == value
        {
          values[i] := value;
        }
      }
      assert values[..] == Repeat(value, count);
      return Obj(t, values[..]);
    }
    var p := Physical(t);
    if value.None? {
      var validity := new Word[WordCount(count)](_ => 0);
      var zeros := new int[count](_ => 0);
      assert validity[..] == Repeat<Word>(0, WordCount(count));
      assert zeros[..] == Repeat(0, count);
      return Prim(t, PrimKind(p), zeros[..], Some(validity[..]));
    }
    var arr := new int[count](_ => 0);
    var v := RepeatedNumber(p, value.value);
    for i := 0 to count
      invariant forall j | 0 <= j < i :: arr[j] == v
    {
      arr[i] := v;
    }
    assert arr[..] == Repeat(v, count);
    return Prim(t, PrimKind(p), arr[..], None);
  }

  /** A row index outside the dictionary makes Go panic. */
  method ProjectVector(t: LogicalType, dict: Option<Vec>, selection: seq<int>) returns (out: Go<Vec>)
    requires dict.Some? ==> dict.value.WellSized()
    ensures match dict
            case None => out == if selection == [] then Returned(Obj(t, [])) else Panicked
            case Some(d) => out == if SelectionInRange(d, selection) then Returned(Project(t, d, selection)) else Panicked
  {
    if dict.None? {
      return if |selection| == 0 then Returned(Obj(t, [])) else Panicked;
    }
    var d := dict.value;
    for i := 0 to |selection|
      invariant forall j | 0 <= j < i :: d.InRange(selection[j])
    {
      if !d.InRange(selection[i]) {
        return Panicked;
      }
    }
    var vec := ProjectRows(t, d, selection);
    return Returned(vec);
  }

  method ProjectRows(t: LogicalType, d: Vec, selection: seq<int>) returns (vec: Vec)
    requires SelectionInRange(d, selection)
    ensures vec == Project(t, d, selection)
  {
    var count := |selection|;
    match d {
      case Obj(_, _) =>
        var values := new Cell[count](_ => None);
        for i := 0 to count
          invariant forall j | 0 <= j < i :: values[j] == d.GetObject(selection[j])
        {
          values[i] := d.GetObject(selection[i]);
        }
        return Obj(t, values[..]);
      case Prim(_, _, _, _) =>
        vec := ProjectPrim(t, d, selection);
    }
  }

  method ProjectPrim(t: LogicalType, d: Vec, selection: seq<int>) returns (vec: Vec)
    requires d.Prim? && SelectionInRange(d, selection)
    ensures vec == Project(t, d, selection)
  {
    hide Bit, NullMask, Partial, FromNulls, ClearBit, AllValid;
    var count := |selection|;
    ghost var cells := seq(count, i requires 0 <= i < count => d.GetObject(selection[i]));
    ghost var nulls := seq(count, i requires 0 <= i < count => cells[i].None?);
    ghost var numbers := seq(count, i requires 0 <= i < count => if cells[i].None? then 0 else cells[i].value.n);
    assert Project(t, d, selection) == Prim(t, d.kind, numbers, FromNulls(nulls));
    var arr := new int[count](_ => 0);
    var bitmap: array?<Word> := null;
    PartialAll(nulls);
    for i := 0 to count
      invariant bitmap != null ==> fresh(bitmap)
      invariant View(bitmap) == Partial(nulls, i)
      invariant forall j | 0 <= j < i :: arr[j] == numbers[j]
      invariant forall j | i <= j < count :: arr[j] == 0
    {
      var row := d.GetObject(selection[i]);
      assert cells[i] == row;
      if row.None? {
        bitmap := MarkNull(bitmap, count, i, nulls);
      } else {
        NotNull(nulls, i);
        arr[i] := row.value.n;
      }
    }
    assert arr[..] == numbers;
    vec := Prim(t, d.kind, arr[..], if bitmap == null then None else Some(bitmap[..]));
  }

  /** Wrapping once per step or once at the end gives the same word. */
  lemma WrapStep(x: int, y: int)
    ensures ToInt64(ToInt64(x) + y) == ToInt64(x + y)
  {
    var d := x - ToInt64(x);
    assert (x + y) - (ToInt64(x) + y) == d;
    ModEqual(x + y, ToInt64(x) + y, TWO_64);
  }

  method SequenceVector(t: LogicalType, count: nat, start: Int64, incr: Int64) returns (vec: Vec)
    ensures vec == Sequence(t, count, start, incr)
  {
    var values := new Int64[count](_ => 0);
    var v := start;
    WrapNone(start);
    for i := 0 to count
      invariant v == ToInt64(start + i * incr)
      invariant forall j | 0 <= j < i :: values[j] == ToInt64(start + j * incr)
    {
      values[i] := v;
      WrapStep(start + i * incr, incr);
      assert start + i * incr + incr == start + (i + 1) * incr;
      v := ToInt64(v + incr);
    }
    if t.id == INTEGER {
      return Prim(t, KInt32, seq(count, i requires 0 <= i < count reads values => Signed(values[i], TWO_32)), None);
    } else if t.id == BIGINT {
      return Prim(t, KInt64, values[..], None);
    }
    return Obj(t, seq(count, i requires 0 <= i < count reads values => Some(Int64Logical(t, values[i]))));
  }

  lemma WrapNone(x: Int64)
    ensures ToInt64(x) == x
  {
    SignedOfMod(x, TWO_64);
  }

  // ---- nested rows ----

  /** Rows [offset, offset+length) of a child; a missing child or row makes Go panic. */
  method CollectItems(child: Option<Vec>, offset: int, length: nat) returns (out: Go<Cell>)
    ensures out == if ItemsInRange(child, offset, length) then Returned(ItemsOf(child, offset, length)) else Panicked
  {
    var slice := new Cell[length](_ => None);
    for k := 0 to length
      invariant forall j | offset <= j < offset + k :: RowInRange(child, j)
      invariant forall j | 0 <= j < k :: slice[j] == RowOf(child, offset + j)
    {
      if !RowInRange(child, offset + k) {
        return Panicked;
      }
      slice[k] := RowOf(child, offset + k);
    }
    assert slice[..] == seq(length, k requires 0 <= k < length => RowOf(child, offset + k));
    return Returned(Some(Items(slice[..])));
  }

  method CollectLists(validity: Validity, entries: seq<ListEntry>, child: Option<Vec>, count: nat)
    returns (out: Go<seq<Cell>>)
    requires MaskFits(validity, count) && |entries| <= count
    ensures out == if ListInRange(validity, entries, child, count)
                   then Returned(ListRows(validity, entries, child, count)) else Panicked
  {
    hide ItemsInRange, ItemsOf;
    var values := new Cell[count](_ => None);
    for row := 0 to |entries|
      invariant forall j | 0 <= j < row && IsValid(validity, j) ::
                  ItemsInRange(child, entries[j].offset, entries[j].length)
      invariant forall j | 0 <= j < row ::
                  values[j] == if IsValid(validity, j) then ItemsOf(child, entries[j].offset, entries[j].length) else None
      invariant forall j | row <= j < count :: values[j] == None
    {
      if IsValid(validity, row) {
        var items :- CollectItems(child, entries[row].offset, entries[row].length);
        values[row] := items;
      }
    }
    assert values[..] == ListRows(validity, entries, child, count);
    return Returned(values[..]);
  }

  method CollectArrays(validity: Validity, size: nat, child: Option<Vec>, count: nat) returns (out: Go<seq<Cell>>)
    requires MaskFits(validity, count)
    ensures out == if ArrayInRange(validity, size, child, count)
                   then Returned(ArrayRows(validity, size, child, count)) else Panicked
  {
    hide ItemsInRange, ItemsOf;
    var values := new Cell[count](_ => None);
    for row := 0 to count
      invariant forall j | 0 <= j < row && IsValid(validity, j) :: ItemsInRange(child, ToInt64(j * size), size)
      invariant forall j | 0 <= j < row ::
                  values[j] == if IsValid(validity, j) then ItemsOf(child, ToInt64(j * size), size) else None
      invariant forall j | row <= j < count :: values[j] == None
    {
      if IsValid(validity, row) {
        var items :- CollectItems(child, ToInt64(row * size), size);
        values[row] := items;
      }
    }
    assert values[..] == ArrayRows(validity, size, child, count);
    return Returned(values[..]);
  }

  /** One struct row, field by field; a missing child column leaves its field out. */
  method CollectFields(children: seq<ChildType>, vecs: seq<Option<Vec>>, row: nat) returns (out: Go<Cell>)
    ensures out == if FieldsInRange(children, vecs, row)
                   then Returned(Some(Fields(FieldMap(children, vecs, row, |children|)))) else Panicked
  {
    var m: map<Text, Cell> := map[];
    for c := 0 to |children|
      invariant forall j | 0 <= j < c && j < |vecs| :: vecs[j].Some? ==> vecs[j].value.InRange(row)
      invariant FieldsInRange(children, vecs, row) ==> m == FieldMap(children, vecs, row, c)
    {
      if c < |vecs| && vecs[c].Some? {
        if !vecs[c].value.InRange(row) {
          return Panicked;
        }
        m := m[children[c].name := vecs[c].value.GetObject(row)];
      }
    }
    return Returned(Some(Fields(m)));
  }

  method CollectStructs(validity: Validity, children: seq<ChildType>, vecs: seq<Option<Vec>>, count: nat)
    returns (out: Go<seq<Cell>>)
    requires MaskFits(validity, count)
    ensures out == if StructInRange(validity, children, vecs, count)
                   then Returned(StructRows(validity, children, vecs, count)) else Panicked
  {
    hide FieldsInRange, FieldMap;
    var values := new Cell[count](_ => None);
    for row := 0 to count
      invariant forall j | 0 <= j < row && IsValid(validity, j) :: FieldsInRange(children, vecs, j)
      invariant forall j | 0 <= j < row ::
                  values[j] == if IsValid(validity, j)
                               then Some(Fields(FieldMap(children, vecs, j, |children|))) else None
      invariant forall j | row <= j < count :: values[j] == None
    {
      if IsValid(validity, row) {
        var fields :- CollectFields(children, vecs, row);
        values[row] := fields;
      }
    }
    assert values[..] == StructRows(validity, children, vecs, count);
    return Returned(values[..]);
  }

  /** One value per string; Go panics where the bitmap is too short. */
  method CollectStrings(t: LogicalType, validity: Validity, texts: seq<Text>) returns (out: Go<seq<Cell>>)
    ensures out == if StringsInRange(validity, texts) then Returned(StringRows(t, validity, texts)) else Panicked
  {
    var values := new Cell[|texts|](_ => None);
    for i := 0 to |texts|
      invariant forall j | 0 <= j < i :: Covers(validity, j)
      invariant forall j | 0 <= j < i ::
                  values[j] == if IsValid(validity, j) then Some(StringLike(t, texts[j])) else None
      invariant forall j | i <= j < |texts| :: values[j] == None
    {
      if !Covers(validity, i) {
        return Panicked;
      }
      if IsValid(validity, i) {
        values[i] := Some(StringLike(t, texts[i]));
      }
    }
    assert values[..] == StringRows(t, validity, texts);
    return Returned(values[..]);
  }
}
