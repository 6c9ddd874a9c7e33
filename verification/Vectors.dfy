/** Decoded columns, their row view, and the conversion of one row to and from its fixed-width storage. */
module Vectors {
  import opened Numbers
  import opened QuackTypes
  import opened Validity
  import opened HugeInts
  import opened Uuids
  import opened Decimals

  /** The dynamic Go type of a number. Floats are kept as their bit patterns. */
  datatype NumKind = KBool | KInt8 | KInt16 | KInt32 | KInt64 | KUint64 | KInt | KFloat32 | KFloat64

  /** A non-nil Go value of a row; a bool is 0 or 1. `Instant` is the time.Time `ns` nanoseconds after the epoch. */
  datatype Value =
    | Num(kind: NumKind, n: int)
    | Str(text: Text)
    | Raw(bytes: Text)
    | Big(v: int)
    | Rat(f: Fraction)
    | Interval(months: int, days: int, micros: int)
    | Instant(ns: int)
    | Items(items: seq<Option<Value>>)
    | Fields(fields: map<Text, Option<Value>>)

  /** A row: None is nil. */
  type Cell = Option<Value>

  /**
   A column. The seven vectors over primitive slices differ only in the Go type of their elements, which is
   `kind` here.
   */
  datatype Vec =
    | Prim(typ: LogicalType, kind: NumKind, numbers: seq<int>, validity: Validity)
    | Obj(typ: LogicalType, cells: seq<Cell>)
  {
    function Size(): nat {
      if Prim? then |numbers| else |cells|
    }

    /** Reading the row does not index out of range; `row` is a Go int. */
    predicate InRange(row: int) {
      if Obj? then 0 <= row < |cells|
      else 0 <= row && Covers(validity, row) && (IsValid(validity, row) ==> row < |numbers|)
    }

    function GetObject(row: int): Cell
      requires InRange(row)
    {
      if Obj? then cells[row]
      else if IsValid(validity, row) then Some(Num(kind, numbers[row])) else None
    }

    /** The bitmap, if any, has exactly the words that the rows need. */
    predicate WellSized() {
      Prim? && validity.Some? ==> |validity.value| == WordCount(|numbers|)
    }

    /** The row view. */
    function Rows(): (rows: seq<Cell>)
      requires WellSized()
      ensures |rows| == Size()
    {
      seq(Size(), row requires 0 <= row < Size() => GetObject(row))
    }
  }

  datatype DataChunk = DataChunk(rowCount: nat, types: Slice<LogicalType>, columns: seq<Option<Vec>>)

  /** Types whose Go value is no primitive, although their storage has a fixed width. */
  predicate NeedsObject(t: LogicalType, p: PhysicalType) {
    t.id in {DECIMAL, DATE, TIME, TIME_NS, TIME_TZ, TIMESTAMP, TIMESTAMP_SEC, TIMESTAMP_MS, TIMESTAMP_NS,
             TIMESTAMP_TZ, UUID, INTERVAL, HUGEINT, UHUGEINT, ENUM}
    || p in {PInterval, PInt128, PUint128}
  }

  /** Stored as a primitive slice once decoded. */
  predicate Primitive(t: LogicalType) {
    Physical(t).ConstantSize() && !NeedsObject(t, Physical(t))
  }

  // ---- from storage to value ----

  /** The element type of the vector: unsigned storage is promoted, 64-bit storage is reinterpreted. */
  function PrimKind(p: PhysicalType): NumKind {
    match p
    case PBool => KBool
    case PInt8 => KInt8
    case PUint8 | PInt16 => KInt16
    case PUint16 | PInt32 => KInt32
    case PUint32 | PInt64 | PUint64 => KInt64
    case PFloat => KFloat32
    case PDouble => KFloat64
    case _ => KInt
  }

  /** `raw` is the little-endian unsigned value of the stored bytes. */
  function PrimFromRaw(p: PhysicalType, raw: nat): int {
    match p
    case PBool => if raw != 0 then 1 else 0
    case PInt8 => Signed(raw, 0x100)
    case PInt16 => Signed(raw, 0x1_0000)
    case PInt32 => Signed(raw, TWO_32)
    case PInt64 | PUint64 => ToInt64(raw)
    case _ => raw
  }

  function EnumOrInt(t: LogicalType, index: nat): Value {
    if t.id != ENUM then Num(KInt32, Signed(index, TWO_32))
    else if index >= |EnumValues(t)| then Num(KInt, index)
    else Str(EnumValues(t)[index])
  }

  function DecimalFromUnscaled(t: LogicalType, v: int): Value {
    match t.info
    case Some(DecimalInfo(_, scale, _)) => Rat(FromUnscaled(v, scale))
    case _ => Rat(MakeFraction(v, 1))
  }

  const MICROSECOND: int := 1_000
  const MILLISECOND: int := 1_000_000
  const SECOND: int := 1_000_000_000
  const HOUR: int := 3_600 * SECOND
  const DAY: int := 24 * HOUR

  /** 64-bit storage that is read as a time.Time. */
  predicate TimeLike(id: Int64) {
    id in {TIME, TIME_NS, TIMESTAMP_SEC, TIMESTAMP_MS, TIMESTAMP, TIMESTAMP_NS, TIMESTAMP_TZ}
  }

  /** The nanoseconds in one unit of the stored number. */
  function Unit(id: Int64): (u: int)
    requires TimeLike(id)
    ensures u > 0
  {
    if id == TIMESTAMP_SEC then SECOND
    else if id == TIMESTAMP_MS then MILLISECOND
    else if id in {TIME, TIMESTAMP, TIMESTAMP_TZ} then MICROSECOND
    else 1
  }

  /** A TIME is a duration since midnight, and durations are 64-bit nanoseconds; a TIMESTAMP is any second. */
  function InstantOf(id: Int64, v: Int64): Value
    requires TimeLike(id)
  {
    Instant(if id == TIME then ToInt64(v * Unit(id)) else v * Unit(id))
  }

  function Int64Logical(t: LogicalType, v: Int64): Value {
    if TimeLike(t.id) then InstantOf(t.id, v)
    else if t.id == DECIMAL then DecimalFromUnscaled(t, v)
    else Num(KInt64, v)
  }

  function ObjectFromRaw(t: LogicalType, p: PhysicalType, raw: nat): Cell {
    match p
    case PBool => Some(Num(KBool, if raw != 0 then 1 else 0))
    case PInt8 => Some(Num(KInt32, Signed(raw, 0x100)))
    case PUint8 | PUint16 => Some(EnumOrInt(t, raw))
    case PInt16 =>
      var v := Signed(raw, 0x1_0000);
      Some(if t.id == DECIMAL then DecimalFromUnscaled(t, v) else Num(KInt32, v))
    case PInt32 =>
      var v := Signed(raw, TWO_32);
      Some(if t.id == DATE then Instant(v * DAY)
           else if t.id == DECIMAL then DecimalFromUnscaled(t, v)
           else Num(KInt32, v))
    case PUint32 => Some(if t.id != ENUM || raw > 0x7FFF_FFFF then Num(KInt64, raw) else EnumOrInt(t, raw))
    case PInt64 => Some(Int64Logical(t, ToInt64(raw)))
    case PUint64 => Some(Num(KUint64, raw))
    case PFloat => Some(Num(KFloat32, raw))
    case PDouble => Some(Num(KFloat64, raw))
    case PInt128 =>
      var parts := HugeIntParts(ToInt64(raw / TWO_64), raw % TWO_64);
      Some(if t.id == UUID then Str(UuidText(parts))
           else if t.id == DECIMAL then DecimalFromUnscaled(t, SignedBig(parts))
           else Big(SignedBig(parts)))
    case PUint128 => Some(Big(UnsignedBig(HugeIntParts(ToInt64(raw / TWO_64), raw % TWO_64))))
    case PInterval => Some(Interval(Signed(raw, TWO_32), Signed(raw / TWO_32, TWO_32), ToInt64(raw / TWO_64)))
    case _ => None
  }

  // ---- from value to storage ----

  /** Go's toInt64: anything that is no integer counts as zero. */
  function IntOf(c: Cell): Int64 {
    match c
    case Some(Num(kind, n)) => if kind.KBool? then 0 else ToInt64(n)
    case _ => 0
  }

  /** The model leaves out conversions between floats and integers. */
  predicate IsFloat(c: Cell) {
    c.Some? && c.value.Num? && (c.value.kind.KFloat32? || c.value.kind.KFloat64?)
  }

  predicate IsInstant(c: Cell) {
    c.Some? && c.value.Instant?
  }

  /** The first second that Go's calendar knows; before it the time of day is not defined. */
  const FIRST_SECOND: int := -9_223_372_028_715_321_600

  /** The time of day, or the time since the epoch, in units of the type; both ways down to the unit below. */
  function InstantRaw(id: Int64, ns: int): Int64
    requires TimeLike(id)
  {
    if id in {TIME, TIME_NS} then (ns % DAY) / Unit(id) else ToInt64(ns / Unit(id))
  }

  /** The difference of two instants stops at the ends of a 64-bit duration. */
  function Saturated(ns: int): Int64 {
    if ns < -TWO_63 then -TWO_63 else if ns >= TWO_63 then TWO_63 - 1 else ns
  }

  /** Whole days since the epoch, toward zero. */
  function EpochDays(ns: int): int {
    Quo(Saturated(ns), DAY)
  }

  /** The division goes through floating hours, which are exact for whole hours and at the ends of the range. */
  predicate DateWritable(c: Cell) {
    !IsFloat(c) && (IsInstant(c) ==> c.value.ns % HOUR == 0 || Saturated(c.value.ns) != c.value.ns)
  }

  predicate Int64Writable(t: LogicalType, c: Cell) {
    if t.id == DECIMAL then DecimalWritable(t, c)
    else !IsFloat(c) && (IsInstant(c) && t.id in {TIME, TIME_NS} ==> c.value.ns >= FIRST_SECOND * SECOND)
  }

  function Int64Raw(t: LogicalType, c: Cell): int
    requires Int64Writable(t, c)
  {
    if t.id == DECIMAL then DecimalRaw(t, c)
    else if IsInstant(c) && TimeLike(t.id) then InstantRaw(t.id, c.value.ns)
    else IntOf(c)
  }

  /** A single-precision NaN whose quiet bit is clear. */
  predicate Signalling(bits: int) {
    (bits / 0x80_0000) % 0x100 == 0xFF && bits % 0x80_0000 != 0 && (bits / 0x40_0000) % 2 == 0
  }

  /** Widening to double precision and narrowing again: only the quiet bit of a NaN is set. */
  function Requieted(bits: int): int {
    if Signalling(bits) then bits + 0x40_0000 else bits
  }

  function IndexOf(values: seq<Text>, text: Text): (index: nat)
    requires text in values
    ensures index < |values| && values[index] == text
    ensures forall j | 0 <= j < index :: values[j] != text
  {
    if values[0] == text then 0 else 1 + IndexOf(values[1..], text)
  }

  /** An ENUM value is found by its text; Go panics on an unknown one. */
  predicate EnumWritable(t: LogicalType, c: Cell) {
    if c.None? then true
    else if t.id == ENUM then c.value.Str? && c.value.text in EnumValues(t)
    else !IsFloat(c)
  }

  function EnumRaw(t: LogicalType, c: Cell): int
    requires EnumWritable(t, c)
  {
    if c.None? then 0
    else if t.id == ENUM then IndexOf(EnumValues(t), c.value.text)
    else IntOf(c)
  }

  /** Go panics when the type carries no DECIMAL info; strings and floats as decimals are not part of the model. */
  predicate DecimalWritable(t: LogicalType, c: Cell) {
    t.info.Some? && t.info.value.DecimalInfo? && !IsFloat(c)
    && (c.Some? ==> !c.value.Str? && (c.value.Rat? ==> c.value.f.den > 0))
  }

  function DecimalRaw(t: LogicalType, c: Cell): int
    requires DecimalWritable(t, c)
  {
    var scale := t.info.value.scale;
    match c
    case Some(Rat(f)) => Unscaled(f, scale)
    case Some(Big(v)) => v * Factor(scale)
    case _ => IntOf(c) * Factor(scale)
  }

  /** Writing the cell neither panics nor needs a conversion that the model leaves out. */
  predicate Writable(t: LogicalType, p: PhysicalType, c: Cell) {
    match p
    case PUint8 | PUint16 | PUint32 => EnumWritable(t, c)
    case PFloat => c.Some? && c.value.Num? ==> c.value.kind.KFloat32?
    case PDouble => c.Some? && c.value.Num? ==> c.value.kind.KFloat64?
    case PInt128 =>
      c.None? || (if t.id == UUID then true else if t.id == DECIMAL then DecimalWritable(t, c) else !IsFloat(c))
    case PInterval => true
    case PInt64 => c.None? || Int64Writable(t, c)
    case PInt32 =>
      if t.id == DECIMAL then DecimalWritable(t, c) else if t.id == DATE then DateWritable(c) else !IsFloat(c)
    case PInt16 => if t.id == DECIMAL then DecimalWritable(t, c) else !IsFloat(c)
    case _ => !IsFloat(c)
  }

  /** The number whose low bytes are stored. */
  function ToRaw(t: LogicalType, p: PhysicalType, c: Cell): int
    requires Writable(t, p, c)
  {
    match p
    case PBool =>
      if c.Some? && c.value.Num? then (if c.value.n != 0 then 1 else 0) else 0
    case PUint8 | PUint16 | PUint32 => EnumRaw(t, c)
    case PInt16 => if t.id == DECIMAL then DecimalRaw(t, c) else IntOf(c)
    case PInt32 =>
      if t.id == DECIMAL then DecimalRaw(t, c)
      else if t.id == DATE && IsInstant(c) then EpochDays(c.value.ns)
      else IntOf(c)
    case PInt64 => if c.None? then 0 else Int64Raw(t, c)
    case PFloat => if c.Some? && c.value.Num? then Requieted(c.value.n) else 0
    case PDouble => if c.Some? && c.value.Num? then c.value.n else 0
    case PInt128 =>
      if c.None? then 0
      else if t.id == UUID then SignedBig(if c.value.Str? then UuidParts(c.value.text) else ZERO)
      else if t.id == DECIMAL then DecimalRaw(t, c)
      else if c.value.Big? then c.value.v
      else IntOf(c)
    case PUint128 => if c.Some? && c.value.Big? then c.value.v else IntOf(c)
    case PInterval =>
      if c.Some? && c.value.Interval?
      then c.value.months % TWO_32 + TWO_32 * (c.value.days % TWO_32 + TWO_32 * c.value.micros)
      else 0
    case _ => IntOf(c)
  }

  // ---- values that storage can hold ----

  predicate PrimRange(p: PhysicalType, n: int) {
    match p
    case PBool => 0 <= n <= 1
    case PInt8 => -0x80 <= n < 0x80
    case PUint8 => 0 <= n < 0x100
    case PInt16 => -0x8000 <= n < 0x8000
    case PUint16 => 0 <= n < 0x1_0000
    case PInt32 => -TWO_31 <= n < TWO_31
    case PUint32 | PFloat => 0 <= n < TWO_32
    case PInt64 | PUint64 => -TWO_63 <= n < TWO_63
    case PDouble => 0 <= n < TWO_64
    case _ => false
  }

  predicate StorageRange(p: PhysicalType, n: int) {
    match p
    case PInt16 => -0x8000 <= n < 0x8000
    case PInt32 => -TWO_31 <= n < TWO_31
    case PInt64 => -TWO_63 <= n < TWO_63
    case PInt128 => -TWO_127 <= n < TWO_127
    case _ => false
  }

  /**
   The value is one that the column's storage holds exactly: an in-range number of the column's own Go type, but no
   signalling NaN; a known ENUM string; a DECIMAL in lowest terms with no more places than its scale; a canonical UUID;
   a DATE at midnight no further from the epoch than a 64-bit duration; a TIME within one day, in whole units.
   */
  predicate Canonical(t: LogicalType, v: Value) {
    var p := Physical(t);
    if !NeedsObject(t, p) then
      v.Num? && v.kind == PrimKind(p) && PrimRange(p, v.n) && (p.PFloat? ==> !Signalling(v.n))
    else if t.id == ENUM then
      v.Str? && v.text in EnumValues(t) && IndexOf(EnumValues(t), v.text) < TWO_31
    else if t.id == DECIMAL then
      v.Rat? && t.info.Some? && t.info.value.DecimalInfo? && OnGrid(v.f, t.info.value.scale)
      && StorageRange(p, v.f.num * (Factor(t.info.value.scale) / v.f.den))
    else if t.id == UUID then v.Str? && CanonicalUuid(v.text)
    else if t.id == HUGEINT then v.Big? && -TWO_127 <= v.v < TWO_127
    else if t.id == UHUGEINT then v.Big? && 0 <= v.v < TWO_128
    else if t.id == INTERVAL then
      v.Interval? && -TWO_31 <= v.months < TWO_31 && -TWO_31 <= v.days < TWO_31 && -TWO_63 <= v.micros < TWO_63
    else if t.id == DATE then v.Instant? && v.ns % DAY == 0 && -TWO_63 <= v.ns < TWO_63
    else if t.id in {TIME, TIME_NS} then v.Instant? && v.ns % Unit(t.id) == 0 && 0 <= v.ns < DAY
    else if TimeLike(t.id) then
      v.Instant? && v.ns % Unit(t.id) == 0 && -TWO_63 <= v.ns / Unit(t.id) < TWO_63
    else t.id == TIME_TZ && v.Num? && v.kind == KInt64 && -TWO_63 <= v.n < TWO_63
  }

  /** One stored row read back. */
  function CellFromRaw(t: LogicalType, p: PhysicalType, raw: nat): Cell {
    if NeedsObject(t, p) then ObjectFromRaw(t, p, raw) else Some(Num(PrimKind(p), PrimFromRaw(p, raw)))
  }
}
