/** Arrow columns to chunks and back: what bulk ingest writes is what a query of the same rows reads. */
module BulkIngest {
  import opened Numbers
  import opened Wire
  import opened QuackTypes
  import opened Validity
  import opened Decimals
  import opened TypeCodec
  import opened TypeRoundTrip
  import opened Vectors
  import opened ValueRoundTrip
  import opened VectorEncoder
  import opened VectorDecoder
  import opened ChunkRoundTrip

  datatype ArrowType =
    | ABool | AInt8 | AInt16 | AInt32 | AInt64 | AUint8 | AUint16 | AUint32 | AUint64
    | AFloat32 | AFloat64 | AString | ABinary | ADecimal(precision: nat, scale: nat)
    | ALargeString | ALargeBinary | ADate32 | ATimestamp(zoned: bool) | AOther

  /** A non-null Arrow value; a bool is 0 or 1, a float its bit pattern, a decimal its unscaled number. */
  datatype Datum = N(n: int) | S(bytes: Text)

  datatype ArrowColumn = ArrowColumn(typ: ArrowType, values: seq<Option<Datum>>)

  datatype ArrowRecord = ArrowRecord(rowCount: nat, columns: Slice<ArrowColumn>)

  /** The values that an Arrow array of the type can hold. */
  predicate Fits(typ: ArrowType, d: Datum) {
    match typ
    case ABool => d.N? && 0 <= d.n <= 1
    case AInt8 => d.N? && -0x80 <= d.n < 0x80
    case AInt16 => d.N? && -0x8000 <= d.n < 0x8000
    case AInt32 => d.N? && -TWO_31 <= d.n < TWO_31
    case AInt64 => d.N? && -TWO_63 <= d.n < TWO_63
    case AUint8 => d.N? && 0 <= d.n < 0x100
    case AUint16 => d.N? && 0 <= d.n < 0x1_0000
    case AUint32 | AFloat32 => d.N? && 0 <= d.n < TWO_32
    case AUint64 | AFloat64 => d.N? && 0 <= d.n < TWO_64
    case AString | ABinary | ALargeString | ALargeBinary => d.S?
    case ADecimal(precision, scale) => d.N? && scale <= precision <= 38 && -Pow10(precision) < d.n < Pow10(precision)
    case _ => true
  }

  predicate WellTyped(c: ArrowColumn) {
    (c.typ.ADecimal? ==> c.typ.scale <= c.typ.precision <= 38)
    && forall i | 0 <= i < |c.values| && c.values[i].Some? :: Fits(c.typ, c.values[i].value)
  }

  // ---- types ----

  function LogicalTypeFor(typ: ArrowType): Option<LogicalType> {
    match typ
    case ABool => Some(LogicalType(BOOLEAN, None))
    case AInt8 => Some(LogicalType(TINYINT, None))
    case AInt16 => Some(LogicalType(SMALLINT, None))
    case AInt32 => Some(LogicalType(INTEGER, None))
    case AInt64 => Some(LogicalType(BIGINT, None))
    case AUint8 => Some(LogicalType(UTINYINT, None))
    case AUint16 => Some(LogicalType(USMALLINT, None))
    case AUint32 => Some(LogicalType(UINTEGER, None))
    case AUint64 => Some(LogicalType(UBIGINT, None))
    case AFloat32 => Some(LogicalType(FLOAT, None))
    case AFloat64 => Some(LogicalType(DOUBLE, None))
    case AString | ALargeString => Some(LogicalType(VARCHAR, None))
    case ABinary | ALargeBinary => Some(LogicalType(BLOB, None))
    case ADecimal(precision, scale) =>
      if precision <= MAX_INT && scale <= MAX_INT
      then Some(LogicalType(DECIMAL, Some(DecimalInfo(precision, scale, [])))) else None
    case ADate32 => Some(LogicalType(DATE, None))
    case ATimestamp(zoned) => Some(LogicalType(if zoned then TIMESTAMP_TZ else TIMESTAMP, None))
    case AOther => None
  }

  /** A number in decimal digits. */
  function NatText(n: nat): (s: string)
    ensures s != ""
  {
    if n < 10 then ["0123456789"[n]] else NatText(n / 10) + ["0123456789"[n % 10]]
  }

  /** The column type in CREATE TABLE. */
  function SqlTypeFor(typ: ArrowType): Option<string> {
    match typ
    case ABool => Some("BOOLEAN")
    case AInt8 => Some("TINYINT")
    case AInt16 => Some("SMALLINT")
    case AInt32 => Some("INTEGER")
    case AInt64 => Some("BIGINT")
    case AUint8 => Some("UTINYINT")
    case AUint16 => Some("USMALLINT")
    case AUint32 => Some("UINTEGER")
    case AUint64 => Some("UBIGINT")
    case AFloat32 => Some("FLOAT")
    case AFloat64 => Some("DOUBLE")
    case AString | ALargeString => Some("VARCHAR")
    case ABinary | ALargeBinary => Some("BLOB")
    case ADecimal(precision, scale) => Some("DECIMAL(" + NatText(precision) + ", " + NatText(scale) + ")")
    case ADate32 => Some("DATE")
    case ATimestamp(zoned) => Some(if zoned then "TIMESTAMP WITH TIME ZONE" else "TIMESTAMP")
    case AOther => None
  }

  /** The Arrow type of a result column, for the types that ingest produces. */
  function ArrowTypeFor(t: LogicalType): ArrowType {
    if t.id == BOOLEAN then ABool
    else if t.id == TINYINT then AInt8
    else if t.id == SMALLINT then AInt16
    else if t.id == INTEGER then AInt32
    else if t.id == BIGINT then AInt64
    else if t.id == UTINYINT then AUint8
    else if t.id == USMALLINT then AUint16
    else if t.id == UINTEGER then AUint32
    else if t.id == UBIGINT then AUint64
    else if t.id == FLOAT then AFloat32
    else if t.id == DOUBLE then AFloat64
    else if t.id == VARCHAR then AString
    else if t.id == BLOB then ABinary
    else if t.id == DECIMAL then
      match t.info
      case Some(DecimalInfo(width, scale, _)) => if width >= 0 && scale >= 0 then ADecimal(width, scale) else AOther
      case _ => ADecimal(38, 0)
    else AOther
  }

  // ---- values ----

  /** The array types that the conversion has a case for. */
  predicate HasCase(typ: ArrowType) {
    match typ
    case ABool | AInt8 | AInt16 | AInt32 | AInt64 | AUint8 | AUint16 | AUint32 | AUint64 => true
    case AFloat32 | AFloat64 | AString | ABinary | ADecimal(_, _) => true
    case _ => false
  }

  /** The Go value of a row: unsigned values are promoted, uint64 is reinterpreted as int64. */
  function ValueOf(typ: ArrowType, d: Datum): Value
    requires HasCase(typ) && Fits(typ, d)
  {
    match typ
    case ABool => Num(KBool, d.n)
    case AInt8 => Num(KInt8, d.n)
    case AInt16 | AUint8 => Num(KInt16, d.n)
    case AInt32 | AUint16 => Num(KInt32, d.n)
    case AInt64 | AUint32 => Num(KInt64, d.n)
    case AUint64 => Num(KInt64, ToInt64(d.n))
    case AFloat32 => Num(KFloat32, d.n)
    case AFloat64 => Num(KFloat64, d.n)
    case AString => Str(d.bytes)
    case ABinary => Raw(d.bytes)
    case ADecimal(_, _) => Big(d.n)
    case _ => Num(KInt, 0)
  }

  function KindFor(typ: ArrowType): NumKind {
    match typ
    case ABool => KBool
    case AInt8 => KInt8
    case AInt16 | AUint8 => KInt16
    case AInt32 | AUint16 => KInt32
    case AFloat32 => KFloat32
    case AFloat64 => KFloat64
    case _ => KInt64
  }

  /** Text, bytes and decimals go into an object column, everything else into a primitive one. */
  predicate Boxed(typ: ArrowType) {
    typ.AString? || typ.ABinary? || typ.ADecimal?
  }

  function CellFor(typ: ArrowType, d: Option<Datum>): Cell
    requires HasCase(typ) && (d.Some? ==> Fits(typ, d.value))
  {
    if d.None? then None else Some(ValueOf(typ, d.value))
  }

  function Nulls(values: seq<Option<Datum>>): (nulls: seq<bool>)
    ensures |nulls| == |values|
  {
    seq(|values|, i requires 0 <= i < |values| => values[i].None?)
  }

  function VectorFor(t: LogicalType, c: ArrowColumn): (vec: Vec)
    requires HasCase(c.typ) && WellTyped(c)
    ensures vec.WellSized() && vec.Size() == |c.values|
  {
    var cells := seq(|c.values|, i requires 0 <= i < |c.values| => CellFor(c.typ, c.values[i]));
    if Boxed(c.typ) then Obj(t, cells)
    else
      Prim(t, KindFor(c.typ),
        seq(|cells|, i requires 0 <= i < |cells| => if cells[i].None? then 0 else cells[i].value.n),
        FromNulls(Nulls(c.values)))
  }

  lemma VectorForRow(t: LogicalType, c: ArrowColumn, i: nat)
    requires HasCase(c.typ) && WellTyped(c) && i < |c.values|
    ensures VectorFor(t, c).Rows()[i] == CellFor(c.typ, c.values[i])
  {
    FromNullsRows(Nulls(c.values), i);
  }

  /** Arrow panics on a decimal of more than 127 bits besides its sign. */
  predicate Within127(v: int) {
    -TWO_127 < v < TWO_127
  }

  /** Reading the row back into an Arrow array does not panic, and needs no formatting or float arithmetic. */
  predicate Readable(typ: ArrowType, c: Cell) {
    c.Some? ==>
      match typ
      case ABool => c.value.Num? && c.value.kind.KBool?
      case AFloat32 => c.value.Num? && c.value.kind.KFloat32?
      case AFloat64 => c.value.Num? && c.value.kind.KFloat64?
      case AString => c.value.Str?
      case ABinary => c.value.Raw?
      case ADecimal(_, scale) =>
        (c.value.Rat? ==> c.value.f.den > 0 && Within127(Unscaled(c.value.f, scale)))
        && (c.value.Big? ==> Within127(c.value.v))
      case _ => true
  }

  /** The low bits of an integer of any Go width; other values count as zero. */
  function LowBits(v: Value): int {
    if v.Num? && !(v.kind.KBool? || v.kind.KFloat32? || v.kind.KFloat64?) then v.n else 0
  }

  function DatumOf(typ: ArrowType, c: Cell): Option<Datum>
    requires Readable(typ, c)
  {
    if c.None? then None
    else
      match typ
      case ABool => Some(N(c.value.n))
      case AInt8 => Some(N(Signed(LowBits(c.value), 0x100)))
      case AInt16 => Some(N(Signed(LowBits(c.value), 0x1_0000)))
      case AInt32 => Some(N(Signed(LowBits(c.value), TWO_32)))
      case AInt64 => Some(N(ToInt64(LowBits(c.value))))
      case AUint8 => Some(N(LowBits(c.value) % 0x100))
      case AUint16 => Some(N(LowBits(c.value) % 0x1_0000))
      case AUint32 => Some(N(LowBits(c.value) % TWO_32))
      case AUint64 => Some(N(LowBits(c.value) % TWO_64))
      case AFloat32 => Some(N(Requieted(c.value.n)))
      case AFloat64 => Some(N(c.value.n))
      case AString => Some(S(c.value.text))
      case ABinary => Some(S(c.value.bytes))
      case ADecimal(_, scale) =>
        if c.value.Rat? then Some(N(Unscaled(c.value.f, scale)))
        else if c.value.Big? then Some(N(c.value.v))
        else None
      case _ => None
  }

  // ---- one row there and back ----

  /** A decimal is multiplied by 10^scale on the way, and a signalling NaN made quiet; everything else survives. */
  predicate Kept(typ: ArrowType, d: Option<Datum>) {
    d.Some? && d.value.N? ==>
      match typ
      case ADecimal(_, scale) => scale == 0 || d.value.n == 0
      case AFloat32 => !Signalling(d.value.n)
      case _ => true
  }

  /** The scaled decimal is not stored as -2^127, the one number that Arrow cannot hold. */
  predicate ReadsBack(typ: ArrowType, d: Option<Datum>) {
    typ.ADecimal? && typ.precision > 18 && d.Some? && d.value.N? ==>
      (d.value.n * Factor(typ.scale)) % TWO_128 != TWO_127
  }

  lemma RowWritable(typ: ArrowType, d: Option<Datum>)
    requires HasCase(typ) && (typ.ADecimal? ==> typ.scale <= typ.precision <= 38) && (d.Some? ==> Fits(typ, d.value))
    ensures LogicalTypeFor(typ).Some? && RowsWritable(LogicalTypeFor(typ).value, [CellFor(typ, d)])
  {
    hide Pow10;
    Pow10Values();
    var t, c := LogicalTypeFor(typ).value, CellFor(typ, d);
    assert if Physical(t).ConstantSize() then Writable(t, Physical(t), c) else TextWritable(c);
  }

  lemma PlainRowSurvives(typ: ArrowType, d: Option<Datum>)
    requires HasCase(typ) && !typ.ADecimal? && (d.Some? ==> Fits(typ, d.value))
    ensures LogicalTypeFor(typ).Some? && RowsWritable(LogicalTypeFor(typ).value, [CellFor(typ, d)])
    ensures var back := Back(LogicalTypeFor(typ).value, CellFor(typ, d));
            Readable(typ, back) && (DatumOf(typ, back) == d <==> Kept(typ, d))
  {
    RowWritable(typ, d);
    if Kept(typ, d) {
      hide RowsWritable, Back, CanonicalRow, Fits;
      PlainCanonical(typ, d);
      BackCanonical(LogicalTypeFor(typ).value, CellFor(typ, d));
      PlainDatum(typ, d);
    } else {
      FloatRow(d.value.n);
    }
  }

  lemma PlainCanonical(typ: ArrowType, d: Option<Datum>)
    requires HasCase(typ) && !typ.ADecimal? && (d.Some? ==> Fits(typ, d.value)) && Kept(typ, d)
    ensures CanonicalRow(LogicalTypeFor(typ).value, CellFor(typ, d))
  {
  }

  /** A single-precision value comes back with its quiet bit set if it is a NaN. */
  lemma FloatRow(bits: nat)
    requires bits < TWO_32
    ensures var t, c := LogicalType(FLOAT, None), Some(Num(KFloat32, bits));
            RowsWritable(t, [c]) && Back(t, c) == Some(Num(KFloat32, Requieted(bits)))
    ensures !Signalling(Requieted(bits))
  {
    Pow256Values();
    RequietedBits(bits);
    ModUnique(Requieted(bits), TWO_32, 0, Requieted(bits));
  }

  /** Widening, reinterpreting and narrowing again are undone for every value of the type. */
  lemma PlainDatum(typ: ArrowType, d: Option<Datum>)
    requires HasCase(typ) && !typ.ADecimal? && (d.Some? ==> Fits(typ, d.value))
    ensures Readable(typ, CellFor(typ, d)) && (DatumOf(typ, CellFor(typ, d)) == d <==> Kept(typ, d))
  {
    if d.Some? && d.value.N? {
      var n := d.value.n;
      match typ {
        case AInt8 => SignedOfMod(n, 0x100);
        case AInt16 => SignedOfMod(n, 0x1_0000);
        case AInt32 => SignedOfMod(n, TWO_32);
        case AInt64 => SignedOfMod(n, TWO_64);
        case AUint64 =>
          ModEqual(n, ToInt64(n), TWO_64);
          ModUnique(n, TWO_64, 0, n);
        case _ =>
      }
    }
  }

  /** An odd factor is invertible modulo a power of two. */
  lemma {:induction false} OddFactor(v: int, m: int, k: nat)
    requires m % 2 == 1 && (v * m) % Pow2(k) == 0
    ensures v % Pow2(k) == 0
    decreases k
  {
    if k > 0 {
      var p, q, w := Pow2(k - 1), v * m / Pow2(k), v / 2;
      assert v * m == 2 * (p * q) by {
        assert v * m == (2 * p) * q;
      }
      EvenProduct(v, m, p * q);
      ModUnique(w * m, p, q, 0);
      OddFactor(w, m, k - 1);
      assert v == (2 * p) * (w / p) + 0;
      ModUnique(v, 2 * p, w / p, 0);
    }
  }

  lemma EvenProduct(v: int, m: int, half: int)
    requires m % 2 == 1 && v * m == 2 * half
    ensures v == 2 * (v / 2) && (v / 2) * m == half
  {
    var h, w := m / 2, v / 2;
    assert v * m == 2 * (v * h) + v by {
      assert m == 2 * h + 1;
      assert v * (2 * h + 1) == 2 * (v * h) + v;
    }
    assert v == 2 * w;
    assert (2 * w) * m == 2 * (w * m);
  }

  lemma {:induction false} Pow256IsPow2(n: nat)
    ensures Pow256(n) == Pow2(8 * n)
  {
    if n > 0 {
      Pow256IsPow2(n - 1);
      Pow2Values();
      Pow2Add(8, 8 * (n - 1));
    }
  }

  /** Multiplying by 10^scale changes every number but zero, even modulo the storage width. */
  lemma {:induction false} ScaledIsOther(v: int, scale: nat, width: nat)
    requires width > 0 && -(Pow256(width) / 2) <= v < Pow256(width) / 2
    ensures Pow256(width) % 2 == 0
    ensures Signed((v * Factor(scale)) % Pow256(width), Pow256(width)) == v <==> scale == 0 || v == 0
  {
    Pow256Even(width);
    hide Signed, Pow256, Factor;
    var m, x := Pow256(width), v * Factor(scale);
    if scale == 0 || v == 0 {
      assert x == v by { NoScale(v, scale); }
      SignedOfMod(v, m);
    } else if Signed(x % m, m) == v {
      ModSame(x, m);
      FixedUnderScale(v, scale, width, x);
      assert false;
    }
  }

  lemma {:induction false} Pow256Even(width: nat)
    requires width > 0
    ensures Pow256(width) % 2 == 0
  {
    assert Pow256(width) == 2 * (128 * Pow256(width - 1));
  }

  lemma NoScale(v: int, scale: nat)
    requires scale == 0 || v == 0
    ensures v * Factor(scale) == v
  {
  }

  lemma {:induction false} FixedUnderScale(v: int, scale: nat, width: nat, x: int)
    requires scale > 0 && Pow256(width) % 2 == 0 && x == v * Factor(scale) && Signed(x, Pow256(width)) == v
    ensures v == 0
  {
    hide Factor, Pow256, Pow2, Signed;
    var m, odd := Pow256(width), Factor(scale) - 1;
    OddTens(scale);
    assert v * odd == x - v;
    assert (x - v) % m == 0;
    Pow256IsPow2(width);
    OddFactor(v, odd, 8 * width);
    ZeroIfSmall(v, m);
  }

  lemma OddTens(scale: nat)
    requires scale > 0
    ensures (Factor(scale) - 1) % 2 == 1
  {
    assert Pow10(scale) == 2 * (5 * Pow10(scale - 1));
  }

  lemma ModSame(x: int, m: int)
    requires m > 0 && m % 2 == 0
    ensures Signed(x % m, m) == Signed(x, m)
  {
    ModUnique(x % m, m, 0, x % m);
  }

  lemma ZeroIfSmall(v: int, m: int)
    requires m > 0 && v % m == 0 && -(m / 2) <= v < m / 2
    ensures v == 0
  {
    var q := v / m;
    assert v == m * q;
    if q >= 1 {
      MulGe(m, q);
    } else if q <= -1 {
      MulGe(m, -q);
    }
  }

  /** What is stored is the scaled number, as far as the storage goes, and all of it is read back. */
  lemma {:induction false} DecimalRow(precision: nat, scale: nat, n: int)
    requires scale <= precision <= 38 && -Pow10(precision) < n < Pow10(precision)
    ensures var typ := ADecimal(precision, scale);
            var t := LogicalTypeFor(typ).value;
            RowsWritable(t, [Some(Big(n))])
            && (Readable(typ, Back(t, Some(Big(n)))) <==> ReadsBack(typ, Some(N(n))))
            && (Readable(typ, Back(t, Some(Big(n)))) && DatumOf(typ, Back(t, Some(Big(n)))) == Some(N(n))
                <==> scale == 0 || n == 0)
            && var m := Pow256(Physical(t).ByteWidth());
               m % 2 == 0
               && (ReadsBack(typ, Some(N(n))) ==>
                     DatumOf(typ, Back(t, Some(Big(n)))) == Some(N(Signed((n * Factor(scale)) % m, m))))
  {
    hide Signed, Factor, Unscaled, FromUnscaled, Pow10, Pow256, Back;
    var typ := ADecimal(precision, scale);
    var width := Physical(LogicalTypeFor(typ).value).ByteWidth();
    WidthFits(precision, n);
    Pow256Values();
    Pow10Values();
    Pow10Monotone(precision, 38);
    ScaledIsOther(n, scale, width);
    var u := DecimalBack(precision, scale, n);
    if precision > 18 {
      OnlyLowest(n * Factor(scale));
    }
    NoScale128(n, scale);
  }

  /** The number that comes back. */
  lemma DecimalBack(precision: nat, scale: nat, n: int) returns (u: int)
    requires scale <= precision <= 38 && -Pow10(precision) < n < Pow10(precision)
    ensures var t := LogicalTypeFor(ADecimal(precision, scale)).value;
            var m := Pow256(Physical(t).ByteWidth());
            m % 2 == 0 && u == Signed((n * Factor(scale)) % m, m)
            && RowsWritable(t, [Some(Big(n))])
            && Back(t, Some(Big(n))) == Some(Rat(FromUnscaled(u, scale)))
            && Unscaled(FromUnscaled(u, scale), scale) == u
  {
    hide Signed, Factor, Unscaled, FromUnscaled, Pow10, Fits, Pow256, CellFromRaw;
    var typ := ADecimal(precision, scale);
    var t := LogicalTypeFor(typ).value;
    DecimalFits(precision, scale, n);
    RowWritable(typ, Some(N(n)));
    Pow256Values();
    u := DecimalStorage(t, n * Factor(scale));
    UnscaledOfFraction(u, scale);
  }

  lemma {:induction false} DecimalFits(precision: nat, scale: nat, n: int)
    requires scale <= precision <= 38 && -Pow10(precision) < n < Pow10(precision)
    ensures Fits(ADecimal(precision, scale), N(n))
  {
  }

  /** A number that is kept is never the one that Arrow cannot hold. */
  lemma NoScale128(n: int, scale: nat)
    ensures -TWO_127 < n < TWO_127 && (scale == 0 || n == 0) ==> (n * Factor(scale)) % TWO_128 != TWO_127
  {
    if -TWO_127 < n < TWO_127 && (scale == 0 || n == 0) {
      NoScale(n, scale);
    }
  }

  lemma OnlyLowest(x: int)
    ensures Within127(Signed(x % TWO_128, TWO_128)) <==> x % TWO_128 != TWO_127
  {
  }

  /** One row there and back: Go panics exactly when Arrow cannot hold the stored decimal. */
  lemma RowSurvives(typ: ArrowType, d: Option<Datum>)
    requires HasCase(typ) && (typ.ADecimal? ==> typ.scale <= typ.precision <= 38) && (d.Some? ==> Fits(typ, d.value))
    ensures LogicalTypeFor(typ).Some? && RowsWritable(LogicalTypeFor(typ).value, [CellFor(typ, d)])
    ensures var back := Back(LogicalTypeFor(typ).value, CellFor(typ, d));
            (Readable(typ, back) <==> ReadsBack(typ, d))
            && (Readable(typ, back) && DatumOf(typ, back) == d <==> Kept(typ, d))
  {
    hide Factor, Readable, DatumOf, Back;
    if !typ.ADecimal? {
      PlainRowSurvives(typ, d);
    } else if d.Some? {
      DecimalRow(typ.precision, typ.scale, d.value.n);
    } else {
      RowWritable(typ, d);
      NilSurvives(typ);
    }
  }

  lemma NilSurvives(typ: ArrowType)
    requires HasCase(typ) && LogicalTypeFor(typ).Some? && RowsWritable(LogicalTypeFor(typ).value, [None])
    ensures Back(LogicalTypeFor(typ).value, None) == None && Readable(typ, None) && DatumOf(typ, None) == None
  {
  }

  /** 2^89 with 38 decimal places is 5^38 times 2^127, which is stored as -2^127: reading it back panics. */
  lemma LowestDecimalPanics()
    ensures var n := 0x2_0000_0000_0000_0000_0000_00;
            Fits(ADecimal(38, 38), N(n)) && !ReadsBack(ADecimal(38, 38), Some(N(n)))
  {
    Pow10Values();
    Pow10Add(18, 20);
    Pow10Add(18, 2);
    Pow10Add(9, 9);
    assert Pow10(2) == 100;
    assert Factor(38) == 100_000_000_000_000_000_000_000_000_000_000_000_000;
  }

  // ---- whole records ----

  /** Every column has the record's rows, and the record's bytes fit Go slices. */
  predicate WellFormedRecord(r: ArrowRecord) {
    16 * r.rowCount <= MAX_INT
    && forall i | 0 <= i < |r.columns| :: WellTyped(r.columns[i]) && |r.columns[i].values| == r.rowCount
  }

  predicate Ingestable(r: ArrowRecord) {
    forall i | 0 <= i < |r.columns| :: HasCase(r.columns[i].typ)
  }

  function ChunkFor(r: ArrowRecord): (chunk: Option<DataChunk>)
    requires WellFormedRecord(r)
    ensures chunk.Some? <==> Ingestable(r)
    ensures chunk.Some? ==> chunk.value.rowCount == r.rowCount && |chunk.value.columns| == |r.columns|
  {
    if !Ingestable(r) then None
    else
      var types := seq(|r.columns|, i requires 0 <= i < |r.columns| => TypeFor(r.columns[i]));
      Some(DataChunk(r.rowCount, types,
        seq(|r.columns|, i requires 0 <= i < |r.columns| => Some(VectorFor(types[i], r.columns[i])))))
  }

  function TypeFor(c: ArrowColumn): LogicalType
    requires HasCase(c.typ) && WellTyped(c)
  {
    LogicalTypeFor(c.typ).value
  }

  predicate ReadableChunk(chunk: DataChunk) {
    |chunk.columns| == |chunk.types|
    && forall i | 0 <= i < |chunk.columns| ::
         chunk.columns[i].Some? && chunk.columns[i].value.WellSized()
         && forall c | c in chunk.columns[i].value.Rows() :: Readable(ArrowTypeFor(chunk.types[i]), c)
  }

  function ColumnOf(t: LogicalType, vec: Vec): (c: ArrowColumn)
    requires vec.WellSized() && forall c | c in vec.Rows() :: Readable(ArrowTypeFor(t), c)
    ensures |c.values| == vec.Size()
  {
    var typ := ArrowTypeFor(t);
    ArrowColumn(typ, seq(vec.Size(), i requires 0 <= i < vec.Size() => DatumOf(typ, vec.Rows()[i])))
  }

  function RecordOf(chunk: DataChunk): ArrowRecord
    requires ReadableChunk(chunk)
  {
    ArrowRecord(chunk.rowCount,
      seq(|chunk.types|, i requires 0 <= i < |chunk.types| => ColumnOf(chunk.types[i], chunk.columns[i].value)))
  }

  predicate ColumnReads(c: ArrowColumn) {
    forall i | 0 <= i < |c.values| :: ReadsBack(c.typ, c.values[i])
  }

  predicate ColumnKept(c: ArrowColumn) {
    forall i | 0 <= i < |c.values| :: Kept(c.typ, c.values[i])
  }

  lemma ColumnEncodable(c: ArrowColumn)
    requires HasCase(c.typ) && WellTyped(c) && 16 * |c.values| <= MAX_INT
    ensures Encodable(TypeFor(c), VectorFor(TypeFor(c), c)) && Portable(TypeFor(c)) && ArrowTypeFor(TypeFor(c)) == c.typ
  {
    var t, vec := TypeFor(c), VectorFor(TypeFor(c), c);
    forall i | 0 <= i < |c.values|
      ensures RowsWritable(t, [vec.Rows()[i]])
    {
      VectorForRow(t, c, i);
      RowWritable(c.typ, c.values[i]);
    }
    RowsWritableEach(t, vec.Rows(), c.typ);
  }

  lemma RowsWritableEach(t: LogicalType, rows: seq<Cell>, typ: ArrowType)
    requires forall i | 0 <= i < |rows| :: RowsWritable(t, [rows[i]])
    requires HasCase(typ) && LogicalTypeFor(typ) == Some(t) && (typ.ADecimal? ==> typ.scale <= typ.precision <= 38)
    ensures RowsWritable(t, rows)
  {
    forall i | 0 <= i < |rows|
      ensures if Physical(t).ConstantSize() then Writable(t, Physical(t), rows[i]) else TextWritable(rows[i])
    {
      assert rows[i] in [rows[i]];
    }
  }

  /** One column: what the decoder builds from the bytes reads back as the Arrow column exactly when it is kept. */
  lemma ColumnSurvives(c: ArrowColumn)
    requires HasCase(c.typ) && WellTyped(c) && 16 * |c.values| <= MAX_INT
    ensures var t, vec := TypeFor(c), VectorFor(TypeFor(c), c);
            Encodable(t, vec)
            && ((forall row | row in Settled(t, vec).Rows() :: Readable(ArrowTypeFor(t), row)) <==> ColumnReads(c))
            && (ColumnReads(c) && ColumnOf(t, Settled(t, vec)) == c <==> ColumnKept(c))
  {
    hide Readable, DatumOf, Kept, ReadsBack, Settled, Back, CellFor, Encodable, VectorFor;
    ColumnEncodable(c);
    var t, vec := TypeFor(c), VectorFor(TypeFor(c), c);
    var rows := Settled(t, vec).Rows();
    forall i | 0 <= i < |c.values|
      ensures Readable(c.typ, rows[i]) <==> ReadsBack(c.typ, c.values[i])
      ensures Readable(c.typ, rows[i]) && DatumOf(c.typ, rows[i]) == c.values[i] <==> Kept(c.typ, c.values[i])
    {
      SettledRow(t, vec, i);
      VectorForRow(t, c, i);
      RowSurvives(c.typ, c.values[i]);
    }
    if ColumnReads(c) {
      KeptAll(t, c, Settled(t, vec));
    } else {
      var i :| 0 <= i < |c.values| && !ReadsBack(c.typ, c.values[i]);
      assert rows[i] in rows;
    }
  }

  lemma KeptAll(t: LogicalType, c: ArrowColumn, back: Vec)
    requires back.WellSized() && back.Size() == |c.values| && ArrowTypeFor(t) == c.typ
    requires forall i | 0 <= i < |c.values| :: Readable(c.typ, back.Rows()[i])
    requires forall i | 0 <= i < |c.values| ::
               DatumOf(c.typ, back.Rows()[i]) == c.values[i] <==> Kept(c.typ, c.values[i])
    ensures ColumnOf(t, back) == c <==> ColumnKept(c)
  {
    hide Readable, DatumOf, Kept;
    var values := ColumnOf(t, back).values;
    if ColumnKept(c) {
      assert values == c.values;
    } else {
      var i :| 0 <= i < |c.values| && !Kept(c.typ, c.values[i]);
      assert values[i] != c.values[i];
    }
  }

  /**
   Arrow record to chunk to wire to chunk to Arrow record. With columns of the supported types the bytes decode, and the
   chunk becomes a record without a panic if and only if no decimal is stored as -2^127. The record that comes back is
   the one that was sent if and only if no decimal column with a positive scale holds a value other than zero, and no
   single-precision column holds a signalling NaN.
   */
  lemma IngestRoundTrip(r: ArrowRecord, tail: Bytes)
    requires WellFormedRecord(r) && Ingestable(r)
    ensures var chunk := ChunkFor(r).value;
            ChunkEncodable(chunk)
            && var back := SettledChunk(chunk);
               ReadChunkWrapper(ChunkWrapper(chunk, tail)) == Ok(back, tail)
               && (ReadableChunk(back) <==> forall c | c in r.columns :: ColumnReads(c))
               && (ReadableChunk(back) && RecordOf(back) == r <==> forall c | c in r.columns :: ColumnKept(c))
  {
    hide ReadChunkWrapper, ChunkWrapper, Portable, RecordOf, ColumnKept, ColumnReads, Encodable, ReadableChunk,
      SettledChunk, ChunkEncodable, Settled;
    IngestEncodable(r);
    ChunkWrapperRoundTrip(ChunkFor(r).value, tail);
    RecordSurvives(r);
  }

  lemma IngestEncodable(r: ArrowRecord)
    requires WellFormedRecord(r) && Ingestable(r)
    ensures ChunkEncodable(ChunkFor(r).value) && ChunkPortable(ChunkFor(r).value)
  {
    hide Encodable, Portable;
    var chunk := ChunkFor(r).value;
    forall i | 0 <= i < |r.columns|
      ensures Encodable(chunk.types[i], chunk.columns[i].value) && Portable(chunk.types[i])
    {
      ColumnEncodable(r.columns[i]);
    }
  }

  lemma RecordSurvives(r: ArrowRecord)
    requires WellFormedRecord(r) && Ingestable(r) && ChunkEncodable(ChunkFor(r).value)
    ensures var back := SettledChunk(ChunkFor(r).value);
            (ReadableChunk(back) <==> forall c | c in r.columns :: ColumnReads(c))
            && (ReadableChunk(back) && RecordOf(back) == r <==> forall c | c in r.columns :: ColumnKept(c))
  {
    hide Encodable, Settled, ColumnKept, ColumnReads, Readable, WellTyped, VectorFor, ColumnOf;
    var chunk := ChunkFor(r).value;
    var back := SettledChunk(chunk);
    forall i | 0 <= i < |r.columns|
      ensures var vec := back.columns[i].value;
              ((forall row | row in vec.Rows() :: Readable(ArrowTypeFor(chunk.types[i]), row))
               <==> ColumnReads(r.columns[i]))
              && (ColumnReads(r.columns[i]) && ColumnOf(chunk.types[i], vec) == r.columns[i]
                  <==> ColumnKept(r.columns[i]))
    {
      ColumnSurvives(r.columns[i]);
    }
    if forall c | c in r.columns :: ColumnKept(c) {
      assert RecordOf(back).columns == r.columns;
    } else {
      var c :| c in r.columns && !ColumnKept(c);
      var i :| 0 <= i < |r.columns| && r.columns[i] == c;
      if ReadableChunk(back) {
        assert RecordOf(back).columns[i] != r.columns[i];
      }
    }
  }

  predicate Creatable(r: ArrowRecord) {
    forall i | 0 <= i < |r.columns| :: SqlTypeFor(r.columns[i].typ).Some?
  }

  /** The types that CREATE TABLE knows and the row conversion does not. */
  predicate CreatableOnly(typ: ArrowType) {
    typ.ALargeString? || typ.ALargeBinary? || typ.ADate32? || typ.ATimestamp?
  }

  /**
   For a schema of which a table can be created, the rows cannot be converted exactly when some column is large, a date
   or a timestamp. What can be converted can also be created, and every column of the table has the type it came from.
   */
  lemma CreatableIsIngestable(r: ArrowRecord)
    requires WellFormedRecord(r)
    ensures Creatable(r) ==>
              (ChunkFor(r).None? <==> exists i | 0 <= i < |r.columns| :: CreatableOnly(r.columns[i].typ))
    ensures ChunkFor(r).Some? ==>
              Creatable(r) && forall i | 0 <= i < |r.columns| :: ArrowTypeFor(TypeFor(r.columns[i])) == r.columns[i].typ
  {
    forall i | 0 <= i < |r.columns|
      ensures SqlTypeFor(r.columns[i].typ).Some? ==>
                (!HasCase(r.columns[i].typ) <==> CreatableOnly(r.columns[i].typ))
      ensures HasCase(r.columns[i].typ) ==>
                SqlTypeFor(r.columns[i].typ).Some? && ArrowTypeFor(TypeFor(r.columns[i])) == r.columns[i].typ
    {
      CreatableType(r.columns[i].typ);
    }
  }

  lemma CreatableType(typ: ArrowType)
    ensures SqlTypeFor(typ).Some? && typ.ADecimal? ==> HasCase(typ)
    ensures SqlTypeFor(typ).Some? ==> (HasCase(typ) <==> !CreatableOnly(typ))
    ensures HasCase(typ) && (typ.ADecimal? ==> typ.scale <= typ.precision <= 38) ==>
              SqlTypeFor(typ).Some? && LogicalTypeFor(typ).Some? && ArrowTypeFor(LogicalTypeFor(typ).value) == typ
  {
  }

  /** A table with a date column can be created, and then not even an empty record can be sent to it. */
  lemma DatesAreNotIngested()
    ensures var r := ArrowRecord(0, [ArrowColumn(ADate32, [])]);
            WellFormedRecord(r) && Creatable(r) && ChunkFor(r).None?
  {
    var r := ArrowRecord(0, [ArrowColumn(ADate32, [])]);
    assert CreatableOnly(r.columns[0].typ);
    CreatableIsIngestable(r);
  }

  /** A decimal of scale two that is stored in 64 bits: 1.00 comes back as 100.00. */
  lemma DecimalIngestScales(precision: nat)
    requires 10 <= precision <= 18
    ensures var typ := ADecimal(precision, 2);
            var t := LogicalTypeFor(typ).value;
            Fits(typ, N(100)) && RowsWritable(t, [Some(Big(100))]) && Readable(typ, Back(t, Some(Big(100))))
            && DatumOf(typ, Back(t, Some(Big(100)))) == Some(N(10_000))
  {
    hide Back, DatumOf, Readable, RowsWritable, Signed, Pow10, Pow256, Factor;
    HundredFits(precision);
    DecimalRow(precision, 2, 100);
    Pow256Values();
    HundredSquared();
  }

  lemma {:induction false} HundredFits(precision: nat)
    requires precision >= 9
    ensures 100 < Pow10(precision)
  {
    Pow10Values();
    Pow10Monotone(9, precision);
  }

  lemma HundredSquared()
    ensures Signed((100 * Factor(2)) % TWO_64, TWO_64) == 10_000
  {
    assert Factor(2) == 100;
    SignedOfMod(10_000, TWO_64);
  }
}
