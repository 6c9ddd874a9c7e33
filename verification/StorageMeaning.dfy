/** What stored numbers stand for, type by type: the width of each type, and the value that each number is. */
module StorageMeaning {
  import opened Numbers
  import opened QuackTypes
  import opened HugeInts
  import opened Uuids
  import opened Decimals
  import opened Vectors
  import opened ValueRoundTrip
  import opened RawRoundTrip

  /** A column of the type has cells of that many bytes, and the number is read as the cell. */
  predicate Reads(t: LogicalType, width: nat, raw: nat, c: Cell) {
    Physical(t).ConstantSize() && Physical(t).ByteWidth() == width && CellFromRaw(t, Physical(t), raw) == c
  }

  function Plain(id: Int64): LogicalType {
    LogicalType(id, None)
  }

  // ---- integers and floats ----

  /** Signed integers are two's complements of their width, and keep their own Go type. */
  lemma SignedIntegers(v: int)
    ensures -0x80 <= v < 0x80 ==> Reads(Plain(TINYINT), 1, v % 0x100, Some(Num(KInt8, v)))
    ensures -0x8000 <= v < 0x8000 ==> Reads(Plain(SMALLINT), 2, v % 0x1_0000, Some(Num(KInt16, v)))
    ensures -0x8000_0000 <= v < 0x8000_0000 ==> Reads(Plain(INTEGER), 4, v % 0x1_0000_0000, Some(Num(KInt32, v)))
    ensures -0x8000_0000_0000_0000 <= v < 0x8000_0000_0000_0000 ==>
              Reads(Plain(BIGINT), 8, v % 0x1_0000_0000_0000_0000, Some(Num(KInt64, v)))
    ensures -0x8000_0000 <= v < 0x8000_0000 ==> Reads(Plain(SQL_NULL), 4, v % 0x1_0000_0000, Some(Num(KInt32, v)))
  {
    if -0x80 <= v < 0x80 {
      SignedOfMod(v, 0x100);
    }
    if -0x8000 <= v < 0x8000 {
      SignedOfMod(v, 0x1_0000);
    }
    if -TWO_31 <= v < TWO_31 {
      SignedOfMod(v, TWO_32);
    }
    if -TWO_63 <= v < TWO_63 {
      SignedOfMod(v, TWO_64);
    }
  }

  /** Unsigned integers are promoted to the next Go type; UBIGINT is reinterpreted, and its upper half is negative. */
  lemma UnsignedIntegers(v: nat)
    ensures v < 0x100 ==> Reads(Plain(UTINYINT), 1, v, Some(Num(KInt16, v)))
    ensures v < 0x1_0000 ==> Reads(Plain(USMALLINT), 2, v, Some(Num(KInt32, v)))
    ensures v < 0x1_0000_0000 ==> Reads(Plain(UINTEGER), 4, v, Some(Num(KInt64, v)))
    ensures v < 0x8000_0000_0000_0000 ==> Reads(Plain(UBIGINT), 8, v, Some(Num(KInt64, v)))
    ensures v < 0x8000_0000_0000_0000 ==> Reads(Plain(ADDRESS), 8, v, Some(Num(KInt64, v)))
    ensures 0x8000_0000_0000_0000 <= v < 0x1_0000_0000_0000_0000 ==>
              Reads(Plain(UBIGINT), 8, v, Some(Num(KInt64, v - 0x1_0000_0000_0000_0000)))
  {
  }

  /** A byte other than zero is true; floats are kept as their bits. */
  lemma BoolsAndFloats(bits: nat)
    ensures bits < 0x100 ==> Reads(Plain(BOOLEAN), 1, bits, Some(Num(KBool, if bits == 0 then 0 else 1)))
    ensures bits < 0x1_0000_0000 ==> Reads(Plain(FLOAT), 4, bits, Some(Num(KFloat32, bits)))
    ensures bits < 0x1_0000_0000_0000_0000 ==> Reads(Plain(DOUBLE), 8, bits, Some(Num(KFloat64, bits)))
  {
  }

  /** 128-bit integers, signed and not. */
  lemma HugeIntegers(v: int)
    ensures -TWO_127 <= v < TWO_127 ==> Reads(Plain(HUGEINT), 16, v % TWO_128, Some(Big(v)))
    ensures 0 <= v < TWO_128 ==> Reads(Plain(UHUGEINT), 16, v, Some(Big(v)))
  {
    hide SignedBig, UnsignedBig, ToInt64, Signed;
    StoredWide(v);
    if 0 <= v < TWO_128 {
      ModUnique(v, TWO_128, 0, v);
    }
  }

  // ---- times ----

  /** The same second in every unit; TIMESTAMP and TIMESTAMP_TZ count microseconds. */
  lemma Timestamps(v: int)
    requires -0x8000_0000_0000_0000 <= 1_000_000_000 * v < 0x8000_0000_0000_0000
    ensures var instant := Some(Instant(1_000_000_000 * v));
            Reads(Plain(TIMESTAMP_SEC), 8, v % TWO_64, instant)
            && Reads(Plain(TIMESTAMP_MS), 8, (1_000 * v) % TWO_64, instant)
            && Reads(Plain(TIMESTAMP), 8, (1_000_000 * v) % TWO_64, instant)
            && Reads(Plain(TIMESTAMP_TZ), 8, (1_000_000 * v) % TWO_64, instant)
            && Reads(Plain(TIMESTAMP_NS), 8, (1_000_000_000 * v) % TWO_64, instant)
  {
    SignedOfMod(v, TWO_64);
    SignedOfMod(1_000 * v, TWO_64);
    SignedOfMod(1_000_000 * v, TWO_64);
    SignedOfMod(1_000_000_000 * v, TWO_64);
  }

  /** Every stored number is an instant: so many nanoseconds, microseconds, milliseconds or seconds. */
  lemma Instants(v: int)
    requires -0x8000_0000_0000_0000 <= v < 0x8000_0000_0000_0000
    ensures Reads(Plain(TIMESTAMP_NS), 8, v % TWO_64, Some(Instant(v)))
    ensures Reads(Plain(TIMESTAMP), 8, v % TWO_64, Some(Instant(1_000 * v)))
    ensures Reads(Plain(TIMESTAMP_TZ), 8, v % TWO_64, Some(Instant(1_000 * v)))
    ensures Reads(Plain(TIMESTAMP_MS), 8, v % TWO_64, Some(Instant(1_000_000 * v)))
    ensures Reads(Plain(TIMESTAMP_SEC), 8, v % TWO_64, Some(Instant(1_000_000_000 * v)))
    ensures Reads(Plain(TIME_TZ), 8, v % TWO_64, Some(Num(KInt64, v)))
    ensures Reads(Plain(TIME_NS), 8, v % TWO_64, Some(Instant(v)))
    ensures Reads(Plain(TIME), 8, v % TWO_64, Some(Instant(Signed(1_000 * v, 0x1_0000_0000_0000_0000))))
  {
    SignedOfMod(v, TWO_64);
  }

  /** A TIME in microseconds is the TIME_NS of a thousand times the number. */
  lemma TimesOfDay(v: nat)
    requires v < 24 * 3_600 * 1_000_000
    ensures Reads(Plain(TIME), 8, v, Some(Instant(1_000 * v)))
    ensures Reads(Plain(TIME_NS), 8, 1_000 * v, Some(Instant(1_000 * v)))
  {
    SignedOfMod(1_000 * v, TWO_64);
  }

  /** A DATE counts days, each of 86,400 seconds. */
  lemma Dates(d: int)
    requires -0x8000_0000 <= d < 0x8000_0000
    ensures Reads(Plain(DATE), 4, d % TWO_32, Some(Instant(86_400 * 1_000_000_000 * d)))
    ensures Reads(Plain(TIMESTAMP_SEC), 8, (86_400 * d) % TWO_64, Some(Instant(86_400 * 1_000_000_000 * d)))
  {
    SignedOfMod(d, TWO_32);
    SignedOfMod(86_400 * d, TWO_64);
  }

  /** Months and days in the two lower words, microseconds in the upper half. */
  lemma Intervals(months: int, days: int, micros: int)
    requires -0x8000_0000 <= months < 0x8000_0000 && -0x8000_0000 <= days < 0x8000_0000
    requires -TWO_63 <= micros < TWO_63
    ensures var raw := months % TWO_32 + 0x1_0000_0000 * (days % TWO_32) + 0x1_0000_0000_0000_0000 * (micros % TWO_64);
            raw >= 0 && Reads(Plain(INTERVAL), 16, raw, Some(Interval(months, days, micros)))
  {
    hide Signed, ToInt64;
    var m, d, u := months % TWO_32, days % TWO_32, micros % TWO_64;
    var raw := m + TWO_32 * d + TWO_64 * u;
    ModUnique(raw, TWO_32, d + TWO_32 * u, m);
    ModUnique(d + TWO_32 * u, TWO_32, u, d);
    ModUnique(raw, TWO_64, u, m + TWO_32 * d);
    IntervalWords(raw, months, days, micros);
  }

  lemma IntervalWords(raw: nat, months: int, days: int, micros: int)
    requires -TWO_31 <= months < TWO_31 && -TWO_31 <= days < TWO_31 && -TWO_63 <= micros < TWO_63
    requires raw % TWO_32 == months % TWO_32 && raw / TWO_32 % TWO_32 == days % TWO_32
    requires raw / TWO_64 == micros % TWO_64
    ensures Signed(raw, TWO_32) == months && Signed(raw / TWO_32, TWO_32) == days && ToInt64(raw / TWO_64) == micros
  {
    SignedOfMod(months, TWO_32);
    SignedOfMod(days, TWO_32);
    SignedOfMod(micros, TWO_64);
  }

  // ---- decimals, identifiers and enumerations ----

  /** The bytes that a DECIMAL of so many digits takes. */
  function DecimalBytes(width: nat): nat {
    if width <= 4 then 2 else if width <= 9 then 4 else if width <= 18 then 8 else 16
  }

  /** A DECIMAL of scale s is its stored number divided by 10^s, as a fraction in lowest terms. */
  lemma {:induction false} DecimalNumbers(width: nat, scale: Int64, alias: Text, v: int)
    requires width <= 38 && scale >= 0 && -Pow10(width) < v < Pow10(width)
    ensures var t := LogicalType(DECIMAL, Some(DecimalInfo(width, scale, alias)));
            var m := Pow256(DecimalBytes(width));
            var f := FromUnscaled(v, scale);
            Reads(t, DecimalBytes(width), v % m, Some(Rat(f)))
            && f.den > 0 && f.num * Pow10(scale) == v * f.den && Gcd(Abs(f.num), f.den) == 1
  {
    hide Pow10, Pow256, Signed, Gcd, MakeFraction, Unscaled;
    var t := LogicalType(DECIMAL, Some(DecimalInfo(width, scale, alias)));
    WidthFits(width, v);
    var u := DecimalStorage(t, v);
    TenToScale(scale);
    Reduced(v, Factor(scale));
    MakeFractionIsLowest(v, Factor(scale));
  }

  lemma {:induction false} TenToScale(scale: Int64)
    requires scale >= 0
    ensures Factor(scale) == Pow10(scale)
  {
  }

  /** A DECIMAL takes the narrowest of 2, 4, 8 and 16 bytes that holds every number of its digits. */
  lemma {:induction false} DecimalWidths(width: nat, scale: Int64, alias: Text)
    requires width <= 38
    ensures var p := Physical(LogicalType(DECIMAL, Some(DecimalInfo(width, scale, alias))));
            p.ConstantSize() && p.ByteWidth() in {2, 4, 8, 16}
            && 2 * (Pow10(width) - 1) < Pow256(p.ByteWidth())
            && forall n | n in {2, 4, 8} && n < p.ByteWidth() :: 2 * (Pow10(width) - 1) >= Pow256(n)
  {
    hide Pow10, Pow256;
    Pow10Values();
    Pow256Values();
    WidthFits(width, Pow10(width) - 1);
    NextPowers();
    if width > 4 { Pow10Monotone(5, width); }
    if width > 9 { Pow10Monotone(10, width); }
    if width > 18 { Pow10Monotone(19, width); }
  }

  lemma NextPowers()
    ensures Pow10(5) == 100_000 && Pow10(10) == 10_000_000_000 && Pow10(19) == 10_000_000_000_000_000_000
  {
    Pow10Values();
    Pow10Add(9, 9);
    assert Pow10(5) == 10 * Pow10(4) && Pow10(10) == 10 * Pow10(9) && Pow10(19) == 10 * Pow10(18);
  }

  /** More than 38 digits have no storage. */
  lemma TooWide(width: Int64, scale: Int64, alias: Text)
    requires width > 38
    ensures !Physical(LogicalType(DECIMAL, Some(DecimalInfo(width, scale, alias)))).ConstantSize()
  {
  }

  /** An ENUM of n values takes the narrowest of 1, 2 and 4 bytes that holds the number n, and at most four. */
  lemma EnumWidths(values: Slice<Text>, alias: Text)
    ensures var p := Physical(LogicalType(ENUM, Some(EnumInfo(values, alias))));
            p.ConstantSize() && p.ByteWidth() in {1, 2, 4}
            && (|values| < 0x1_0000_0000 ==> |values| < Pow256(p.ByteWidth()))
            && forall n | n in {1, 2} && n < p.ByteWidth() :: |values| >= Pow256(n)
  {
    Pow256Values();
  }

  /** A stored position is the text at that place. */
  lemma EnumPositions(values: Slice<Text>, alias: Text, i: nat)
    requires i < |values| && i < 0x8000_0000
    ensures var t := LogicalType(ENUM, Some(EnumInfo(values, alias)));
            Reads(t, Physical(t).ByteWidth(), i, Some(Str(values[i])))
  {
  }

  /** A position without a text is read as a number. */
  lemma EnumOutOfRange(values: Slice<Text>, alias: Text, i: nat)
    requires |values| <= i < 0x8000_0000
    ensures var t := LogicalType(ENUM, Some(EnumInfo(values, alias)));
            Reads(t, Physical(t).ByteWidth(), i, Some(Num(KInt, i)))
  {
  }

  /** The hexadecimal digits of a UUID are the stored number with its top bit turned over. */
  lemma Identifiers(id: nat)
    requires id < TWO_128
    ensures var raw := (id + TWO_127) % TWO_128;
            exists text :: Reads(Plain(UUID), 16, raw, Some(Str(text))) && CanonicalUuid(text)
                           && HexNumber(UuidDigits(text)) == id
  {
    hide UuidText, CanonicalUuid, HexNumber, Signed, ToInt64;
    var raw := (id + TWO_127) % TWO_128;
    var parts := HugeIntParts(ToInt64(raw / TWO_64), raw % TWO_64);
    UuidTextCanonical(parts);
    UuidNumber(parts);
    TurnedOver(id, raw, parts);
    assert Reads(Plain(UUID), 16, raw, Some(Str(UuidText(parts))));
  }

  /** Base 16, digits and letters of either case. */
  function HexNumber(s: Bytes): int {
    if s == [] then 0
    else
      var c: int := s[|s| - 1];
      16 * HexNumber(s[..|s| - 1]) + (if c <= 0x39 then c - 0x30 else if c <= 0x46 then c - 0x37 else c - 0x57)
  }

  lemma {:induction false} HexNumberOf(n: nat, v: nat)
    requires v < Pow2(4 * n)
    ensures HexNumber(Hex(n, v)) == v
  {
    if n > 0 {
      assert Pow2(4 * n) == 16 * Pow2(4 * (n - 1)) by { Pow2Add(4, 4 * (n - 1)); Pow2Values(); }
      HexNumberOf(n - 1, v / 16);
      var s := Hex(n, v);
      assert s[..n - 1] == Hex(n - 1, v / 16);
    }
  }

  lemma {:induction false} HexNumberJoin(a: Bytes, b: Bytes)
    ensures HexNumber(a + b) == Pow2(4 * |b|) * HexNumber(a) + HexNumber(b)
    decreases |b|
  {
    if b == [] {
      assert a + b == a;
    } else {
      var n := |b| - 1;
      HexNumberJoin(a, b[..n]);
      assert (a + b)[..|a + b| - 1] == a + b[..n];
      assert Pow2(4 * |b|) == 16 * Pow2(4 * n) by { Pow2Add(4, 4 * n); Pow2Values(); }
      Regroup(16, Pow2(4 * n), HexNumber(a));
    }
  }

  lemma UuidNumber(p: HugeIntParts)
    ensures HexNumber(UuidDigits(UuidText(p))) == TWO_64 * (p.upper + TWO_63) + p.lower
  {
    hide Hex, HexNumber, Dashed, UuidDigits, Pow2;
    var high, low := Hex(HALF, p.upper + TWO_63), Hex(HALF, p.lower);
    Pow2Values();
    DigitsOfDashed(high + low);
    HexNumberJoin(high, low);
    HexNumberOf(HALF, p.upper + TWO_63);
    HexNumberOf(HALF, p.lower);
  }

  lemma TurnedOver(id: nat, raw: nat, p: HugeIntParts)
    requires id < TWO_128 && raw == (id + TWO_127) % TWO_128
    requires p == HugeIntParts(ToInt64(raw / TWO_64), raw % TWO_64)
    ensures TWO_64 * (p.upper + TWO_63) + p.lower == id
  {
    if id >= TWO_127 {
      ModUnique(id + TWO_127, TWO_128, 1, id - TWO_127);
      SignedOfMod(raw / TWO_64, TWO_64);
    } else {
      ModUnique(id + TWO_127, TWO_128, 0, id + TWO_127);
      SignedOfMod(raw / TWO_64 - TWO_64, TWO_64);
      ModUnique(raw / TWO_64 - TWO_64, TWO_64, -1, raw / TWO_64);
    }
  }

  // ---- type numbers ----

  /** The numbers by which the types are known on the wire. */
  lemma TypeNumbers()
    ensures SQL_NULL == 1 && BOOLEAN == 10 && TINYINT == 11 && SMALLINT == 12 && INTEGER == 13 && BIGINT == 14
    ensures DATE == 15 && TIME == 16 && TIMESTAMP_SEC == 17 && TIMESTAMP_MS == 18 && TIMESTAMP == 19
    ensures TIMESTAMP_NS == 20 && DECIMAL == 21 && FLOAT == 22 && DOUBLE == 23 && CHAR == 24 && VARCHAR == 25
    ensures BLOB == 26 && INTERVAL == 27 && UTINYINT == 28 && USMALLINT == 29 && UINTEGER == 30 && UBIGINT == 31
    ensures TIMESTAMP_TZ == 32 && TIME_TZ == 34 && TIME_NS == 35 && BIT == 36 && BIGNUM == 39 && UHUGEINT == 49
    ensures HUGEINT == 50 && ADDRESS == 51 && VALIDITY == 53 && UUID == 54 && GEOMETRY == 60 && STRUCT == 100
    ensures LIST == 101 && MAP == 102 && ENUM == 104 && AGGREGATE_STATE == 105 && UNION == 107 && ARRAY == 108
    ensures VARIANT == 109 && TYPE == 6
  {
  }

  /** The types without a fixed width: texts, structs, lists and arrays. */
  lemma OtherStorage(t: LogicalType)
    ensures Physical(t).PVarchar? <==> t.id in {6, 24, 25, 26, 36, 39, 60, 105}
    ensures Physical(t).PStruct? <==> t.id in {100, 107, 109}
    ensures Physical(t).PList? <==> t.id in {101, 102}
    ensures Physical(t).PArray? <==> t.id == 108
  {
  }
}
