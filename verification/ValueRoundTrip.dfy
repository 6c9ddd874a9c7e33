/** A row survives fixed-width storage exactly when its value is canonical for the column's type. */
module ValueRoundTrip {
  import opened Numbers
  import opened QuackTypes
  import opened HugeInts
  import opened Uuids
  import opened Decimals
  import opened Vectors

  /** What is read back after the low bytes of the cell's number were stored. */
  function Stored(t: LogicalType, c: Cell): Cell
    requires Physical(t).ConstantSize() && Writable(t, Physical(t), c)
  {
    var p := Physical(t);
    CellFromRaw(t, p, ToRaw(t, p, c) % Pow256(p.ByteWidth()))
  }

  /** The row survives if and only if its value is canonical. */
  lemma StoredCell(t: LogicalType, v: Value)
    requires Physical(t).ConstantSize() && Writable(t, Physical(t), Some(v))
    ensures Stored(t, Some(v)) == Some(v) <==> Canonical(t, v)
  {
    if !NeedsObject(t, Physical(t)) {
      StoredPrimitive(t, v);
    } else if t.id == ENUM {
      StoredEnum(t, v);
    } else if t.id == DECIMAL {
      StoredDecimal(t, v);
    } else if t.id == UUID {
      StoredUuid(t, v);
    } else if t.id in {HUGEINT, UHUGEINT} {
      StoredHuge(t, v);
    } else if t.id == INTERVAL {
      StoredInterval(t, v);
    } else {
      StoredTime(t, v);
    }
  }

  lemma StoredPrimitive(t: LogicalType, v: Value)
    requires Primitive(t) && Writable(t, Physical(t), Some(v))
    ensures Stored(t, Some(v)) == Some(v) <==> Canonical(t, v)
  {
    var p := Physical(t);
    Pow256Values();
    if p.PFloat? {
      StoredFloat(t, v);
    } else if Canonical(t, v) {
      if !p.PBool? && !p.PDouble? {
        SignedOfMod(v.n, TWO_64);
      }
      match p {
        case PInt8 => SignedOfMod(v.n, 0x100);
        case PInt16 => SignedOfMod(v.n, 0x1_0000);
        case PInt32 => SignedOfMod(v.n, TWO_32);
        case PBool | PUint8 => ModUnique(v.n, 0x100, 0, v.n);
        case PUint16 => ModUnique(v.n, 0x1_0000, 0, v.n);
        case PUint32 => ModUnique(v.n, TWO_32, 0, v.n);
        case PDouble => ModUnique(v.n, TWO_64, 0, v.n);
        case _ =>
      }
    }
  }

  /** A single-precision value survives unless it is a signalling NaN, which is made quiet. */
  lemma StoredFloat(t: LogicalType, v: Value)
    requires Primitive(t) && Physical(t).PFloat? && Writable(t, Physical(t), Some(v))
    ensures Stored(t, Some(v)) == Some(v) <==> Canonical(t, v)
  {
    Pow256Values();
    if v.Num? {
      var bits := Requieted(v.n);
      if 0 <= v.n < TWO_32 {
        RequietedBits(v.n);
        ModUnique(bits, TWO_32, 0, bits);
      }
    }
  }

  /** Setting the quiet bit keeps the other bits, and is done at most once. */
  lemma RequietedBits(bits: nat)
    requires bits < TWO_32
    ensures 0 <= Requieted(bits) < TWO_32 && !Signalling(Requieted(bits))
    ensures Requieted(bits) == bits <==> !Signalling(bits)
  {
    if Signalling(bits) {
      var high, low := bits / 0x40_0000, bits % 0x40_0000;
      ModUnique(bits + 0x40_0000, 0x40_0000, high + 1, low);
    }
  }

  lemma StoredEnum(t: LogicalType, v: Value)
    requires Physical(t).ConstantSize() && t.id == ENUM && Writable(t, Physical(t), Some(v))
    ensures Stored(t, Some(v)) == Some(v) <==> Canonical(t, v)
  {
    var index := IndexOf(EnumValues(t), v.text);
    Pow256Values();
    if Physical(t).PUint8? {
      ModUnique(index, 0x100, 0, index);
    } else if Physical(t).PUint16? {
      ModUnique(index, 0x1_0000, 0, index);
    } else if index < TWO_32 {
      ModUnique(index, TWO_32, 0, index);
    } else {
      assert EnumValues(t)[index % TWO_32] != v.text;
    }
  }

  /**
   A DECIMAL survives exactly when it is a fraction in lowest terms with no more decimal places than the scale, whose
   unscaled number fits the storage.
   */
  lemma StoredDecimal(t: LogicalType, v: Value)
    requires Physical(t).ConstantSize() && t.id == DECIMAL && Writable(t, Physical(t), Some(v))
    ensures Stored(t, Some(v)) == Some(v) <==> Canonical(t, v)
  {
    hide Factor, Unscaled, FromUnscaled, Signed, Pow256, OnGrid;
    var x := DecimalRaw(t, Some(v));
    var u := DecimalStorage(t, x);
    if v.Rat? {
      var scale := t.info.value.scale;
      UnscaledOfFraction(u, scale);
      GridIs(v.f, scale);
    }
  }

  lemma DecimalStorage(t: LogicalType, x: int) returns (u: int)
    requires Physical(t).ConstantSize() && t.id == DECIMAL
    ensures var p := Physical(t);
            CellFromRaw(t, p, x % Pow256(p.ByteWidth())) == Some(DecimalFromUnscaled(t, u))
            && StorageRange(p, u) && (u == x <==> StorageRange(p, x))
            && u % Pow256(p.ByteWidth()) == x % Pow256(p.ByteWidth())
            && Pow256(p.ByteWidth()) % 2 == 0
            && u == Signed(x % Pow256(p.ByteWidth()), Pow256(p.ByteWidth()))
  {
    hide Signed, Pow256, CellFromRaw, StorageRange;
    var modulus := Pow256(Physical(t).ByteWidth());
    assert modulus % 2 == 0 by { Pow256Values(); }
    u := Signed(x % modulus, modulus);
    ModEqual(x % modulus, u, modulus);
    ModUnique(x % modulus, modulus, 0, x % modulus);
    DecimalCell(t, x);
    DecimalRange(t, x);
  }

  lemma DecimalCell(t: LogicalType, x: int)
    requires Physical(t).ConstantSize() && t.id == DECIMAL && Pow256(Physical(t).ByteWidth()) % 2 == 0
    ensures var m := Pow256(Physical(t).ByteWidth());
            CellFromRaw(t, Physical(t), x % m) == Some(DecimalFromUnscaled(t, Signed(x % m, m)))
  {
    hide Signed, SignedBig;
    Pow256Values();
    if Physical(t).PInt128? {
      StoredWide(x);
    }
  }

  lemma DecimalRange(t: LogicalType, x: int)
    requires Physical(t).ConstantSize() && t.id == DECIMAL && Pow256(Physical(t).ByteWidth()) % 2 == 0
    ensures var p, m := Physical(t), Pow256(Physical(t).ByteWidth());
            StorageRange(p, Signed(x % m, m)) && (Signed(x % m, m) == x <==> StorageRange(p, x))
  {
    hide Signed;
    Pow256Values();
    StoredSigned(x, Pow256(Physical(t).ByteWidth()));
  }

  lemma StoredSigned(x: int, modulus: int)
    requires modulus > 0 && modulus % 2 == 0
    ensures Signed(x % modulus, modulus) == x <==> -(modulus / 2) <= x < modulus / 2
  {
    if -(modulus / 2) <= x < modulus / 2 {
      SignedOfMod(x, modulus);
    }
  }

  /** Lower half and sign-carrying upper half together are the 128-bit number. */
  lemma StoredWide(x: int)
    ensures var raw := x % TWO_128;
            SignedBig(HugeIntParts(ToInt64(raw / TWO_64), raw % TWO_64)) == Signed(raw, TWO_128)
            && UnsignedBig(HugeIntParts(ToInt64(raw / TWO_64), raw % TWO_64)) == raw
            && (Signed(raw, TWO_128) == x <==> -TWO_127 <= x < TWO_127)
  {
    hide SignedBig, UnsignedBig, ToInt64;
    var raw := x % TWO_128;
    SignedOfParts(x);
    StoredSigned(x, TWO_128);
    assert Signed(raw, TWO_128) == Signed(x, TWO_128) by {
      ModUnique(raw, TWO_128, 0, raw);
    }
  }

  lemma StoredUuid(t: LogicalType, v: Value)
    requires t.id == UUID
    ensures Stored(t, Some(v)) == Some(v) <==> Canonical(t, v)
  {
    hide UuidParts, UuidText, CanonicalUuid;
    StoredParts(t, v);
    if v.Str? {
      UuidTextOfParts(v.text);
    }
  }

  lemma StoredParts(t: LogicalType, v: Value)
    requires t.id == UUID
    ensures Stored(t, Some(v)) == Some(Str(UuidText(if v.Str? then UuidParts(v.text) else ZERO)))
  {
    hide UuidParts, UuidText, Pow256;
    var parts := if v.Str? then UuidParts(v.text) else ZERO;
    Pow256Values();
    RawParts(parts);
  }

  /** The 128-bit residue of the joined halves is cut into the same halves. */
  lemma RawParts(p: HugeIntParts)
    ensures var raw := SignedBig(p) % TWO_128;
            raw >= 0 && HugeIntParts(ToInt64(raw / TWO_64), raw % TWO_64) == p
  {
    PartsOfSigned(p);
  }

  lemma StoredHuge(t: LogicalType, v: Value)
    requires t.id in {HUGEINT, UHUGEINT} && Writable(t, Physical(t), Some(v))
    ensures Stored(t, Some(v)) == Some(v) <==> Canonical(t, v)
  {
    hide SignedBig, UnsignedBig, Signed, Pow256;
    var x := ToRaw(t, Physical(t), Some(v));
    assert Pow256(16) == TWO_128 by { Pow256Values(); }
    StoredWide(x);
    if 0 <= x < TWO_128 {
      ModUnique(x, TWO_128, 0, x);
    }
  }

  lemma IntervalRaw(months: int, days: int, micros: int)
    ensures var raw := (months % TWO_32 + TWO_32 * (days % TWO_32 + TWO_32 * micros)) % TWO_128;
            raw % TWO_32 == months % TWO_32
            && (raw / TWO_32) % TWO_32 == days % TWO_32
            && raw / TWO_64 == micros % TWO_64
  {
    var m, d, u := months % TWO_32, days % TWO_32, micros % TWO_64;
    var x := m + TWO_32 * (d + TWO_32 * micros);
    var raw := m + TWO_32 * (d + TWO_32 * u);
    ModUnique(x, TWO_128, micros / TWO_64, raw);
    ModUnique(raw, TWO_32, d + TWO_32 * u, m);
    ModUnique(d + TWO_32 * u, TWO_32, u, d);
    ModUnique(raw, TWO_64, u, m + TWO_32 * d);
  }

  lemma StoredInterval(t: LogicalType, v: Value)
    requires t.id == INTERVAL
    ensures Stored(t, Some(v)) == Some(v) <==> Canonical(t, v)
  {
    Pow256Values();
    if v.Interval? {
      IntervalRaw(v.months, v.days, v.micros);
      var raw := (v.months % TWO_32 + TWO_32 * (v.days % TWO_32 + TWO_32 * v.micros)) % TWO_128;
      ModSigned(raw, v.months, TWO_32);
      ModSigned(raw / TWO_32, v.days, TWO_32);
      ModSigned(raw / TWO_64, v.micros, TWO_64);
      StoredSigned(v.months, TWO_32);
      StoredSigned(v.days, TWO_32);
      StoredSigned(v.micros, TWO_64);
    }
  }

  lemma ModSigned(a: int, b: int, modulus: int)
    requires modulus > 0 && modulus % 2 == 0 && a % modulus == b % modulus
    ensures Signed(a, modulus) == Signed(b % modulus, modulus)
  {
    ModUnique(b % modulus, modulus, 0, b % modulus);
  }

  /** A time survives exactly when the type's unit and range hold it; TIME_TZ stays a number. */
  lemma StoredTime(t: LogicalType, v: Value)
    requires Physical(t).ConstantSize() && Writable(t, Physical(t), Some(v)) && NeedsObject(t, Physical(t))
    requires t.id !in {ENUM, DECIMAL, UUID, HUGEINT, UHUGEINT, INTERVAL}
    ensures Stored(t, Some(v)) == Some(v) <==> Canonical(t, v)
  {
    if t.id == DATE {
      StoredDate(t, v);
    } else if t.id in {TIME, TIME_NS} {
      StoredTimeOfDay(t, v);
    } else if TimeLike(t.id) {
      StoredTimestamp(t, v);
    } else {
      Pow256Values();
      if v.Num? && -TWO_63 <= v.n < TWO_63 {
        SignedOfMod(v.n, TWO_64);
      }
    }
  }

  /** Days are kept up to 106,751 days from the epoch, where the 64-bit duration between two instants ends. */
  lemma StoredDate(t: LogicalType, v: Value)
    requires t.id == DATE && Writable(t, Physical(t), Some(v))
    ensures Stored(t, Some(v)) == Some(v) <==> Canonical(t, v)
  {
    Pow256Values();
    if v.Instant? {
      var days := EpochDays(v.ns);
      DaysInRange(v.ns);
      SignedOfMod(days, TWO_32);
      if v.ns % DAY == 0 && -TWO_63 <= v.ns < TWO_63 {
        QuoExact(v.ns / DAY, DAY);
      }
    }
  }

  lemma DaysInRange(ns: int)
    ensures -106_751 <= EpochDays(ns) <= 106_751
  {
  }

  lemma StoredTimeOfDay(t: LogicalType, v: Value)
    requires t.id in {TIME, TIME_NS} && Writable(t, Physical(t), Some(v))
    ensures Stored(t, Some(v)) == Some(v) <==> Canonical(t, v)
  {
    hide ToInt64, Pow256;
    assert Pow256(8) == TWO_64 by { Pow256Values(); }
    if v.Instant? {
      var raw := InstantRaw(t.id, v.ns);
      DayUnits(v.ns, Unit(t.id));
      SmallDuration(raw, Unit(t.id));
      ModUnique(raw, TWO_64, 0, raw);
    }
  }

  /** A time of day in whole units is the instant itself exactly for whole units within the first day. */
  lemma DayUnits(ns: int, unit: int)
    requires unit == 1 || unit == MICROSECOND
    ensures var raw := ns % DAY / unit;
            0 <= raw && raw * unit < DAY && (raw * unit == ns <==> ns % unit == 0 && 0 <= ns < DAY)
  {
    if 0 <= ns < DAY {
      ModUnique(ns, DAY, 0, ns);
    }
  }

  lemma SmallDuration(raw: nat, unit: int)
    requires unit > 0 && raw * unit < DAY
    ensures raw < TWO_63 && ToInt64(raw) == raw && ToInt64(raw * unit) == raw * unit
  {
    MulGe(unit, 1);
    if raw > 0 {
      MulGe(raw, unit);
    }
    SignedOfMod(raw, TWO_64);
    SignedOfMod(raw * unit, TWO_64);
  }

  lemma StoredTimestamp(t: LogicalType, v: Value)
    requires TimeLike(t.id) && t.id !in {TIME, TIME_NS} && Writable(t, Physical(t), Some(v))
    ensures Stored(t, Some(v)) == Some(v) <==> Canonical(t, v)
  {
    hide Unit, ToInt64;
    assert Pow256(8) == TWO_64 by { Pow256Values(); }
    if v.Instant? {
      StoredInt64(ToInt64(v.ns / Unit(t.id)));
      WholeUnits(v.ns, Unit(t.id));
    } else {
      StoredInt64(IntOf(Some(v)));
    }
  }

  lemma WholeUnits(ns: int, unit: int)
    requires unit > 0
    ensures ToInt64(ns / unit) * unit == ns <==> ns % unit == 0 && -TWO_63 <= ns / unit < TWO_63
  {
    hide ToInt64;
    var units, raw := ns / unit, ToInt64(ns / unit);
    if -TWO_63 <= units < TWO_63 {
      assert raw == units by {
        SignedOfMod(units, TWO_64);
        assert ToInt64(units) == Signed(units, TWO_64);
      }
      assert ns == unit * units + ns % unit;
    } else if ns == raw * unit {
      ModUnique(ns, unit, raw, 0);
    }
  }

  lemma StoredInt64(raw: Int64)
    ensures ToInt64(raw % TWO_64) == raw
  {
    SignedOfMod(raw, TWO_64);
  }

  /** For DECIMAL(w, s) with w up to 38, every unscaled value of at most w digits is canonical, so it survives. */
  lemma {:induction false} DecimalSurvives(width: nat, scale: Int64, alias: Text, v: int)
    requires width <= 38 && -Pow10(width) < v < Pow10(width)
    ensures var t := LogicalType(DECIMAL, Some(DecimalInfo(width, scale, alias)));
            var d := DecimalFromUnscaled(t, v);
            Physical(t).ConstantSize() && Canonical(t, d) && DecimalRaw(t, Some(d)) == v
            && Writable(t, Physical(t), Some(d)) && Stored(t, Some(d)) == Some(d)
  {
    hide Factor, OnGrid, Unscaled, FromUnscaled, Pow10, Pow256, Stored, Gcd;
    var t := LogicalType(DECIMAL, Some(DecimalInfo(width, scale, alias)));
    var f := FromUnscaled(v, scale);
    UnscaledOfFraction(v, scale);
    GridIs(f, scale);
    WidthFits(width, v);
    StoredDecimal(t, Rat(f));
  }
}
