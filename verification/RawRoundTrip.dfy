/** The other way around: a stored number, read as a value, is written back as the same number. */
module RawRoundTrip {
  import opened Numbers
  import opened QuackTypes
  import opened HugeInts
  import opened Uuids
  import opened Decimals
  import opened Vectors
  import opened ValueRoundTrip

  /**
   The number is one that writing produces: a bool is 0 or 1, a NaN is quiet, an ENUM index is the first of its text, a
   DATE lies within a 64-bit duration of the epoch and a TIME within one day.
   */
  predicate Holdable(t: LogicalType, raw: nat) {
    if t.id == BOOLEAN then raw <= 1
    else if t.id == FLOAT then !Signalling(raw)
    else if t.id == ENUM then
      raw < |EnumValues(t)| && raw < TWO_31 && IndexOf(EnumValues(t), EnumValues(t)[raw]) == raw
    else if t.id == DATE then -106_751 <= Signed(raw, TWO_32) <= 106_751
    else if t.id in {TIME, TIME_NS} then raw * Unit(t.id) < DAY
    else true
  }

  /** What is written for the value that was read. */
  predicate Rewritten(t: LogicalType, raw: nat)
    requires Physical(t).ConstantSize()
  {
    var p := Physical(t);
    var c := CellFromRaw(t, p, raw);
    Writable(t, p, c) && ToRaw(t, p, c) % Pow256(p.ByteWidth()) == raw
  }

  /** For every type of fixed width, and every number its storage holds; of an ENUM only one direction is claimed. */
  lemma RawSurvives(t: LogicalType, raw: nat)
    requires Physical(t).ConstantSize() && raw < Pow256(Physical(t).ByteWidth())
    ensures Holdable(t, raw) ==> Rewritten(t, raw) && CanonicalRaw(t, raw)
    ensures t.id != ENUM && Rewritten(t, raw) ==> Holdable(t, raw)
  {
    hide Holdable, Rewritten, CanonicalRaw, Canonical, Pow256;
    if t.id == ENUM {
      EnumRewritten(t, raw);
    } else if !NeedsObject(t, Physical(t)) {
      PrimitiveRewritten(t, raw);
    } else if t.id == DECIMAL {
      DecimalRewritten(t, raw);
    } else if t.id in {UUID, HUGEINT, UHUGEINT} {
      assert Pow256(16) == TWO_128 by { Pow256Values(); }
      WideRewritten(t, raw);
    } else if t.id == INTERVAL {
      assert Pow256(16) == TWO_128 by { Pow256Values(); }
      IntervalRewritten(t, raw);
    } else if t.id == DATE {
      assert Pow256(4) == TWO_32 by { Pow256Values(); }
      DateRewritten(t, raw);
    } else {
      assert Pow256(8) == TWO_64 by { Pow256Values(); }
      TimeRewritten(t, raw);
    }
  }

  predicate CanonicalRaw(t: LogicalType, raw: nat)
    requires Physical(t).ConstantSize()
  {
    var c := CellFromRaw(t, Physical(t), raw);
    c.Some? && Canonical(t, c.value)
  }

  lemma EnumRewritten(t: LogicalType, raw: nat)
    requires t.id == ENUM && Physical(t).ConstantSize() && raw < Pow256(Physical(t).ByteWidth())
    ensures Holdable(t, raw) ==> Rewritten(t, raw) && CanonicalRaw(t, raw)
  {
    ModUnique(raw, Pow256(Physical(t).ByteWidth()), 0, raw);
  }

  lemma PrimitiveRewritten(t: LogicalType, raw: nat)
    requires Primitive(t) && raw < Pow256(Physical(t).ByteWidth())
    ensures Holdable(t, raw) <==> Rewritten(t, raw)
    ensures Holdable(t, raw) ==> CanonicalRaw(t, raw)
  {
    hide Signed, Pow256;
    var p := Physical(t);
    var m := Pow256(p.ByteWidth());
    Pow256Values();
    ModUnique(raw, m, 0, raw);
    match p {
      case PBool | PDouble =>
      case PFloat =>
        RequietedBits(raw);
        ModUnique(Requieted(raw), m, 0, Requieted(raw));
      case _ =>
        var n := PrimFromRaw(p, raw);
        PrimCongruent(p, raw);
        SignedOfMod(n, TWO_64);
        ModEqual(raw, n, m);
    }
  }

  lemma PrimCongruent(p: PhysicalType, raw: nat)
    requires p.PInt8? || p.PUint8? || p.PInt16? || p.PUint16? || p.PInt32? || p.PUint32? || p.PInt64? || p.PUint64?
    requires raw < Pow256(p.ByteWidth())
    ensures var n := PrimFromRaw(p, raw);
            -TWO_63 <= n < TWO_63 && PrimRange(p, n) && (raw - n) % Pow256(p.ByteWidth()) == 0
  {
    hide Signed, ToInt64, Pow256;
    Pow256Values();
  }

  lemma DecimalRewritten(t: LogicalType, raw: nat)
    requires t.id == DECIMAL && Physical(t).ConstantSize() && raw < Pow256(Physical(t).ByteWidth())
    ensures Holdable(t, raw) && Rewritten(t, raw) && CanonicalRaw(t, raw)
  {
    hide Factor, Unscaled, FromUnscaled, Signed, Pow256, OnGrid;
    var p, scale := Physical(t), t.info.value.scale;
    var u := DecimalStorage(t, raw);
    ModUnique(raw, Pow256(p.ByteWidth()), 0, raw);
    UnscaledOfFraction(u, scale);
    GridIs(FromUnscaled(u, scale), scale);
  }

  lemma WideRewritten(t: LogicalType, raw: nat)
    requires t.id in {UUID, HUGEINT, UHUGEINT} && raw < TWO_128
    ensures Holdable(t, raw) && Rewritten(t, raw) && CanonicalRaw(t, raw)
  {
    hide UuidParts, UuidText, CanonicalUuid, Signed, Pow256;
    assert Pow256(16) == TWO_128 by { Pow256Values(); }
    var parts := HugeIntParts(ToInt64(raw / TWO_64), raw % TWO_64);
    ModUnique(raw, TWO_128, 0, raw);
    HalvesOfRaw(raw);
    if t.id == UUID {
      UuidPartsOfText(parts);
      UuidTextCanonical(parts);
    }
  }

  lemma HalvesOfRaw(raw: nat)
    requires raw < TWO_128
    ensures var parts := HugeIntParts(ToInt64(raw / TWO_64), raw % TWO_64);
            UnsignedBig(parts) == raw && SignedBig(parts) % TWO_128 == raw && -TWO_127 <= SignedBig(parts) < TWO_127
  {
    var upper := raw / TWO_64;
    var parts := HugeIntParts(ToInt64(upper), raw % TWO_64);
    ModEqual(ToInt64(upper), upper, TWO_64);
    ModUnique(upper, TWO_64, 0, upper);
    PartsOfSigned(parts);
  }

  lemma IntervalRewritten(t: LogicalType, raw: nat)
    requires t.id == INTERVAL && raw < TWO_128
    ensures Holdable(t, raw) && Rewritten(t, raw) && CanonicalRaw(t, raw)
  {
    hide Signed, ToInt64, Pow256;
    assert Pow256(16) == TWO_128 by { Pow256Values(); }
    IntervalParts(raw);
  }

  lemma IntervalParts(raw: nat)
    requires raw < TWO_128
    ensures var months, days, micros := Signed(raw, TWO_32), Signed(raw / TWO_32, TWO_32), ToInt64(raw / TWO_64);
            (months % TWO_32 + TWO_32 * (days % TWO_32 + TWO_32 * micros)) % TWO_128 == raw
  {
    hide Signed, ToInt64;
    var upper, high := raw / TWO_32, raw / TWO_64;
    var months, days, micros := Signed(raw, TWO_32), Signed(upper, TWO_32), ToInt64(high);
    ModEqual(raw, months, TWO_32);
    ModEqual(upper, days, TWO_32);
    JoinParts(raw, (high - micros) / TWO_64, micros);
  }

  lemma JoinParts(raw: nat, k: int, micros: int)
    requires raw < TWO_128 && raw / TWO_64 - micros == TWO_64 * k
    ensures (raw % TWO_32 + TWO_32 * (raw / TWO_32 % TWO_32 + TWO_32 * micros)) % TWO_128 == raw
  {
    var upper := raw / TWO_32;
    assert upper / TWO_32 == raw / TWO_64;
    var written := raw % TWO_32 + TWO_32 * (upper % TWO_32 + TWO_32 * micros);
    assert raw == raw % TWO_32 + TWO_32 * (upper % TWO_32 + TWO_32 * (upper / TWO_32));
    assert written == TWO_128 * -k + raw;
    ModUnique(written, TWO_128, -k, raw);
  }

  lemma DateRewritten(t: LogicalType, raw: nat)
    requires t.id == DATE && raw < TWO_32
    ensures Holdable(t, raw) <==> Rewritten(t, raw)
    ensures Holdable(t, raw) ==> CanonicalRaw(t, raw)
  {
    hide Signed, EpochDays, Pow256;
    assert Pow256(4) == TWO_32 by { Pow256Values(); }
    var days := Signed(raw, TWO_32);
    SameDay(raw, days);
    ModUnique(days * DAY, DAY, days, 0);
    ModUnique(days * DAY, HOUR, days * 24, 0);
  }

  lemma SameDay(raw: nat, days: int)
    requires raw < TWO_32 && days == Signed(raw, TWO_32)
    ensures EpochDays(days * DAY) % TWO_32 == raw <==> -106_751 <= days <= 106_751
    ensures -106_751 <= days <= 106_751 ==> -TWO_63 <= days * DAY < TWO_63
  {
    var written := EpochDays(days * DAY);
    DaysInRange(days * DAY);
    ModEqual(raw, days, TWO_32);
    ModUnique(raw, TWO_32, 0, raw);
    SignedOfMod(written, TWO_32);
    if -106_751 <= days <= 106_751 {
      QuoExact(days, DAY);
    }
  }

  lemma TimeRewritten(t: LogicalType, raw: nat)
    requires TimeLike(t.id) || t.id == TIME_TZ
    requires raw < TWO_64
    ensures Holdable(t, raw) <==> Rewritten(t, raw)
    ensures Holdable(t, raw) ==> CanonicalRaw(t, raw)
  {
    assert Pow256(8) == TWO_64 by { Pow256Values(); }
    var v := ToInt64(raw);
    ModEqual(raw, v, TWO_64);
    ModUnique(raw, TWO_64, 0, raw);
    if t.id in {TIME, TIME_NS} {
      TimeOfDayRewritten(t, raw);
    } else {
      SignedOfMod(v, TWO_64);
      if TimeLike(t.id) {
        ModUnique(v * Unit(t.id), Unit(t.id), v, 0);
      }
    }
  }

  lemma TimeOfDayRewritten(t: LogicalType, raw: nat)
    requires t.id in {TIME, TIME_NS} && raw < TWO_64
    ensures Holdable(t, raw) <==> Rewritten(t, raw)
    ensures Holdable(t, raw) ==> CanonicalRaw(t, raw)
  {
    hide ToInt64, Pow256;
    assert Pow256(8) == TWO_64 by { Pow256Values(); }
    var unit := Unit(t.id);
    var ns := InstantOf(t.id, ToInt64(raw)).ns;
    var written := InstantRaw(t.id, ns);
    assert 0 <= written && written * unit < DAY;
    ModUnique(written, TWO_64, 0, written);
    if raw * unit < DAY {
      SmallDuration(raw, unit);
      ModUnique(raw * unit, DAY, 0, raw * unit);
      ModUnique(raw * unit, unit, raw, 0);
    }
  }

  // ---- the numbers that writing produces ----

  /**
   The row is written as a number that is written again for the value it is read as. Only numbers given for a DATE or a
   TIME can fail to be, since they are stored unchecked, and ENUM positions from 2^31 on, which are read as numbers.
   */
  predicate Steady(t: LogicalType, c: Cell) {
    c.Some? ==>
      if t.id == ENUM then
        c.value.Str? && c.value.text in EnumValues(t) && IndexOf(EnumValues(t), c.value.text) < TWO_31
      else if t.id == DATE then c.value.Instant? || -106_751 <= Signed(IntOf(c), TWO_32) <= 106_751
      else if t.id in {TIME, TIME_NS} then c.value.Instant? || 0 <= IntOf(c) * Unit(t.id) < DAY
      else true
  }

  lemma CanonicalIsSteady(t: LogicalType, v: Value)
    requires Physical(t).ConstantSize() && Canonical(t, v)
    ensures Steady(t, Some(v))
  {
  }

  lemma WrittenIsHoldable(t: LogicalType, c: Cell)
    requires Physical(t).ConstantSize() && Writable(t, Physical(t), c) && c.Some?
    ensures var raw := ToRaw(t, Physical(t), c) % Pow256(Physical(t).ByteWidth());
            (Steady(t, c) ==> Holdable(t, raw)) && (t.id != ENUM && Holdable(t, raw) ==> Steady(t, c))
  {
    hide Holdable, Steady, ToRaw, Writable, Pow256;
    if t.id == ENUM {
      EnumIsHoldable(t, c);
    } else if t.id == FLOAT {
      FloatIsHoldable(t, c);
    } else if t.id == DATE {
      DateIsHoldable(t, c);
    } else if t.id in {TIME, TIME_NS} {
      TimeIsHoldable(t, c);
    } else if t.id == BOOLEAN {
      BoolIsHoldable(t, c);
    } else {
      AnyIsHoldable(t, c, ToRaw(t, Physical(t), c) % Pow256(Physical(t).ByteWidth()));
    }
  }

  lemma AnyIsHoldable(t: LogicalType, c: Cell, raw: nat)
    requires t.id !in {BOOLEAN, FLOAT, ENUM, DATE, TIME, TIME_NS}
    ensures Holdable(t, raw) && Steady(t, c)
  {
  }

  lemma BoolIsHoldable(t: LogicalType, c: Cell)
    requires t.id == BOOLEAN && Writable(t, Physical(t), c)
    ensures Holdable(t, ToRaw(t, Physical(t), c) % Pow256(1)) && Steady(t, c)
  {
    Pow256Values();
  }

  lemma EnumIsHoldable(t: LogicalType, c: Cell)
    requires t.id == ENUM && Physical(t).ConstantSize() && Writable(t, Physical(t), c) && c.Some?
    ensures Steady(t, c) ==> Holdable(t, ToRaw(t, Physical(t), c) % Pow256(Physical(t).ByteWidth()))
  {
    Pow256Values();
    var index, m := IndexOf(EnumValues(t), c.value.text), Pow256(Physical(t).ByteWidth());
    if index < m {
      ModUnique(index, m, 0, index);
    }
  }

  lemma FloatIsHoldable(t: LogicalType, c: Cell)
    requires t.id == FLOAT && Writable(t, Physical(t), c)
    ensures Holdable(t, ToRaw(t, Physical(t), c) % Pow256(4)) && Steady(t, c)
  {
    Pow256Values();
    if c.Some? && c.value.Num? {
      QuietOnce(c.value.n);
      LowBitsSignal(Requieted(c.value.n));
    }
  }

  lemma QuietOnce(bits: int)
    ensures !Signalling(Requieted(bits))
  {
    if Signalling(bits) {
      ModUnique(bits + 0x40_0000, 0x40_0000, bits / 0x40_0000 + 1, bits % 0x40_0000);
    }
  }

  /** The low 32 bits decide. */
  lemma LowBitsSignal(bits: int)
    ensures Signalling(bits % TWO_32) <==> Signalling(bits)
  {
    var low, k := bits % TWO_32, bits / TWO_32;
    assert bits == 0x80_0000 * (512 * k) + low && bits == 0x40_0000 * (1024 * k) + low;
    ModUnique(bits, 0x80_0000, 512 * k + low / 0x80_0000, low % 0x80_0000);
    ModUnique(bits, 0x40_0000, 1024 * k + low / 0x40_0000, low % 0x40_0000);
    ModShift(low / 0x80_0000, 0x100, 2 * k);
    ModShift(low / 0x40_0000, 2, 512 * k);
  }

  lemma DateIsHoldable(t: LogicalType, c: Cell)
    requires t.id == DATE && Writable(t, Physical(t), c) && c.Some?
    ensures Holdable(t, ToRaw(t, Physical(t), c) % Pow256(4)) <==> Steady(t, c)
  {
    Pow256Values();
    var x := ToRaw(t, Physical(t), c);
    ModUnique(x % TWO_32, TWO_32, 0, x % TWO_32);
    if c.value.Instant? {
      DaysInRange(c.value.ns);
      SignedOfMod(x, TWO_32);
    }
  }

  lemma TimeIsHoldable(t: LogicalType, c: Cell)
    requires t.id in {TIME, TIME_NS} && Writable(t, Physical(t), c) && c.Some?
    ensures Holdable(t, ToRaw(t, Physical(t), c) % Pow256(8)) <==> Steady(t, c)
  {
    assert Pow256(8) == TWO_64 by { Pow256Values(); }
    var x, unit := ToRaw(t, Physical(t), c), Unit(t.id);
    if c.value.Instant? {
      assert 0 <= x && x * unit <= c.value.ns % DAY < DAY;
      ModUnique(x, TWO_64, 0, x);
    } else if x >= 0 {
      ModUnique(x, TWO_64, 0, x);
    } else {
      ModUnique(x, TWO_64, -1, x + TWO_64);
      MulGe(unit, -x);
      MulRange(x + TWO_64, 1, unit);
    }
  }
}
