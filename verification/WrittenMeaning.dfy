/** What is stored for a Go value of each kind, also where the column's type is another one. */
module WrittenMeaning {
  import opened Numbers
  import opened QuackTypes
  import opened HugeInts
  import opened Uuids
  import opened Decimals
  import opened Vectors
  import opened VectorEncoder
  import opened StorageMeaning

  predicate Writes(t: LogicalType, c: Cell, raw: nat) {
    Physical(t).ConstantSize() && Writable(t, Physical(t), c)
    && ToRaw(t, Physical(t), c) % Pow256(Physical(t).ByteWidth()) == raw
  }

  /** A Go integer of any kind. */
  predicate GoInteger(v: Value) {
    v.Num? && v.kind in {KInt8, KInt16, KInt32, KInt64, KUint64, KInt} && -TWO_63 <= v.n < TWO_63
  }

  /** An integer column keeps the low bytes of any integer: one, two, four or eight of them. */
  lemma IntegersWrap(t: LogicalType, v: Value)
    requires GoInteger(v)
    ensures t.id in {11, 28} ==> Writes(t, Some(v), v.n % 0x100)
    ensures t.id in {12, 29} ==> Writes(t, Some(v), v.n % 0x1_0000)
    ensures t.id in {1, 13, 15, 30} ==> Writes(t, Some(v), v.n % 0x1_0000_0000)
    ensures t.id in {14, 31, 51} ==> Writes(t, Some(v), v.n % 0x1_0000_0000_0000_0000)
    ensures t.id in {16, 17, 18, 19, 20, 32, 34, 35} ==> Writes(t, Some(v), v.n % 0x1_0000_0000_0000_0000)
    ensures t.id in {49, 50} ==> Writes(t, Some(v), v.n % TWO_128)
    ensures t.id == 10 ==> Writes(t, Some(v), if v.n == 0 then 0 else 1)
  {
    Pow256Values();
    SignedOfMod(v.n, TWO_64);
  }

  /** A null row is stored as zero in every type. */
  lemma NilIsZero(t: LogicalType)
    requires Physical(t).ConstantSize()
    ensures Writes(t, None, 0)
  {
    hide Pow256;
  }

  /** An unsigned 64-bit integer in its upper half counts as negative where it is widened. */
  lemma UpperHalves(t: LogicalType, n: int)
    requires TWO_63 <= n < TWO_64
    ensures t.id in {11, 28} ==> Writes(t, Some(Num(KUint64, n)), n % 0x100)
    ensures t.id in {12, 29} ==> Writes(t, Some(Num(KUint64, n)), n % 0x1_0000)
    ensures t.id in {13, 15, 30} ==> Writes(t, Some(Num(KUint64, n)), n % 0x1_0000_0000)
    ensures t.id in {14, 16, 17, 18, 19, 20, 31, 32, 34, 35, 51} ==> Writes(t, Some(Num(KUint64, n)), n)
    ensures t.id in {49, 50} ==> Writes(t, Some(Num(KUint64, n)), TWO_128 - TWO_64 + n)
  {
    hide Pow256, ToInt64;
    WidthValues();
    assert ToInt64(n) == n - TWO_64 by { SignedOfMod(n - TWO_64, TWO_64); }
    NarrowParts(n);
  }

  lemma WidthValues()
    ensures Pow256(1) == 0x100 && Pow256(2) == 0x1_0000 && Pow256(4) == TWO_32
    ensures Pow256(8) == TWO_64 && Pow256(16) == TWO_128
  {
    Pow256Values();
  }

  lemma NarrowParts(n: int)
    requires TWO_63 <= n < TWO_64
    ensures (n - TWO_64) % 0x100 == n % 0x100 && (n - TWO_64) % 0x1_0000 == n % 0x1_0000
    ensures (n - TWO_64) % TWO_32 == n % TWO_32 && (n - TWO_64) % TWO_64 == n
    ensures (n - TWO_64) % TWO_128 == TWO_128 - TWO_64 + n
  {
  }

  /** The types of integers, of floats and of times. */
  const NUMBER_TYPES: set<Int64> := {1, 10, 11, 12, 13, 14, 22, 23, 28, 29, 30, 31, 34, 49, 50, 51}
  const TIME_TYPES: set<Int64> := {15, 16, 17, 18, 19, 20, 32, 35}

  /** A text, bytes or another value that is no number counts as zero where a number is wanted, */
  lemma OthersAreZero(t: LogicalType, v: Value)
    requires v.Str? || v.Raw? || v.Interval? || v.Items? || v.Fields? || v.Rat?
    requires t.id in NUMBER_TYPES || t.id in TIME_TYPES
    ensures Writes(t, Some(v), 0)
  {
    hide Pow256;
  }

  /**
   and so do a bool outside of BOOLEAN, a time outside of the types of times, and a big integer in a narrow column.
   */
  lemma MisplacedAreZero(t: LogicalType, v: Value)
    requires v.Num? && v.kind.KBool? ==> t.id in NUMBER_TYPES + TIME_TYPES - {10, 22, 23}
    requires v.Instant? ==> t.id in NUMBER_TYPES
    requires v.Big? ==> t.id in NUMBER_TYPES + TIME_TYPES - {49, 50}
    requires (v.Num? && v.kind.KBool?) || v.Instant? || v.Big?
    ensures Writes(t, Some(v), 0)
  {
    hide Pow256;
  }

  /** Floats keep their bits, but a signalling single-precision NaN becomes quiet. */
  lemma Floats(t: LogicalType, bits: nat)
    ensures t.id == 22 && bits < 0x1_0000_0000 ==>
              Writes(t, Some(Num(KFloat32, bits)),
                     if 0x7F80_0000 < bits < 0x7FC0_0000 || 0xFF80_0000 < bits < 0xFFC0_0000
                     then bits + 0x40_0000 else bits)
    ensures t.id == 23 && bits < TWO_64 ==> Writes(t, Some(Num(KFloat64, bits)), bits)
  {
    Pow256Values();
  }

  /** Months and days in the lower words, microseconds in the upper half; anything else is the empty interval. */
  lemma Intervals(t: LogicalType, v: Value)
    requires t.id == 27
    ensures v.Interval? ==> Writes(t, Some(v), v.months % 0x1_0000_0000 + 0x1_0000_0000 * (v.days % 0x1_0000_0000)
                                               + 0x1_0000_0000_0000_0000 * (v.micros % 0x1_0000_0000_0000_0000))
    ensures !v.Interval? ==> Writes(t, Some(v), 0)
  {
    Pow256Values();
    if v.Interval? {
      var low := v.months % 0x1_0000_0000 + 0x1_0000_0000 * (v.days % 0x1_0000_0000);
      LowPart(low, v.micros);
    }
  }

  lemma LowPart(low: nat, micros: int)
    requires low < TWO_64
    ensures (low + TWO_64 * micros) % TWO_128 == low + TWO_64 * (micros % TWO_64)
  {
    var q := micros / TWO_64;
    assert low + TWO_64 * micros == TWO_128 * q + (low + TWO_64 * (micros % TWO_64));
    ModUnique(low + TWO_64 * micros, TWO_128, q, low + TWO_64 * (micros % TWO_64));
  }

  // ---- texts, enumerations and identifiers ----

  /** Texts and bytes are stored as they are, a null row as the empty text. */
  lemma Texts(text: Text)
    ensures TextOf(Some(Str(text))) == text && TextOf(Some(Raw(text))) == text && TextOf(None) == []
  {
  }

  /** An ENUM value is stored as the first place of its text; a text that is not in the list makes Go panic. */
  lemma EnumTexts(values: Slice<Text>, alias: Text, text: Text)
    requires |values| < 0x1_0000_0000
    ensures var t := LogicalType(104, Some(EnumInfo(values, alias)));
            if text !in values then !Writable(t, Physical(t), Some(Str(text)))
            else exists i | 0 <= i < |values| ::
                   values[i] == text && text !in values[..i] && Writes(t, Some(Str(text)), i)
  {
    var t := LogicalType(104, Some(EnumInfo(values, alias)));
    if text in values {
      hide Pow256;
      var i := IndexOf(values, text);
      EnumRoom(i, Physical(t).ByteWidth());
      assert values[i] == text && text !in values[..i] && Writes(t, Some(Str(text)), i);
    }
  }

  lemma {:induction false} EnumRoom(i: nat, width: nat)
    ensures (width == 1 && i < 0x100) || (width == 2 && i < 0x1_0000) || (width == 4 && i < TWO_32) ==>
              i % Pow256(width) == i
  {
    Pow256Values();
  }

  predicate HexDigit(c: Byte) {
    0x30 <= c <= 0x39 || 0x41 <= c <= 0x46 || 0x61 <= c <= 0x66
  }

  predicate AllHex(s: Bytes) {
    forall i | 0 <= i < |s| :: HexDigit(s[i])
  }

  /**
   A text of 36 bytes in which any four are dashes and the others hexadecimal digits of either case is stored as their
   number with its top bit turned over.
   */
  lemma {:induction false} TextIdentifiers(t: LogicalType, text: Text)
    requires t.id == 54 && |text| == 36 && |RemoveDashes(text)| == 32 && AllHex(RemoveDashes(text))
    ensures Writes(t, Some(Str(text)), (HexNumber(RemoveDashes(text)) + TWO_127) % TWO_128)
  {
    hide HexNumber, HexValue, RemoveDashes, Signed, ToInt64, SignedBig, Pow256, Pow2, Canonical, Int64Raw, DecimalRaw;
    var hex := RemoveDashes(text);
    HexNumberIs(hex[..16]);
    HexNumberIs(hex[16..]);
    assert hex == hex[..16] + hex[16..];
    HexNumberJoin(hex[..16], hex[16..]);
    assert Pow2(64) == TWO_64 by { Pow2Values(); }
    var high, low := HexNumber(hex[..16]), HexNumber(hex[16..]);
    assert UuidParts(text) == HugeIntParts(ToInt64(high - TWO_63), low % TWO_64);
    StoredNumber(high, low);
    assert Pow256(16) == TWO_128 by { Pow256Values(); }
  }

  lemma {:induction false} HexNumberIs(s: Bytes)
    requires AllHex(s)
    ensures HexValue(s) == Some(HexNumber(s)) && 0 <= HexNumber(s) < Pow2(4 * |s|)
  {
    if s != [] {
      HexNumberIs(s[..|s| - 1]);
    }
  }

  lemma StoredNumber(high: nat, low: nat)
    requires high < TWO_64 && low < TWO_64
    ensures SignedBig(HugeIntParts(ToInt64(high - TWO_63), low % TWO_64)) % TWO_128
            == (TWO_64 * high + low + TWO_127) % TWO_128
  {
    SignedOfMod(high - TWO_63, TWO_64);
    assert TWO_64 * high + low + TWO_127 == TWO_64 * (high - TWO_63) + low + TWO_128;
  }

  /** Every other text, and every value that is no text, is stored as zero. A plus sign may begin each half. */
  lemma {:induction false} NoIdentifiers(t: LogicalType, v: Value)
    requires t.id == 54
    requires v.Str? ==>
               var hex := RemoveDashes(v.text);
               |v.text| != 36 || |hex| != 32
               || exists i | 0 <= i < 32 :: !HexDigit(hex[i]) && (hex[i] == 0x2B ==> i != 0 && i != 16)
    ensures Writes(t, Some(v), 0)
  {
    hide HexValue, RemoveDashes, Pow256;
    if v.Str? {
      var hex := RemoveDashes(v.text);
      if |v.text| == 36 && |hex| == 32 {
        var i :| 0 <= i < 32 && !HexDigit(hex[i]) && (hex[i] == 0x2B ==> i != 0 && i != 16);
        if i < 16 {
          NoHalf(hex[..16], i);
        } else {
          NoHalf(hex[16..], i - 16);
        }
      }
    }
  }

  lemma NoHalf(s: Bytes, i: nat)
    requires i < |s| && !HexDigit(s[i]) && (s[i] == 0x2B ==> i != 0)
    ensures ParseHex(s).None?
  {
    hide HexValue;
    var digits := if s[0] == PLUS then s[1..] else s;
    NoNumber(digits, if s[0] == PLUS then i - 1 else i);
  }

  lemma {:induction false} NoNumber(s: Bytes, i: nat)
    requires i < |s| && !HexDigit(s[i])
    ensures HexValue(s).None?
  {
    if i < |s| - 1 {
      NoNumber(s[..|s| - 1], i);
    }
  }

  // ---- big integers and decimals ----

  /** Big integers in 128-bit columns keep their low sixteen bytes. */
  lemma BigIntegers(t: LogicalType, v: int)
    requires t.id in {49, 50}
    ensures Writes(t, Some(Big(v)), v % TWO_128)
  {
    Pow256Values();
  }

  /** A big or Go integer in a DECIMAL column is multiplied by 10^scale. */
  lemma {:induction false} DecimalIntegers(width: nat, scale: Int64, alias: Text, v: int)
    requires width <= 38 && scale >= 0
    ensures var t := LogicalType(DECIMAL, Some(DecimalInfo(width, scale, alias)));
            Physical(t).ConstantSize()
            && var m := Pow256(Physical(t).ByteWidth());
               Writes(t, Some(Big(v)), (v * Pow10(scale)) % m)
               && forall kind | GoInteger(Num(kind, v)) :: Writes(t, Some(Num(kind, v)), (v * Pow10(scale)) % m)
  {
    hide Pow10, Pow256, Factor, ToInt64;
    TenToScale(scale);
    if -TWO_63 <= v < TWO_63 {
      SameInt64(v);
    }
  }

  /** What is neither a number nor a text is stored as zero; a DECIMAL type without its parameters makes Go panic. */
  lemma {:induction false} DecimalOthers(width: nat, scale: Int64, alias: Text, v: Value)
    requires width <= 38 && (v.Raw? || v.Interval? || v.Items? || v.Fields? || v.Instant? || (v.Num? && v.kind.KBool?))
    ensures Writes(LogicalType(DECIMAL, Some(DecimalInfo(width, scale, alias))), Some(v), 0)
    ensures var t := LogicalType(DECIMAL, None); Physical(t).ConstantSize() ==> !Writable(t, Physical(t), Some(v))
  {
    hide Pow256, Factor;
  }

  /** A fraction in a DECIMAL column is scaled and cut off toward zero: u is its unscaled number. */
  lemma {:induction false} DecimalFractions(width: nat, scale: Int64, alias: Text, f: Fraction, u: int)
    requires width <= 38 && scale >= 0 && f.den > 0
    requires var scaled := f.num * Pow10(scale);
             if f.num >= 0 then u >= 0 && u * f.den <= scaled < (u + 1) * f.den
             else u <= 0 && (u - 1) * f.den < scaled <= u * f.den
    ensures var t := LogicalType(DECIMAL, Some(DecimalInfo(width, scale, alias)));
            Physical(t).ConstantSize() && Writes(t, Some(Rat(f)), u % Pow256(Physical(t).ByteWidth()))
  {
    hide Pow10, Pow256, Quo;
    CutOff(f.num * Pow10(scale), f.den, u);
    if f.num < 0 {
      MulGe(Pow10(scale), -f.num);
    } else {
      assert f.num * Pow10(scale) >= 0;
    }
    TenToScale(scale);
  }

  lemma SameInt64(v: int)
    requires -TWO_63 <= v < TWO_63
    ensures ToInt64(v) == v
  {
    SignedOfMod(v, TWO_64);
  }

  lemma {:induction false} TenToScale(scale: Int64)
    requires scale >= 0
    ensures Factor(scale) == Pow10(scale)
  {
  }

  lemma CutOff(a: int, b: int, u: int)
    requires b > 0
    ensures a >= 0 && u * b <= a < (u + 1) * b ==> Quo(a, b) == u
    ensures a <= 0 && (u - 1) * b < a <= u * b ==> Quo(a, b) == u
  {
    if a >= 0 && u * b <= a < (u + 1) * b {
      assert (u + 1) * b == u * b + b;
      ModUnique(a, b, u, a - u * b);
    }
    if a <= 0 && (u - 1) * b < a <= u * b {
      assert (u - 1) * b == u * b - b;
      assert b * -u == -(u * b);
      ModUnique(-a, b, -u, u * b - a);
    }
  }

  // ---- times ----

  /** The column of that type stores the instant as the 64-bit number v. */
  predicate StoresInstant(id: Int64, ns: int, v: int) {
    Writes(LogicalType(id, None), Some(Instant(ns)), v % TWO_64)
  }

  /** A time.Time is stored as the last full unit before it: seconds, milliseconds, microseconds or nanoseconds. */
  lemma TimestampsRoundDown(ns: int, v: int)
    requires -TWO_63 <= v < TWO_63
    ensures 1_000_000_000 * v <= ns < 1_000_000_000 * (v + 1) ==> StoresInstant(17, ns, v)
    ensures 1_000_000 * v <= ns < 1_000_000 * (v + 1) ==> StoresInstant(18, ns, v)
    ensures 1_000 * v <= ns < 1_000 * (v + 1) ==> StoresInstant(19, ns, v) && StoresInstant(32, ns, v)
    ensures ns == v ==> StoresInstant(20, ns, v)
  {
    hide StoresInstant;
    if 1_000_000_000 * v <= ns < 1_000_000_000 * (v + 1) {
      UnitsStored(17, ns, v, 1_000_000_000);
    }
    if 1_000_000 * v <= ns < 1_000_000 * (v + 1) {
      UnitsStored(18, ns, v, 1_000_000);
    }
    if 1_000 * v <= ns < 1_000 * (v + 1) {
      UnitsStored(19, ns, v, 1_000);
      UnitsStored(32, ns, v, 1_000);
    }
    if ns == v {
      UnitsStored(20, ns, v, 1);
    }
  }

  lemma UnitsStored(id: Int64, ns: int, v: int, unit: int)
    requires id in {17, 18, 19, 20, 32} && unit > 0 && unit * v <= ns < unit * v + unit && -TWO_63 <= v < TWO_63
    requires unit == if id == 17 then 1_000_000_000 else if id == 18 then 1_000_000 else if id == 20 then 1 else 1_000
    ensures StoresInstant(id, ns, v)
  {
    hide ToInt64;
    assert Pow256(8) == TWO_64 by { Pow256Values(); }
    ModUnique(ns, unit, v, ns - unit * v);
    SameInt64(v);
  }

  /** A TIME is what is left of the instant after whole days, in full microseconds; a TIME_NS in nanoseconds. */
  lemma TimesOfDay(days: int, ns: nat)
    requires ns < 86_400_000_000_000 && -100_000_000 <= days <= 100_000_000
    ensures Writes(LogicalType(16, None), Some(Instant(86_400_000_000_000 * days + ns)), ns / 1_000)
    ensures Writes(LogicalType(35, None), Some(Instant(86_400_000_000_000 * days + ns)), ns)
  {
    hide ToInt64, Pow256;
    assert Pow256(8) == TWO_64 by { Pow256Values(); }
    ModUnique(86_400_000_000_000 * days + ns, 86_400_000_000_000, days, ns);
    ModUnique(ns, TWO_64, 0, ns);
    ModUnique(ns / 1_000, TWO_64, 0, ns / 1_000);
  }

  /** A DATE is the whole days since the epoch, toward zero, and never more than 106,751. */
  lemma DatesCutOff(days: nat, hours: nat)
    requires hours < 24
    ensures var d := if days <= 106_751 then days else 106_751;
            var ns := 3_600_000_000_000 * (24 * days + hours);
            Writes(LogicalType(15, None), Some(Instant(ns)), d % TWO_32)
            && Writes(LogicalType(15, None), Some(Instant(-ns)), (-d) % TWO_32)
  {
    var d := if days <= 106_751 then days else 106_751;
    var ns := 3_600_000_000_000 * (24 * days + hours);
    WholeHours(24 * days + hours);
    WholeHours(-(24 * days + hours));
    WholeDays(days, hours, ns);
    DateStored(ns, d);
    DateStored(-ns, 0 - d);
  }

  lemma WholeDays(days: int, hours: nat, ns: int)
    requires days >= 0 && hours < 24 && ns == 3_600_000_000_000 * (24 * days + hours)
    ensures var d := if days <= 106_751 then days else 106_751; EpochDays(ns) == d && EpochDays(-ns) == -d
  {
    if days <= 106_751 {
      CutOff(ns, DAY, days);
      CutOff(-ns, DAY, -days);
    }
  }

  lemma DateStored(ns: int, d: int)
    requires ns % HOUR == 0 && EpochDays(ns) == d
    ensures Writes(LogicalType(15, None), Some(Instant(ns)), d % TWO_32)
  {
    hide EpochDays;
    assert Pow256(4) == TWO_32 by { Pow256Values(); }
  }

  lemma WholeHours(h: int)
    ensures (3_600_000_000_000 * h) % HOUR == 0
  {
    ModUnique(3_600_000_000_000 * h, HOUR, h, 0);
  }
}
