/** What an Arrow value is stored as, and what a stored number is to Arrow: each type on its own, not there and back. */
module ArrowMeaning {
  import opened Numbers
  import opened QuackTypes
  import opened TypeCodec
  import opened Decimals
  import opened Vectors
  import opened VectorEncoder
  import opened StorageMeaning
  import opened WrittenMeaning
  import opened BulkIngest

  /** A row of that Arrow type is stored as that number. */
  predicate StoredAs(typ: ArrowType, n: int, raw: nat) {
    HasCase(typ) && Fits(typ, N(n)) && LogicalTypeFor(typ).Some?
    && Writes(LogicalTypeFor(typ).value, CellFor(typ, Some(N(n))), raw)
  }

  /** A row of that type is read into an Arrow array as that value, without a panic. */
  predicate ReadAs(t: LogicalType, raw: nat, d: Datum) {
    Physical(t).ConstantSize()
    && var c := CellFromRaw(t, Physical(t), raw);
       Readable(ArrowTypeFor(t), c) && DatumOf(ArrowTypeFor(t), c) == Some(d)
  }

  // ---- to storage ----

  /** Signed integers are stored as two's complements, */
  lemma SignedStored(n: int)
    ensures -0x80 <= n < 0x80 ==> StoredAs(AInt8, n, n % 0x100)
    ensures -0x8000 <= n < 0x8000 ==> StoredAs(AInt16, n, n % 0x1_0000)
    ensures -0x8000_0000 <= n < 0x8000_0000 ==> StoredAs(AInt32, n, n % 0x1_0000_0000)
    ensures -TWO_63 <= n < TWO_63 ==> StoredAs(AInt64, n, n % TWO_64)
  {
    hide Writes, Physical;
    if -TWO_63 <= n < TWO_63 {
      IntegersWrap(Plain(11), Num(KInt8, n));
      IntegersWrap(Plain(12), Num(KInt16, n));
      IntegersWrap(Plain(13), Num(KInt32, n));
      IntegersWrap(Plain(14), Num(KInt64, n));
    }
  }

  /** unsigned ones as they are, */
  lemma UnsignedStored(n: int)
    ensures 0 <= n < 0x100 ==> StoredAs(AUint8, n, n)
    ensures 0 <= n < 0x1_0000 ==> StoredAs(AUint16, n, n)
    ensures 0 <= n < 0x1_0000_0000 ==> StoredAs(AUint32, n, n)
  {
    hide Writes, Physical;
    if 0 <= n < 0x100 {
      LowPartStored(28, Num(KInt16, n), 0x100);
    }
    if 0 <= n < 0x1_0000 {
      LowPartStored(29, Num(KInt32, n), 0x1_0000);
    }
    if 0 <= n < 0x1_0000_0000 {
      LowPartStored(30, Num(KInt64, n), 0x1_0000_0000);
    }
  }

  lemma LowPartStored(id: Int64, v: Value, bound: int)
    requires GoInteger(v)
    requires (id == 28 && bound == 0x100) || (id == 29 && bound == 0x1_0000) || (id == 30 && bound == 0x1_0000_0000)
             || (id == 31 && bound == TWO_64)
    ensures Writes(Plain(id), Some(v), v.n % bound)
  {
    hide Writes, Physical;
    IntegersWrap(Plain(id), v);
  }

  lemma Reinterpreted(n: int)
    requires 0 <= n < TWO_64
    ensures ToInt64(n) % TWO_64 == n
  {
  }

  /** a bool as 0 or 1, */
  lemma BoolsStored(n: int)
    requires 0 <= n <= 1
    ensures StoredAs(ABool, n, n)
  {
    hide Pow256;
    WidthValues();
  }

  /** and 64-bit unsigned ones too, although the column holds the upper half as negative. */
  lemma WideStored(n: int)
    requires 0 <= n < TWO_64
    ensures StoredAs(AUint64, n, n)
  {
    hide Writes, Physical, ToInt64;
    Reinterpreted(n);
    LowPartStored(31, Num(KInt64, ToInt64(n)), TWO_64);
  }

  /** Floats are stored bit for bit, but a signalling single-precision NaN as the quiet one. */
  lemma FloatsStored(bits: int)
    ensures 0 <= bits < 0x1_0000_0000 ==>
              StoredAs(AFloat32, bits,
                       if 0x7F80_0000 < bits < 0x7FC0_0000 || 0xFF80_0000 < bits < 0xFFC0_0000
                       then bits + 0x40_0000 else bits)
    ensures 0 <= bits < TWO_64 ==> StoredAs(AFloat64, bits, bits)
  {
    hide Writes, Physical;
    if 0 <= bits < 0x1_0000_0000 {
      Floats(Plain(22), bits);
    }
    if 0 <= bits < TWO_64 {
      Floats(Plain(23), bits);
    }
  }

  /** Texts and bytes are stored as they are. */
  lemma TextsStored(text: Text)
    ensures TextOf(CellFor(AString, Some(S(text)))) == text && TextOf(CellFor(ABinary, Some(S(text)))) == text
    ensures TextOf(CellFor(AString, None)) == [] && TextOf(CellFor(ABinary, None)) == []
  {
  }

  /** A decimal is stored as 10^scale times its number. */
  lemma {:induction false} DecimalsStored(precision: nat, scale: nat, n: int)
    requires scale <= precision <= 38 && -Pow10(precision) < n < Pow10(precision)
    ensures StoredAs(ADecimal(precision, scale), n, (n * Pow10(scale)) % Pow256(DecimalBytes(precision)))
  {
    hide Pow10, Pow256, Writable, ToRaw;
    DecimalIntegers(precision, scale, [], n);
  }

  // ---- from storage ----

  lemma SignedRead(v: int)
    ensures -0x80 <= v < 0x80 ==> ReadAs(Plain(11), v % 0x100, N(v))
    ensures -0x8000 <= v < 0x8000 ==> ReadAs(Plain(12), v % 0x1_0000, N(v))
    ensures -0x8000_0000 <= v < 0x8000_0000 ==> ReadAs(Plain(13), v % 0x1_0000_0000, N(v))
    ensures -TWO_63 <= v < TWO_63 ==> ReadAs(Plain(14), v % TWO_64, N(v))
  {
    if -0x80 <= v < 0x80 { SignedOfMod(v, 0x100); }
    if -0x8000 <= v < 0x8000 { SignedOfMod(v, 0x1_0000); }
    if -0x8000_0000 <= v < 0x8000_0000 { SignedOfMod(v, TWO_32); }
    if -TWO_63 <= v < TWO_63 { SignedOfMod(v, TWO_64); }
  }

  /** Unsigned numbers come back whole, and any byte but zero is true. */
  lemma UnsignedRead(v: nat)
    ensures v < 0x100 ==> ReadAs(Plain(10), v, N(if v == 0 then 0 else 1)) && ReadAs(Plain(28), v, N(v))
    ensures v < 0x1_0000 ==> ReadAs(Plain(29), v, N(v))
    ensures v < 0x1_0000_0000 ==> ReadAs(Plain(30), v, N(v))
  {
  }

  /** So do those of UBIGINT that the column holds as negative. */
  lemma WideRead(v: nat)
    requires v < TWO_64
    ensures ReadAs(Plain(31), v, N(v))
  {
    hide ToInt64;
    Reinterpreted(v);
    assert ToInt64(ToInt64(v)) == ToInt64(v) by { SameInt64(ToInt64(v)); }
  }

  lemma FloatsRead(bits: int)
    ensures 0 <= bits < 0x1_0000_0000 ==>
              ReadAs(Plain(22), bits,
                     N(if 0x7F80_0000 < bits < 0x7FC0_0000 || 0xFF80_0000 < bits < 0xFFC0_0000
                       then bits + 0x40_0000 else bits))
    ensures 0 <= bits < TWO_64 ==> ReadAs(Plain(23), bits, N(bits))
  {
  }

  /** A stored DECIMAL is the decimal with that unscaled number, whatever its scale. */
  lemma {:induction false} DecimalsRead(width: nat, scale: Int64, alias: Text, v: int)
    requires width <= 38 && scale >= 0 && -Pow10(width) < v < Pow10(width)
    ensures var t := LogicalType(DECIMAL, Some(DecimalInfo(width, scale, alias)));
            ArrowTypeFor(t) == ADecimal(width, scale) && ReadAs(t, v % Pow256(DecimalBytes(width)), N(v))
  {
    hide Pow10, Pow256, CellFromRaw, FromUnscaled, Unscaled;
    DecimalNumbers(width, scale, alias, v);
    UnscaledOfFraction(v, scale);
    assert Pow10(38) < TWO_127 by { Pow10Values(); }
    Pow10Monotone(width, 38);
  }

  /** Texts and bytes are read as they are, a null row as null. */
  lemma TextsRead(text: Text)
    ensures ArrowTypeFor(Plain(25)) == AString && DatumOf(AString, Some(Str(text))) == Some(S(text))
    ensures ArrowTypeFor(Plain(26)) == ABinary && DatumOf(ABinary, Some(Raw(text))) == Some(S(text))
  {
  }

  /** What is no integer is zero to an integer array; a DECIMAL without its parameters has 38 digits and no scale. */
  lemma OthersRead(typ: ArrowType, v: Value)
    requires typ in {AInt8, AInt16, AInt32, AInt64, AUint8, AUint16, AUint32, AUint64}
    ensures !v.Num? || v.kind.KBool? ==> DatumOf(typ, Some(v)) == Some(N(0))
    ensures ArrowTypeFor(LogicalType(21, None)) == ADecimal(38, 0)
  {
  }
}
