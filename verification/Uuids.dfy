/** UUIDs: DuckDB stores them as a 128-bit integer with the top bit flipped (text form: section 4 of RFC 9562). */
module Uuids {
  import opened Numbers
  import opened HugeInts

  const DASH: Byte := 0x2D
  const PLUS: Byte := 0x2B

  /** Hexadecimal digits in 64 bits. */
  const HALF: nat := 16

  function Digit(v: nat): Byte
    requires v < 16
  {
    if v < 10 then 0x30 + v else 0x61 + v - 10
  }

  /** The value of a hexadecimal digit of either case. */
  function DigitValue(c: Byte): Option<nat> {
    if 0x30 <= c <= 0x39 then Some(c - 0x30)
    else if 0x61 <= c <= 0x66 then Some(c - 0x61 + 10)
    else if 0x41 <= c <= 0x46 then Some(c - 0x41 + 10)
    else None
  }

  /** n lower-case digits, most significant first. */
  function Hex(n: nat, v: nat): (s: Bytes)
    ensures |s| == n
  {
    if n == 0 then [] else Hex(n - 1, v / 16) + [Digit(v % 16)]
  }

  function HexValue(s: Bytes): (r: Option<nat>)
    ensures r.Some? ==> r.value < Pow2(4 * |s|)
  {
    if s == [] then Some(0)
    else
      match (HexValue(s[..|s| - 1]), DigitValue(s[|s| - 1]))
      case (Some(high), Some(low)) =>
        assert Pow2(4 * |s|) == 16 * Pow2(4 * (|s| - 1)) by { Pow2Add(4, 4 * (|s| - 1)); assert Pow2(4) == 16; }
        Some(16 * high + low)
      case _ => None
  }

  /** Base-16 parsing of a big integer that is not negative: a plus sign is allowed, no digits are not. */
  function ParseHex(s: Bytes): Option<nat> {
    var digits := if |s| > 0 && s[0] == PLUS then s[1..] else s;
    if digits == [] then None else HexValue(digits)
  }

  function UuidText(p: HugeIntParts): (s: Text)
    ensures |s| == 36
  {
    var h := Hex(HALF, p.upper + TWO_63) + Hex(HALF, p.lower);
    Dashed(h)
  }

  function Dashed(h: Bytes): (s: Bytes)
    requires |h| == 32
    ensures |s| == 36
  {
    h[..8] + [DASH] + h[8..12] + [DASH] + h[12..16] + [DASH] + h[16..20] + [DASH] + h[20..]
  }

  function RemoveDashes(s: Bytes): Bytes {
    if s == [] then []
    else if s[0] == DASH then RemoveDashes(s[1..])
    else [s[0]] + RemoveDashes(s[1..])
  }

  /** Text that is not a UUID gives zero. */
  function UuidParts(s: Text): HugeIntParts {
    var hex := RemoveDashes(s);
    if |s| != 36 || |hex| != 32 then ZERO else PartsOfHex(hex[..16], hex[16..])
  }

  function PartsOfHex(high: Bytes, low: Bytes): HugeIntParts {
    match (ParseHex(high), ParseHex(low))
    case (Some(upper), Some(lower)) => HugeIntParts(ToInt64(upper - TWO_63), lower % TWO_64)
    case _ => ZERO
  }

  lemma {:induction false} HexValueOfHex(n: nat, v: nat)
    requires v < Pow2(4 * n)
    ensures HexValue(Hex(n, v)) == Some(v)
    ensures forall i | 0 <= i < n :: Hex(n, v)[i] != DASH && Hex(n, v)[i] != PLUS
  {
    if n > 0 {
      assert Pow2(4 * n) == 16 * Pow2(4 * (n - 1)) by { Pow2Add(4, 4 * (n - 1)); Pow2Values(); }
      HexValueOfHex(n - 1, v / 16);
      var s := Hex(n, v);
      assert s[..n - 1] == Hex(n - 1, v / 16);
    }
  }

  predicate LowerHex(s: Bytes) {
    forall i | 0 <= i < |s| :: 0x30 <= s[i] <= 0x39 || 0x61 <= s[i] <= 0x66
  }

  lemma {:induction false} HexOfHexValue(s: Bytes)
    requires LowerHex(s)
    ensures HexValue(s).Some? && Hex(|s|, HexValue(s).value) == s
  {
    if s != [] {
      hide Pow2, Hex;
      var front, last := s[..|s| - 1], s[|s| - 1];
      HexOfHexValue(front);
      LowerDigit(last);
      var high, low := HexValue(front).value, DigitValue(last).value;
      assert HexValue(s) == Some(16 * high + low);
      HexStep(|s|, high, low);
      assert s == front + [last];
    } else {
      assert Hex(0, 0) == [];
    }
  }

  lemma HexStep(n: nat, high: nat, low: nat)
    requires n > 0 && low < 16
    ensures Hex(n, 16 * high + low) == Hex(n - 1, high) + [Digit(low)]
  {
    assert (16 * high + low) / 16 == high && (16 * high + low) % 16 == low;
  }

  lemma LowerDigit(c: Byte)
    requires 0x30 <= c <= 0x39 || 0x61 <= c <= 0x66
    ensures DigitValue(c).Some? && DigitValue(c).value < 16 && Digit(DigitValue(c).value) == c
  {
  }

  lemma {:induction false} RemoveDashesAppend(a: Bytes, b: Bytes)
    ensures RemoveDashes(a + b) == RemoveDashes(a) + RemoveDashes(b)
  {
    if a == [] {
      assert a + b == b;
    } else {
      RemoveDashesAppend(a[1..], b);
      assert (a + b)[1..] == a[1..] + b;
    }
  }

  lemma {:induction false} NoDashes(s: Bytes)
    requires forall i | 0 <= i < |s| :: s[i] != DASH
    ensures RemoveDashes(s) == s
  {
    if s != [] {
      NoDashes(s[1..]);
    }
  }

  lemma {:induction false} Segment(a: Bytes, rest: Bytes)
    requires forall i | 0 <= i < |a| :: a[i] != DASH
    ensures RemoveDashes(a + [DASH] + rest) == a + RemoveDashes(rest)
  {
    NoDashes(a);
    RemoveDashesAppend(a, [DASH] + rest);
    assert ([DASH] + rest)[1..] == rest;
    assert a + [DASH] + rest == a + ([DASH] + rest);
  }

  lemma DashedHex(h: Bytes)
    requires |h| == 32 && forall i | 0 <= i < 32 :: h[i] != DASH
    ensures RemoveDashes(Dashed(h)) == h
  {
    hide RemoveDashes;
    var a, b, c, d, e := h[..8], h[8..12], h[12..16], h[16..20], h[20..];
    var s4 := d + [DASH] + e;
    var s3 := c + [DASH] + s4;
    var s2 := b + [DASH] + s3;
    NoDashes(e);
    Segment(d, e);
    Segment(c, s4);
    Segment(b, s3);
    Segment(a, s2);
    assert Dashed(h) == a + [DASH] + s2;
    assert h == a + (b + (c + (d + e)));
  }

  /** Every 128-bit value survives its text form. */
  lemma UuidPartsOfText(p: HugeIntParts)
    ensures UuidParts(UuidText(p)) == p
  {
    hide Hex, HexValue, Pow2, RemoveDashes, Dashed, Signed;
    var h, l := Hex(HALF, p.upper + TWO_63), Hex(HALF, p.lower);
    Pow2Values();
    HexValueOfHex(HALF, p.upper + TWO_63);
    HexValueOfHex(HALF, p.lower);
    DashedHex(h + l);
    assert (h + l)[..16] == h && (h + l)[16..] == l;
    SignedOfMod(p.upper, TWO_64);
  }

  /** Lower-case hexadecimal with dashes after digits 8, 12, 16 and 20. */
  predicate CanonicalUuid(s: Text) {
    |s| == 36 && s[8] == s[13] == s[18] == s[23] == DASH && LowerHex(UuidDigits(s))
  }

  function UuidDigits(s: Text): (h: Bytes)
    requires |s| == 36
    ensures |h| == 32
  {
    s[..8] + s[9..13] + s[14..18] + s[19..23] + s[24..]
  }

  lemma DashedDigits(s: Text)
    requires |s| == 36 && s[8] == s[13] == s[18] == s[23] == DASH
    ensures Dashed(UuidDigits(s)) == s
  {
    var h := UuidDigits(s);
    assert h[..8] == s[..8] && h[8..12] == s[9..13] && h[12..16] == s[14..18];
    assert h[16..20] == s[19..23] && h[20..] == s[24..];
  }

  lemma DigitsOfDashed(h: Bytes)
    requires |h| == 32
    ensures UuidDigits(Dashed(h)) == h
  {
    var s := Dashed(h);
    assert s[..8] == h[..8] && s[9..13] == h[8..12] && s[14..18] == h[12..16];
    assert s[19..23] == h[16..20] && s[24..] == h[20..];
  }

  /** Text survives the 128-bit form exactly when it is canonical. */
  lemma UuidTextOfParts(s: Text)
    ensures UuidText(UuidParts(s)) == s <==> CanonicalUuid(s)
  {
    if CanonicalUuid(s) {
      CanonicalTextOfParts(s);
    } else {
      UuidTextCanonical(UuidParts(s));
    }
  }

  lemma CanonicalHalf(s: Bytes) returns (v: nat)
    requires |s| == 16 && LowerHex(s)
    ensures ParseHex(s) == Some(v) && v < TWO_64 && Hex(HALF, v) == s
  {
    HexOfHexValue(s);
    Pow2Values();
    assert s[0] != PLUS;
    v := HexValue(s).value;
  }

  lemma PartsOfDashed(high: Bytes, low: Bytes)
    requires |high| == |low| == 16 && LowerHex(high) && LowerHex(low)
    ensures UuidParts(Dashed(high + low)) == PartsOfHex(high, low)
  {
    var h := high + low;
    DashedHex(h);
    assert h[..16] == high && h[16..] == low;
  }

  lemma ValuesOfParts(high: Bytes, low: Bytes, upper: Uint64, lower: Uint64)
    requires ParseHex(high) == Some(upper) && ParseHex(low) == Some(lower)
    ensures PartsOfHex(high, low) == HugeIntParts(upper - TWO_63, lower)
  {
    SignedOfMod(upper - TWO_63, TWO_64);
  }

  lemma CanonicalTextOfParts(s: Text)
    requires CanonicalUuid(s)
    ensures UuidText(UuidParts(s)) == s
  {
    var h := UuidDigits(s);
    DashedDigits(s);
    var high, low := h[..16], h[16..];
    assert h == high + low;
    assert LowerHex(high) && LowerHex(low);
    PartsOfDashed(high, low);
    var upper := CanonicalHalf(high);
    var lower := CanonicalHalf(low);
    ValuesOfParts(high, low, upper, lower);
  }

  lemma {:induction false} HexLower(n: nat, v: nat)
    ensures LowerHex(Hex(n, v))
  {
    if n > 0 {
      HexLower(n - 1, v / 16);
    }
  }

  lemma UuidTextCanonical(p: HugeIntParts)
    ensures CanonicalUuid(UuidText(p))
  {
    var h := Hex(HALF, p.upper + TWO_63) + Hex(HALF, p.lower);
    HexLower(HALF, p.upper + TWO_63);
    HexLower(HALF, p.lower);
    DigitsOfDashed(h);
  }
}
