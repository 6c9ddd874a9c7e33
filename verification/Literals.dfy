/** SQL literals for bound scalars. */
module Literals {
  import opened Numbers
  import opened Params

  /**
   A bound value. The text of a float and of a typed literal (DATE, TIME, TIMESTAMP) is what Go's formatting yields,
   and comes in as a parameter.
   */
  datatype Scalar =
    | Null
    | Boolean(b: bool)
    | SignedInt(n: Int64)
    | UnsignedInt(u: Uint64)
    | Float(digits: Bytes)
    | String(text: Bytes)
    | Binary(bytes: Bytes)
    | Decimal(unscaled: int, scale: int)
    | Typed(keyword: Bytes, body: Bytes)

  const BACKSLASH: Byte := 0x5C
  const LOWER_X: Byte := 0x78
  const SPACE: Byte := 0x20

  /** Capital letters and colons. */
  predicate Word(s: string) {
    forall i | 0 <= i < |s| :: WordChar(s[i])
  }

  predicate WordChar(c: char) {
    'A' <= c <= 'Z' || c == ':'
  }

  function CharByte(c: char): (b: Byte)
    requires WordChar(c)
    ensures PlainByte(b)
  {
    c as int
  }

  function Ascii(s: string): (b: Bytes)
    requires Word(s)
    ensures |b| == |s| && AllPlain(b)
  {
    seq(|s|, i requires 0 <= i < |s| => CharByte(s[i]))
  }

  /** A byte that never changes the scanner's mode. */
  predicate PlainByte(c: Byte) {
    c !in {QUOTE, IDENT_QUOTE, SLASH, STAR, MARKER, DASH}
  }

  predicate AllPlain(s: Bytes) {
    forall i | 0 <= i < |s| :: PlainByte(s[i])
  }

  /** No quote, slash, star or marker, and every minus sign is followed by something else. */
  predicate Plain(s: Bytes) {
    s == []
    || ((PlainByte(s[0]) || (s[0] == DASH && |s| > 1 && s[1] != DASH)) && Plain(s[1..]))
  }

  // ---- numbers ----

  predicate AllDigits(s: Bytes) {
    forall i | 0 <= i < |s| :: ZERO_DIGIT <= s[i] <= ZERO_DIGIT + 9
  }

  function Digits(n: nat): (s: Bytes)
    ensures s != [] && AllDigits(s)
  {
    if n < 10 then [ZERO_DIGIT + n] else Digits(n / 10) + [ZERO_DIGIT + n % 10]
  }

  /** Zeros in front until there is a digit before the decimal point. */
  function Padded(s: Bytes, width: nat): (r: Bytes)
    ensures |r| == if |s| < width then width else |s|
    ensures AllDigits(s) ==> AllDigits(r)
  {
    Repeat(ZERO_DIGIT, if |s| < width then width - |s| else 0) + s
  }

  function Minus(negative: bool): Bytes {
    if negative then [DASH] else []
  }

  function IntegerText(n: int): Bytes {
    Minus(n < 0) + Digits(if n < 0 then -n else n)
  }

  function WithPoint(digits: Bytes, scale: nat): Bytes
    requires scale <= |digits|
  {
    digits[..|digits| - scale] + [DOT] + digits[|digits| - scale..]
  }

  /** unscaled / 10^scale in decimal notation. */
  function DecimalText(unscaled: int, scale: int): Bytes {
    if scale <= 0 then IntegerText(unscaled)
    else
      Minus(unscaled < 0)
      + WithPoint(Padded(Digits(if unscaled < 0 then -unscaled else unscaled), scale + 1), scale)
  }

  // ---- strings ----

  /** Every quote doubled. */
  function Escape(s: Bytes): Bytes {
    if s == [] then [] else (if s[0] == QUOTE then [QUOTE, QUOTE] else [s[0]]) + Escape(s[1..])
  }

  function HexDigit(n: nat): Byte
    requires n < 16
  {
    if n < 10 then ZERO_DIGIT + n else 0x41 + n - 10
  }

  /** Two upper-case hexadecimal digits for each byte. */
  function HexEscapes(s: Bytes): Bytes {
    if s == [] then [] else [BACKSLASH, LOWER_X, HexDigit(s[0] / 16), HexDigit(s[0] % 16)] + HexEscapes(s[1..])
  }

  function RenderLiteral(v: Scalar): Bytes {
    match v
    case Null => Ascii("NULL")
    case Boolean(b) => if b then Ascii("TRUE") else Ascii("FALSE")
    case SignedInt(n) => IntegerText(n)
    case UnsignedInt(n) => Digits(n)
    case Float(digits) => digits + Ascii("::DOUBLE")
    case String(text) => [QUOTE] + Escape(text) + [QUOTE]
    case Binary(bytes) => [QUOTE] + HexEscapes(bytes) + [QUOTE] + Ascii("::BLOB")
    case Decimal(unscaled, scale) => DecimalText(unscaled, scale)
    case Typed(keyword, body) => keyword + [SPACE, QUOTE] + body + [QUOTE]
  }

  /** What Go's float formatting can yield: no quote, slash, star or marker, and no minus sign before another. */
  predicate FloatText(s: Bytes) {
    s != [] && Plain(s)
  }

  /** Typed literals: a keyword, and a body that holds no quote. */
  predicate ScalarOk(v: Scalar) {
    match v
    case Float(digits) => FloatText(digits)
    case Typed(keyword, body) => keyword != [] && Plain(keyword) && QUOTE !in body
    case _ => true
  }

  // ---- every literal is closed ----

  lemma {:induction false} PlainClosed(s: Bytes, rest: Bytes)
    requires Plain(s) && Closed(false, rest)
    ensures Closed(false, s + rest)
  {
    var t := s + rest;
    if s == [] {
      assert t == rest;
    } else {
      assert t[0] == s[0] && t[1..] == s[1..] + rest;
      if |s| > 1 {
        assert t[1] == s[1] && s[1] == s[1..][0];
      }
      PlainClosed(s[1..], rest);
    }
  }

  lemma {:induction false} AllPlainIsPlain(s: Bytes)
    requires AllPlain(s)
    ensures Plain(s)
  {
    if s != [] {
      AllPlainIsPlain(s[1..]);
    }
  }

  lemma {:induction false} QuotedClosed(body: Bytes, rest: Bytes)
    requires QUOTE !in body && Closed(false, rest)
    ensures Closed(true, body + [QUOTE] + rest)
  {
    var t := body + [QUOTE] + rest;
    if body == [] {
      assert t[1..] == rest;
    } else {
      assert t[1..] == body[1..] + [QUOTE] + rest;
      assert body[0] in body;
      QuotedClosed(body[1..], rest);
    }
  }

  lemma {:induction false} EscapedClosed(s: Bytes, rest: Bytes)
    requires Closed(false, rest)
    ensures Closed(true, Escape(s) + [QUOTE] + rest)
  {
    var t := Escape(s) + [QUOTE] + rest;
    if s == [] {
      assert t[1..] == rest;
    } else {
      var u := Escape(s[1..]) + [QUOTE] + rest;
      EscapedClosed(s[1..], rest);
      if s[0] == QUOTE {
        assert t == [QUOTE] + ([QUOTE] + u);
        assert ([QUOTE] + u)[1..] == u;
        assert t[1..] == [QUOTE] + u;
      } else {
        assert t == [s[0]] + u;
        assert t[1..] == u;
      }
    }
  }

  lemma {:induction false} HexEscapesPlain(s: Bytes)
    ensures QUOTE !in HexEscapes(s)
  {
    if s != [] {
      HexEscapesPlain(s[1..]);
    }
  }

  lemma WordClosed(s: string)
    requires Word(s)
    ensures Closed(false, Ascii(s))
    ensures s != "" ==> LiteralOk(Ascii(s))
  {
    AllPlainIsPlain(Ascii(s));
    PlainClosed(Ascii(s), []);
    assert Ascii(s) + [] == Ascii(s);
  }

  /** Digits, with a point or not, and possibly a minus sign in front. */
  lemma SignedDigitsOk(negative: bool, digits: Bytes)
    requires digits != [] && AllPlain(digits)
    ensures LiteralOk(Minus(negative) + digits)
  {
    AllPlainIsPlain(digits);
    var s := Minus(negative) + digits;
    if negative {
      assert s[1] == digits[0] && s[1..] == digits;
    } else {
      assert s == digits;
    }
    PlainClosed(s, []);
    assert s + [] == s;
  }

  lemma DecimalOk(unscaled: int, scale: int)
    ensures LiteralOk(DecimalText(unscaled, scale))
  {
    var magnitude := Digits(if unscaled < 0 then -unscaled else unscaled);
    if scale <= 0 {
      SignedDigitsOk(unscaled < 0, magnitude);
    } else {
      var digits := Padded(magnitude, scale + 1);
      assert AllPlain(WithPoint(digits, scale));
      SignedDigitsOk(unscaled < 0, WithPoint(digits, scale));
    }
  }

  lemma {:induction false} QuotedOk(body: Bytes, suffix: Bytes)
    requires Closed(true, body + [QUOTE] + suffix)
    ensures LiteralOk([QUOTE] + body + [QUOTE] + suffix)
  {
    var s := [QUOTE] + body + [QUOTE] + suffix;
    assert s[1..] == body + [QUOTE] + suffix;
  }

  /** Whatever quotes, markers, dashes or comment openers a value holds, its literal is closed. */
  lemma LiteralsAreClosed(v: Scalar)
    requires ScalarOk(v)
    ensures LiteralOk(RenderLiteral(v))
  {
    match v {
      case Null => WordClosed("NULL");
      case Boolean(b) =>
        WordClosed("TRUE");
        WordClosed("FALSE");
      case SignedInt(n) => DecimalOk(n, 0);
      case UnsignedInt(n) =>
        DecimalOk(n, 0);
        assert [] + Digits(n) == Digits(n);
      case Float(digits) =>
        WordClosed("::DOUBLE");
        PlainClosed(digits, Ascii("::DOUBLE"));
      case String(text) =>
        EscapedClosed(text, []);
        QuotedOk(Escape(text), []);
        assert RenderLiteral(v) + [] == RenderLiteral(v);
        assert [QUOTE] + Escape(text) + [QUOTE] + [] == RenderLiteral(v);
      case Binary(bytes) =>
        HexEscapesPlain(bytes);
        WordClosed("::BLOB");
        QuotedClosed(HexEscapes(bytes), Ascii("::BLOB"));
        QuotedOk(HexEscapes(bytes), Ascii("::BLOB"));
      case Decimal(unscaled, scale) => DecimalOk(unscaled, scale);
      case Typed(keyword, body) => TypedOk(keyword, body);
    }
  }

  lemma {:induction false} TypedOk(keyword: Bytes, body: Bytes)
    requires keyword != [] && Plain(keyword) && QUOTE !in body
    ensures LiteralOk(keyword + [SPACE, QUOTE] + body + [QUOTE])
  {
    var tail := body + [QUOTE] + [];
    QuotedClosed(body, []);
    var rest := [SPACE, QUOTE] + tail;
    assert rest[1..] == [QUOTE] + tail && rest[1..][1..] == tail;
    PlainClosed(keyword, rest);
    assert keyword + rest == keyword + [SPACE, QUOTE] + body + [QUOTE];
  }

  // ---- what a literal denotes ----

  /** The string that a quoted literal denotes, read up to a quote that is not doubled, and the bytes after it. */
  function Unquote(s: Bytes): Option<(Bytes, Bytes)> {
    if s == [] then None
    else if s[0] == QUOTE && Peek(s, 1) != QUOTE then Some(([], s[1..]))
    else
      var n := if s[0] == QUOTE then 2 else 1;
      match Unquote(s[n..])
      case Some((text, rest)) => Some(([s[0]] + text, rest))
      case None => None
  }

  /** A string literal denotes exactly the bound string. */
  lemma {:induction false} EscapeDenotes(s: Bytes, rest: Bytes)
    requires Peek(rest, 0) != QUOTE
    ensures Unquote(Escape(s) + [QUOTE] + rest) == Some((s, rest))
  {
    var t := Escape(s) + [QUOTE] + rest;
    if s == [] {
      assert t[1..] == rest;
      assert Peek(t, 1) == Peek(rest, 0);
    } else {
      var u := Escape(s[1..]) + [QUOTE] + rest;
      EscapeDenotes(s[1..], rest);
      assert s == [s[0]] + s[1..];
      if s[0] == QUOTE {
        assert t == [QUOTE, QUOTE] + u;
        assert t[2..] == u;
      } else {
        assert t == [s[0]] + u;
        assert t[1..] == u;
      }
    }
  }

  function DigitsValue(s: Bytes): int {
    if s == [] then 0 else 10 * DigitsValue(s[..|s| - 1]) + s[|s| - 1] - ZERO_DIGIT
  }

  lemma {:induction false} DigitsDenote(n: nat)
    ensures DigitsValue(Digits(n)) == n
  {
    var s := Digits(n);
    if n >= 10 {
      DigitsDenote(n / 10);
      assert s[..|s| - 1] == Digits(n / 10);
    } else {
      assert s[..|s| - 1] == [];
    }
  }

  lemma {:induction false} PaddedDenotes(s: Bytes, zeros: nat)
    ensures DigitsValue(Repeat(ZERO_DIGIT, zeros) + s) == DigitsValue(s)
    decreases zeros, |s|
  {
    var t := Repeat(ZERO_DIGIT, zeros) + s;
    if s == [] {
      assert t == Repeat(ZERO_DIGIT, zeros);
      if zeros > 0 {
        PaddedDenotes([], zeros - 1);
        assert t[..zeros - 1] == Repeat(ZERO_DIGIT, zeros - 1) + [];
      }
    } else {
      PaddedDenotes(s[..|s| - 1], zeros);
      assert t[..|t| - 1] == Repeat(ZERO_DIGIT, zeros) + s[..|s| - 1];
    }
  }

  /** Digits without the point, and the number of digits after it. */
  function ReadUnsigned(s: Bytes): (int, nat) {
    var dot := DotIndex(s);
    if dot < |s| then (DigitsValue(s[..dot] + s[dot + 1..]), |s| - dot - 1) else (DigitsValue(s), 0)
  }

  function ReadDecimal(s: Bytes): (int, nat) {
    if s != [] && s[0] == DASH then
      var (v, scale) := ReadUnsigned(s[1..]);
      (-v, scale)
    else ReadUnsigned(s)
  }

  function DotIndex(s: Bytes): (i: nat)
    ensures i <= |s|
  {
    if s == [] || s[0] == DOT then 0 else 1 + DotIndex(s[1..])
  }

  lemma {:induction false} DotIndexIs(s: Bytes, rest: Bytes)
    requires DOT !in s
    ensures DotIndex(s + rest) == |s| + DotIndex(rest)
  {
    if s == [] {
      assert s + rest == rest;
    } else {
      assert s[0] in s;
      assert (s + rest)[1..] == s[1..] + rest;
      DotIndexIs(s[1..], rest);
    }
  }

  /** Reading a DECIMAL literal back gives the unscaled value and, for a positive scale, the scale. */
  lemma DecimalDenotes(unscaled: int, scale: int)
    ensures ReadDecimal(DecimalText(unscaled, scale)) == (unscaled, if scale > 0 then scale else 0)
  {
    var n := if unscaled < 0 then -unscaled else unscaled;
    DigitsDenote(n);
    var magnitude := Digits(n);
    if scale <= 0 {
      IntegerDenotes(magnitude);
      SignDenotes(unscaled < 0, magnitude);
    } else {
      var digits := Padded(magnitude, scale + 1);
      PaddedDenotes(magnitude, if |magnitude| < scale + 1 then scale + 1 - |magnitude| else 0);
      PointDenotes(digits, scale);
      SignDenotes(unscaled < 0, WithPoint(digits, scale));
    }
  }

  lemma SignDenotes(negative: bool, s: Bytes)
    requires s != [] && s[0] != DASH
    ensures ReadDecimal(Minus(negative) + s)
            == if negative then (-ReadUnsigned(s).0, ReadUnsigned(s).1) else ReadUnsigned(s)
  {
    assert negative ==> (Minus(negative) + s)[1..] == s;
    assert !negative ==> Minus(negative) + s == s;
  }

  lemma {:induction false} IntegerDenotes(digits: Bytes)
    requires digits != [] && AllDigits(digits)
    ensures digits[0] != DASH && ReadUnsigned(digits) == (DigitsValue(digits), 0)
  {
    DotIndexIs(digits, []);
    assert digits + [] == digits;
  }

  lemma {:induction false} PointDenotes(digits: Bytes, scale: nat)
    requires 0 < scale < |digits| && AllDigits(digits)
    ensures WithPoint(digits, scale)[0] != DASH
    ensures ReadUnsigned(WithPoint(digits, scale)) == (DigitsValue(digits), scale)
  {
    hide DigitsValue;
    var i := |digits| - scale;
    var s := WithPoint(digits, scale);
    PointIndex(digits, i);
    CutPoint(digits, i);
    assert s[0] == digits[0];
  }

  lemma PointIndex(digits: Bytes, i: nat)
    requires i <= |digits| && AllDigits(digits)
    ensures DotIndex(digits[..i] + [DOT] + digits[i..]) == i
  {
    var front, back := digits[..i], [DOT] + digits[i..];
    assert DOT !in front;
    assert DotIndex(back) == 0;
    hide DotIndex, AllDigits;
    DotIndexIs(front, back);
    assert digits[..i] + [DOT] + digits[i..] == front + back;
  }

  lemma CutPoint(digits: Bytes, i: nat)
    requires i <= |digits|
    ensures var s := digits[..i] + [DOT] + digits[i..]; s[..i] + s[i + 1..] == digits
  {
  }
}
