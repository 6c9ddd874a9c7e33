/** What a SQL literal means, read off its text alone, and that rendering a value writes exactly that value. */
module LiteralMeaning {
  import opened Numbers
  import opened Params
  import opened Literals

  /** A number is unscaled / 10^places. The text of a double or of a typed literal is taken as it stands. */
  datatype Meaning =
    | NullValue
    | Truth(b: bool)
    | Number(unscaled: int, places: nat)
    | Characters(text: Bytes)
    | Blob(bytes: Bytes)
    | Double(digits: Bytes)
    | Typed(keyword: Bytes, body: Bytes)

  const NULL_WORD: Bytes := [0x4E, 0x55, 0x4C, 0x4C]
  const TRUE_WORD: Bytes := [0x54, 0x52, 0x55, 0x45]
  const FALSE_WORD: Bytes := [0x46, 0x41, 0x4C, 0x53, 0x45]
  const BLOB_CAST: Bytes := [0x3A, 0x3A, 0x42, 0x4C, 0x4F, 0x42]
  const DOUBLE_CAST: Bytes := [0x3A, 0x3A, 0x44, 0x4F, 0x55, 0x42, 0x4C, 0x45]

  predicate EndsWith(s: Bytes, suffix: Bytes) {
    |s| >= |suffix| && s[|s| - |suffix|..] == suffix
  }

  /** A hexadecimal digit in upper case. */
  function Nibble(c: Byte): Option<nat> {
    if 0x30 <= c <= 0x39 then Some(c - 0x30)
    else if 0x41 <= c <= 0x46 then Some(c - 0x41 + 10)
    else None
  }

  /** Groups of a backslash, an x and two hexadecimal digits, one byte each. */
  function ReadHex(s: Bytes): Option<Bytes> {
    if s == [] then Some([])
    else if |s| < 4 || s[0] != 0x5C || s[1] != 0x78 then None
    else
      match (Nibble(s[2]), Nibble(s[3]), ReadHex(s[4..]))
      case (Some(high), Some(low), Some(rest)) => Some([16 * high + low] + rest)
      case _ => None
  }

  function FirstSpace(s: Bytes): (i: nat)
    ensures i <= |s|
  {
    if s == [] || s[0] == 0x20 then 0 else 1 + FirstSpace(s[1..])
  }

  /** A quoted text by itself is a string, before a cast to BLOB it is the bytes that its escapes spell. */
  function ReadQuoted(s: Bytes): Option<Meaning> {
    match Unquote(s)
    case Some((text, rest)) =>
      if rest == [] then Some(Characters(text))
      else if rest == BLOB_CAST then
        (match ReadHex(text) case Some(bytes) => Some(Blob(bytes)) case None => None)
      else None
    case None => None
  }

  /** A keyword, a space and a quoted body. */
  function ReadTyped(s: Bytes): Option<Meaning> {
    var i := FirstSpace(s);
    if i + 1 < |s| && s[i + 1] == QUOTE then
      match Unquote(s[i + 2..])
      case Some((body, rest)) => if rest == [] then Some(Meaning.Typed(s[..i], body)) else None
      case None => None
    else None
  }

  predicate NumberStart(c: Byte) {
    c == DASH || 0x30 <= c <= 0x39
  }

  function ReadLiteral(s: Bytes): Option<Meaning> {
    if s == [] then None
    else if s == NULL_WORD then Some(NullValue)
    else if s == TRUE_WORD then Some(Truth(true))
    else if s == FALSE_WORD then Some(Truth(false))
    else if s[0] == QUOTE then ReadQuoted(s[1..])
    else if EndsWith(s, DOUBLE_CAST) then Some(Double(s[..|s| - |DOUBLE_CAST|]))
    else if s[|s| - 1] == QUOTE then ReadTyped(s)
    else if NumberStart(s[0]) then
      var (unscaled, places) := ReadDecimal(s);
      Some(Number(unscaled, places))
    else None
  }

  /** What the bound value is. A decimal of negative scale is written without its scale. */
  function MeaningOf(v: Scalar): Meaning {
    match v
    case Null => NullValue
    case Boolean(b) => Truth(b)
    case SignedInt(n) => Number(n, 0)
    case UnsignedInt(u) => Number(u, 0)
    case Float(digits) => Double(digits)
    case String(text) => Characters(text)
    case Binary(bytes) => Blob(bytes)
    case Decimal(unscaled, scale) => Number(unscaled, if scale > 0 then scale else 0)
    case Typed(keyword, body) => Meaning.Typed(keyword, body)
  }

  // ---- rendering writes what the value means ----

  /** A keyword of a typed literal is one word. */
  predicate OneWord(v: Scalar) {
    v.Typed? ==> SPACE !in v.keyword
  }

  /** Reading the literal of any bound value gives back the value. */
  lemma RenderedMeans(v: Scalar)
    requires ScalarOk(v) && OneWord(v)
    ensures ReadLiteral(RenderLiteral(v)) == Some(MeaningOf(v))
  {
    match v {
      case Null | Boolean(_) => WordMeans(v);
      case SignedInt(n) => NumberMeans(n, 0);
      case UnsignedInt(u) =>
        NumberMeans(u, 0);
        assert [] + Digits(u) == Digits(u);
      case Decimal(unscaled, scale) => NumberMeans(unscaled, scale);
      case Float(digits) => DoubleMeans(digits);
      case String(text) => StringMeans(text);
      case Binary(bytes) => BinaryMeans(bytes);
      case Typed(keyword, body) => TypedMeans(keyword, body);
    }
  }

  lemma WordMeans(v: Scalar)
    requires v.Null? || v.Boolean?
    ensures ReadLiteral(RenderLiteral(v)) == Some(MeaningOf(v))
  {
    assert Ascii("NULL") == NULL_WORD;
    assert Ascii("TRUE") == TRUE_WORD;
    assert Ascii("FALSE") == FALSE_WORD;
  }

  /** Digits end a number, and a digit or a minus sign starts it. */
  lemma NumberShape(unscaled: int, scale: int)
    ensures var s := DecimalText(unscaled, scale);
            s != [] && NumberStart(s[0]) && 0x30 <= s[|s| - 1] <= 0x39
  {
    hide Digits;
    var magnitude := Digits(if unscaled < 0 then -unscaled else unscaled);
    if scale > 0 {
      var digits := Padded(magnitude, scale + 1);
      var i := |digits| - scale;
      var s := WithPoint(digits, scale);
      assert s[0] == digits[0] && s[|s| - 1] == digits[|digits| - 1];
    }
  }

  lemma NumberMeans(unscaled: int, scale: int)
    ensures ReadLiteral(DecimalText(unscaled, scale))
            == Some(Number(unscaled, if scale > 0 then scale else 0))
  {
    hide DecimalText, ReadDecimal;
    NumberShape(unscaled, scale);
    DecimalDenotes(unscaled, scale);
  }

  lemma DoubleMeans(digits: Bytes)
    requires FloatText(digits)
    ensures ReadLiteral(digits + Ascii("::DOUBLE")) == Some(Double(digits))
  {
    assert Ascii("::DOUBLE") == DOUBLE_CAST;
    var s := digits + DOUBLE_CAST;
    assert s[0] == digits[0] != QUOTE;
    assert s[|s| - 8..] == DOUBLE_CAST && s[..|s| - 8] == digits;
  }

  lemma QuoteOpens(inside: Bytes)
    ensures ReadLiteral([QUOTE] + inside) == ReadQuoted(inside)
  {
    var s := [QUOTE] + inside;
    assert s[0] == QUOTE && s[1..] == inside;
  }

  lemma {:induction false} StringMeans(text: Bytes)
    ensures ReadLiteral([QUOTE] + Escape(text) + [QUOTE]) == Some(Characters(text))
  {
    var inside := Escape(text) + [QUOTE];
    assert [QUOTE] + Escape(text) + [QUOTE] == [QUOTE] + inside;
    assert inside == Escape(text) + [QUOTE] + [];
    EscapeDenotes(text, []);
    QuoteOpens(inside);
  }

  /** A body without quotes is read up to the quote that ends it. */
  lemma {:induction false} PlainBody(body: Bytes, rest: Bytes)
    requires QUOTE !in body && Peek(rest, 0) != QUOTE
    ensures Unquote(body + [QUOTE] + rest) == Some((body, rest))
  {
    var s := body + [QUOTE] + rest;
    if body == [] {
      assert s[1..] == rest;
    } else {
      assert body[0] in body;
      PlainBody(body[1..], rest);
      assert s[1..] == body[1..] + [QUOTE] + rest;
      assert body == [body[0]] + body[1..];
    }
  }

  lemma {:induction false} HexMeans(bytes: Bytes)
    ensures ReadHex(HexEscapes(bytes)) == Some(bytes)
  {
    if bytes != [] {
      var s := HexEscapes(bytes);
      HexMeans(bytes[1..]);
      assert s[4..] == HexEscapes(bytes[1..]);
      NibbleMeans(bytes[0] / 16);
      NibbleMeans(bytes[0] % 16);
      assert bytes == [bytes[0]] + bytes[1..];
    }
  }

  lemma NibbleMeans(n: nat)
    requires n < 16
    ensures Nibble(HexDigit(n)) == Some(n)
  {
  }

  lemma {:induction false} BinaryMeans(bytes: Bytes)
    ensures ReadLiteral([QUOTE] + HexEscapes(bytes) + [QUOTE] + Ascii("::BLOB")) == Some(Blob(bytes))
  {
    assert Ascii("::BLOB") == BLOB_CAST;
    var inside := HexEscapes(bytes) + [QUOTE] + BLOB_CAST;
    assert [QUOTE] + HexEscapes(bytes) + [QUOTE] + BLOB_CAST == [QUOTE] + inside;
    HexEscapesPlain(bytes);
    PlainBody(HexEscapes(bytes), BLOB_CAST);
    HexMeans(bytes);
    QuoteOpens(inside);
  }

  lemma {:induction false} SpaceFound(s: Bytes, rest: Bytes)
    requires SPACE !in s && rest != [] && rest[0] == SPACE
    ensures FirstSpace(s + rest) == |s|
  {
    if s == [] {
      assert s + rest == rest;
    } else {
      assert s[0] in s;
      assert (s + rest)[1..] == s[1..] + rest;
      SpaceFound(s[1..], rest);
    }
  }

  lemma {:induction false} TypedMeans(keyword: Bytes, body: Bytes)
    requires keyword != [] && Plain(keyword) && SPACE !in keyword && QUOTE !in body
    ensures ReadLiteral(keyword + [SPACE, QUOTE] + body + [QUOTE]) == Some(Meaning.Typed(keyword, body))
  {
    hide FirstSpace, Unquote, Plain;
    var s := keyword + [SPACE, QUOTE] + body + [QUOTE];
    var rest := [SPACE, QUOTE] + body + [QUOTE];
    assert s == keyword + rest;
    SpaceFound(keyword, rest);
    PlainBody(body, []);
    assert body + [QUOTE] + [] == body + [QUOTE];
    assert s[|keyword| + 2..] == body + [QUOTE];
    assert s[..|keyword|] == keyword;
    StartsPlain(keyword);
    assert s[0] == keyword[0] && s[|keyword| + 1] == s[|s| - 1] == QUOTE;
    QuoteEndsNoCast(s);
  }

  lemma QuoteEndsNoCast(s: Bytes)
    requires s != [] && s[|s| - 1] == QUOTE
    ensures !EndsWith(s, DOUBLE_CAST)
  {
    if |s| >= 8 {
      assert s[|s| - 8..][7] == s[|s| - 1];
    }
  }

  lemma {:induction false} StartsPlain(s: Bytes)
    requires s != [] && Plain(s)
    ensures s[0] != QUOTE
  {
  }

  /** A decimal of negative scale stands for a multiple of a power of ten; only zero is written with its value. */
  lemma {:induction false} NegativeScaleIsLost(unscaled: int, scale: int)
    requires scale < 0
    ensures ReadLiteral(RenderLiteral(Decimal(unscaled, scale))) == Some(Number(unscaled, 0))
    ensures unscaled == unscaled * Pow10(-scale) <==> unscaled == 0
  {
    RenderedMeans(Decimal(unscaled, scale));
    assert Pow10(-scale) == 10 * Pow10(-scale - 1);
    MultipleIsOther(unscaled, Pow10(-scale));
  }

  lemma MultipleIsOther(n: int, k: int)
    requires k > 1
    ensures n == n * k <==> n == 0
  {
    if n > 0 {
      MulGe(n, k - 1);
    } else if n < 0 {
      MulGe(-n, k - 1);
    }
  }
}
