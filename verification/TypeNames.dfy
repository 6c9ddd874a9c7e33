/** The SQL names of column types, read on their own, against the types that ingest sends. */
module TypeNames {
  import opened Numbers
  import opened QuackTypes
  import opened BulkIngest

  /** The number of the type that a SQL name without parameters stands for. */
  function NamedType(name: string): Option<Int64> {
    if name == "BOOLEAN" then Some(10)
    else if name == "TINYINT" then Some(11)
    else if name == "SMALLINT" then Some(12)
    else if name == "INTEGER" then Some(13)
    else if name == "BIGINT" then Some(14)
    else if name == "DATE" then Some(15)
    else if name == "TIMESTAMP" then Some(19)
    else if name == "FLOAT" then Some(22)
    else if name == "DOUBLE" then Some(23)
    else if name == "VARCHAR" then Some(25)
    else if name == "BLOB" then Some(26)
    else if name == "UTINYINT" then Some(28)
    else if name == "USMALLINT" then Some(29)
    else if name == "UINTEGER" then Some(30)
    else if name == "UBIGINT" then Some(31)
    else if name == "TIMESTAMP WITH TIME ZONE" then Some(32)
    else None
  }

  predicate DigitChar(c: char) {
    '0' <= c <= '9'
  }

  predicate AllDigitChars(s: string) {
    forall i | 0 <= i < |s| :: DigitChar(s[i])
  }

  function NumberOf(s: string): int {
    if s == "" then 0 else 10 * NumberOf(s[..|s| - 1]) + (s[|s| - 1] as int - '0' as int)
  }

  function IndexOfChar(s: string, c: char): (i: nat)
    ensures i <= |s|
  {
    if s == "" || s[0] == c then 0 else 1 + IndexOfChar(s[1..], c)
  }

  /** The two numbers between the brackets of DECIMAL(p, s). */
  function DecimalParameters(name: string): Option<(int, int)> {
    if |name| < 9 || name[..8] != "DECIMAL(" then None
    else
      var rest := name[8..];
      var comma := IndexOfChar(rest, ',');
      var close := IndexOfChar(rest, ')');
      if comma + 2 <= close < |rest| && rest[comma..comma + 2] == ", "
      then Some((NumberOf(rest[..comma]), NumberOf(rest[comma + 2..close])))
      else None
  }

  /** The logical type that a column of the named type has. */
  function TypeOfName(name: string): Option<LogicalType> {
    match DecimalParameters(name)
    case Some((precision, scale)) =>
      if 0 <= precision <= MAX_INT && 0 <= scale <= MAX_INT
      then Some(LogicalType(21, Some(DecimalInfo(precision, scale, [])))) else None
    case None => match NamedType(name) case Some(id) => Some(LogicalType(id, None)) case None => None
  }

  lemma {:induction false} NatTextMeans(n: nat)
    ensures AllDigitChars(NatText(n)) && NumberOf(NatText(n)) == n
  {
    DigitMeans(n % 10);
    var s := NatText(n);
    if n >= 10 {
      NatTextMeans(n / 10);
      assert s[..|s| - 1] == NatText(n / 10);
    } else {
      assert s[..0] == "";
    }
  }

  lemma DigitMeans(d: nat)
    requires d < 10
    ensures DigitChar("0123456789"[d]) && "0123456789"[d] as int - '0' as int == d
  {
  }

  lemma {:induction false} IndexAfterDigits(s: string, c: char, rest: string)
    requires AllDigitChars(s) && !DigitChar(c)
    ensures IndexOfChar(s + rest, c) == |s| + IndexOfChar(rest, c)
  {
    if s == "" {
      assert s + rest == rest;
    } else {
      assert (s + rest)[1..] == s[1..] + rest;
      IndexAfterDigits(s[1..], c, rest);
    }
  }

  lemma {:induction false} DecimalNameMeans(precision: nat, scale: nat)
    ensures DecimalParameters("DECIMAL(" + NatText(precision) + ", " + NatText(scale) + ")")
            == Some((precision as int, scale as int))
  {
    hide NumberOf, NatText;
    var p, q := NatText(precision), NatText(scale);
    NatTextMeans(precision);
    NatTextMeans(scale);
    var tail := ", " + q + ")";
    var rest := p + tail;
    var name := "DECIMAL(" + NatText(precision) + ", " + NatText(scale) + ")";
    assert name == "DECIMAL(" + rest;
    assert name[..8] == "DECIMAL(" && name[8..] == rest;
    hide IndexOfChar;
    IndexAfterDigits(p, ',', tail);
    IndexAfterDigits(p, ')', tail);
    TailIndices(q);
    assert rest[..|p|] == p && rest[|p|..|p| + 2] == ", " && rest[|p| + 2..|p| + 2 + |q|] == q;
  }

  lemma {:induction false} TailIndices(q: string)
    requires AllDigitChars(q)
    ensures var tail := ", " + q + ")"; IndexOfChar(tail, ',') == 0 && IndexOfChar(tail, ')') == 2 + |q|
  {
    var tail := ", " + q + ")";
    assert tail[1..] == " " + q + ")" && (" " + q + ")")[1..] == q + ")";
    IndexAfterDigits(q, ')', ")");
  }

  /** CREATE TABLE names for every Arrow type exactly the type whose values are then sent. */
  lemma NamesDenote(typ: ArrowType)
    requires typ.ADecimal? ==> typ.precision <= MAX_INT && typ.scale <= MAX_INT
    ensures SqlTypeFor(typ).Some? <==> LogicalTypeFor(typ).Some?
    ensures SqlTypeFor(typ).Some? ==> TypeOfName(SqlTypeFor(typ).value) == LogicalTypeFor(typ)
  {
    hide DecimalParameters, NamedType;
    if typ.ADecimal? {
      DecimalNameMeans(typ.precision, typ.scale);
    } else if SqlTypeFor(typ).Some? {
      NoDecimal(typ);
      if typ.AInt8? || typ.AInt16? || typ.AInt32? || typ.AInt64? || typ.AUint8? || typ.AUint16? || typ.AUint32? {
        IntegerName(typ);
      } else {
        OtherName(typ);
      }
    }
  }

  lemma IntegerName(typ: ArrowType)
    requires typ.AInt8? || typ.AInt16? || typ.AInt32? || typ.AInt64? || typ.AUint8? || typ.AUint16? || typ.AUint32?
    ensures SqlTypeFor(typ).Some? && LogicalTypeFor(typ).Some?
    ensures NamedType(SqlTypeFor(typ).value) == Some(LogicalTypeFor(typ).value.id)
  {
  }

  lemma OtherName(typ: ArrowType)
    requires SqlTypeFor(typ).Some? && !typ.ADecimal?
    requires !typ.AInt8? && !typ.AInt16? && !typ.AInt32? && !typ.AInt64?
    requires !typ.AUint8? && !typ.AUint16? && !typ.AUint32?
    ensures LogicalTypeFor(typ).Some? && NamedType(SqlTypeFor(typ).value) == Some(LogicalTypeFor(typ).value.id)
  {
  }

  lemma NoDecimal(typ: ArrowType)
    requires !typ.ADecimal? && SqlTypeFor(typ).Some?
    ensures DecimalParameters(SqlTypeFor(typ).value).None?
  {
    var name := SqlTypeFor(typ).value;
    if |name| >= 9 {
      assert name[7] != '(';
      assert name[..8][7] == name[7];
    }
  }
}
