/** The wire form of logical types: mutually recursive with their extra type information. */
module TypeCodec {
  import opened Numbers
  import opened Wire
  import opened QuackTypes

  function Kind(info: ExtraTypeInfo): Int64 {
    match info
    case GenericInfo(kind, _) => kind
    case DecimalInfo(_, _, _) => 2
    case StringInfo(_, _) => 3
    case ListInfo(_, _) => 4
    case StructInfo(_, _) => 5
    case EnumInfo(_, _) => 6
    case UnboundInfo(_, _, _, _) => 7
    case AggregateStateInfo(_, _, _, _) => 8
    case ArrayInfo(_, _, _) => 9
    case AnyInfo(_, _, _) => 10
    case IntegerLiteralInfo(_) => 11
    case TemplateInfo(_, _) => 12
    case GeoInfo(_, _) => 13
  }

  // ---- writing ----

  /** A Go int or length written as ULEB128: the conversion to uint64 wraps a negative number. */
  function Int(v: int, tail: Bytes): Bytes {
    Uleb(v % TWO_64, tail)
  }

  /** A string field that is left out when the string is empty. */
  function NonEmpty(id: nat, text: Text, tail: Bytes): Bytes {
    if text == [] then tail else Field(id, Blob(text, tail))
  }

  function Type(t: LogicalType, tail: Bytes): Bytes
    decreases t, 0
  {
    Field(100, Int(t.id,
      match t.info
      case None => End(tail)
      case Some(info) => Field(101, Bool(true, Info(info, End(tail))))))
  }

  function Info(info: ExtraTypeInfo, tail: Bytes): Bytes
    decreases info, 1
  {
    Field(100, Int(Kind(info), NonEmpty(101, info.alias, Payload(info, End(tail)))))
  }

  function Payload(info: ExtraTypeInfo, tail: Bytes): Bytes
    decreases info, 0
  {
    match info
    case GenericInfo(_, _) => tail
    case DecimalInfo(width, scale, _) => Field(200, Int(width, Field(201, Int(scale, tail))))
    case StringInfo(collation, _) => Field(200, Blob(collation, tail))
    case ListInfo(child, _) => Field(200, Type(child, tail))
    case StructInfo(children, _) => Field(200, Int(|children|, Children(children, tail)))
    case EnumInfo(values, _) => Field(200, Int(|values|, Field(201, Int(|values|, Texts(values, tail)))))
    case AggregateStateInfo(name, returnType, arguments, _) =>
      Field(200, Blob(name, Field(201, Type(returnType, Field(202, Int(|arguments|, Types(arguments, tail)))))))
    case ArrayInfo(child, size, _) => Field(200, Type(child, Field(201, Int(size, tail))))
    case AnyInfo(target, castScore, _) => Field(200, Type(target, Field(201, Int(Score(castScore), tail))))
    case TemplateInfo(name, _) => Field(200, Blob(name, tail))
    case IntegerLiteralInfo(_) => tail
    case GeoInfo(crs, _) => Field(200, NonEmpty(100, crs, End(tail)))
    case UnboundInfo(name, catalog, schema, _) =>
      NonEmpty(200, name, NonEmpty(201, catalog, NonEmpty(202, schema, tail)))
  }

  /** A missing cast score is written as zero, and only the low 64 bits of its magnitude are kept. */
  function Score(castScore: Option<int>): int {
    match castScore
    case None => 0
    case Some(v) => (if v < 0 then -v else v) % TWO_64
  }

  function Children(children: seq<ChildType>, tail: Bytes): Bytes
    decreases children, 0
  {
    if children == [] then tail
    else
      var child := children[0];
      Field(0, Blob(child.name, Field(1, Type(child.typ, End(Children(children[1..], tail))))))
  }

  function Types(types: seq<LogicalType>, tail: Bytes): Bytes
    decreases types, 0
  {
    if types == [] then tail else Type(types[0], Types(types[1..], tail))
  }

  function Texts(texts: seq<Text>, tail: Bytes): Bytes {
    if texts == [] then tail else Blob(texts[0], Texts(texts[1..], tail))
  }

  // ---- reading ----

  function OptionalText(id: nat, s: Bytes): (r: Read<Text>)
    ensures !r.Panic?
    ensures r.Ok? ==> |r.rest| <= |s|
  {
    var (present, s1) :- Optional(id, s);
    if present then ReadBlob(s1) else Ok([], s1)
  }

  function OptionalInt(id: nat, s: Bytes): (r: Read<Int64>)
    ensures !r.Panic?
    ensures r.Ok? ==> |r.rest| <= |s|
  {
    var (present, s1) :- Optional(id, s);
    if present then ReadUlebInt(s1) else Ok(0, s1)
  }

  function RequiredText(id: nat, s: Bytes): (r: Read<Text>)
    ensures !r.Panic?
    ensures r.Ok? ==> |r.rest| < |s|
  {
    var (_, s1) :- Require(id, s);
    ReadBlob(s1)
  }

  function RequiredInt(id: nat, s: Bytes): (r: Read<nat>)
    ensures !r.Panic?
    ensures r.Ok? ==> |r.rest| < |s| && r.value <= MAX_INT
  {
    var (_, s1) :- Require(id, s);
    ReadUlebInt(s1)
  }

  function ReadTexts(n: nat, s: Bytes): (r: Read<seq<Text>>)
    ensures !r.Panic?
    ensures r.Ok? ==> |r.rest| <= |s| && |r.value| == n
  {
    if n == 0 then Ok([], s)
    else
      var (head, s1) :- ReadBlob(s);
      var (rest, s2) :- ReadTexts(n - 1, s1);
      Ok([head] + rest, s2)
  }

  function ReadType(s: Bytes): (r: Read<LogicalType>)
    ensures !r.Panic?
    ensures r.Ok? ==> |r.rest| < |s|
    decreases |s|, 0
  {
    var (id, s1) :- RequiredInt(100, s);
    var (present, s2) :- Optional(101, s1);
    if !present then
      var (_, s3) :- ReadEnd(s2);
      Ok(LogicalType(id, None), s3)
    else
      var (nonNull, s3) :- ReadBool(s2);
      if !nonNull then
        var (_, s4) :- ReadEnd(s3);
        Ok(LogicalType(id, None), s4)
      else
        var (info, s4) :- ReadInfo(s3);
        var (_, s5) :- ReadEnd(s4);
        Ok(LogicalType(id, Some(info)), s5)
  }

  function ReadInfo(s: Bytes): (r: Read<ExtraTypeInfo>)
    ensures !r.Panic?
    ensures r.Ok? ==> |r.rest| < |s|
    decreases |s|, 0
  {
    var (kind, s1) :- RequiredInt(100, s);
    var (alias, s2) :- OptionalText(101, s1);
    var (_, s3) :- SkipExtension(s2);
    var (info, s4) :- ReadPayload(kind, alias, s3);
    var (_, s5) :- ReadEnd(s4);
    Ok(info, s5)
  }

  /** Field 103 holds extension metadata: its presence flag is read and nothing else. */
  function SkipExtension(s: Bytes): (r: Read<()>)
    ensures !r.Panic?
    ensures r.Ok? ==> |r.rest| <= |s|
  {
    var (present, s1) :- Optional(103, s);
    if present then
      var (_, s2) :- ReadBool(s1);
      Ok((), s2)
    else Ok((), s1)
  }

  function ReadPayload(kind: nat, alias: Text, s: Bytes): (r: Read<ExtraTypeInfo>)
    requires kind <= MAX_INT
    ensures !r.Panic?
    ensures r.Ok? ==> |r.rest| <= |s|
    ensures r.Ok? && 2 <= kind <= 13 ==> !r.value.GenericInfo?
    decreases |s|, 1
  {
    match kind
    case 2 => ReadDecimal(alias, s)
    case 3 => ReadString(alias, s)
    case 4 => ReadList(alias, s)
    case 5 => ReadStruct(alias, s)
    case 6 => ReadEnum(alias, s)
    case 7 => ReadUnbound(alias, s)
    case 8 => ReadAggregateState(alias, s)
    case 9 => ReadArray(alias, s)
    case 10 => ReadAny(alias, s)
    case 11 => Ok(IntegerLiteralInfo(alias), s)
    case 12 => ReadTemplate(alias, s)
    case 13 => ReadGeo(alias, s)
    case _ => Ok(GenericInfo(kind, alias), s)
  }

  function ReadDecimal(alias: Text, s: Bytes): (r: Read<ExtraTypeInfo>)
    ensures !r.Panic?
    ensures r.Ok? ==> |r.rest| <= |s| && r.value.DecimalInfo?
  {
    var (width, s1) :- OptionalInt(200, s);
    var (scale, s2) :- OptionalInt(201, s1);
    Ok(DecimalInfo(width, scale, alias), s2)
  }

  function ReadString(alias: Text, s: Bytes): (r: Read<ExtraTypeInfo>)
    ensures !r.Panic?
    ensures r.Ok? ==> |r.rest| <= |s| && r.value.StringInfo?
  {
    var (collation, s1) :- OptionalText(200, s);
    Ok(StringInfo(collation, alias), s1)
  }

  function ReadList(alias: Text, s: Bytes): (r: Read<ExtraTypeInfo>)
    ensures !r.Panic?
    ensures r.Ok? ==> |r.rest| <= |s| && r.value.ListInfo?
    decreases |s|, 0
  {
    var (_, s1) :- Require(200, s);
    var (child, s2) :- ReadType(s1);
    Ok(ListInfo(child, alias), s2)
  }

  function ReadStruct(alias: Text, s: Bytes): (r: Read<ExtraTypeInfo>)
    ensures !r.Panic?
    ensures r.Ok? ==> |r.rest| <= |s| && r.value.StructInfo?
    decreases |s|, 0
  {
    var (present, s1) :- Optional(200, s);
    if present then
      var (n, s2) :- ReadUlebInt(s1);
      var (children, s3) :- ReadChildren(n, s2);
      Ok(StructInfo(children, alias), s3)
    else Ok(StructInfo([], alias), s1)
  }

  function ReadEnum(alias: Text, s: Bytes): (r: Read<ExtraTypeInfo>)
    ensures !r.Panic?
    ensures r.Ok? ==> |r.rest| <= |s| && r.value.EnumInfo?
  {
    var (count, s1) :- RequiredInt(200, s);
    var (n, s2) :- RequiredInt(201, s1);
    var (values, s3) :- ReadTexts(n, s2);
    var (_, s4) :- if n != count then AssertEof(s3) else Ok((), s3);
    Ok(EnumInfo(values, alias), s4)
  }

  function ReadUnbound(alias: Text, s: Bytes): (r: Read<ExtraTypeInfo>)
    ensures !r.Panic?
    ensures r.Ok? ==> |r.rest| <= |s| && r.value.UnboundInfo?
  {
    var (name, s1) :- OptionalText(200, s);
    var (catalog, s2) :- OptionalText(201, s1);
    var (schema, s3) :- OptionalText(202, s2);
    Ok(UnboundInfo(name, catalog, schema, alias), s3)
  }

  function ReadAggregateState(alias: Text, s: Bytes): (r: Read<ExtraTypeInfo>)
    ensures !r.Panic?
    ensures r.Ok? ==> |r.rest| <= |s| && r.value.AggregateStateInfo?
    decreases |s|, 0
  {
    var (name, s1) :- RequiredText(200, s);
    var (_, s2) :- Require(201, s1);
    var (returnType, s3) :- ReadType(s2);
    var (n, s4) :- RequiredInt(202, s3);
    var (arguments, s5) :- ReadTypes(n, s4);
    Ok(AggregateStateInfo(name, returnType, arguments, alias), s5)
  }

  function ReadArray(alias: Text, s: Bytes): (r: Read<ExtraTypeInfo>)
    ensures !r.Panic?
    ensures r.Ok? ==> |r.rest| <= |s| && r.value.ArrayInfo?
    decreases |s|, 0
  {
    var (_, s1) :- Require(200, s);
    var (child, s2) :- ReadType(s1);
    var (size, s3) :- RequiredInt(201, s2);
    Ok(ArrayInfo(child, size, alias), s3)
  }

  function ReadAny(alias: Text, s: Bytes): (r: Read<ExtraTypeInfo>)
    ensures !r.Panic?
    ensures r.Ok? ==> |r.rest| <= |s| && r.value.AnyInfo?
    decreases |s|, 0
  {
    var (_, s1) :- Require(200, s);
    var (target, s2) :- ReadType(s1);
    var (_, s3) :- Require(201, s2);
    var (score, s4) :- ReadUleb(s3);
    Ok(AnyInfo(target, Some(score), alias), s4)
  }

  function ReadTemplate(alias: Text, s: Bytes): (r: Read<ExtraTypeInfo>)
    ensures !r.Panic?
    ensures r.Ok? ==> |r.rest| <= |s| && r.value.TemplateInfo?
  {
    var (name, s1) :- OptionalText(200, s);
    Ok(TemplateInfo(name, alias), s1)
  }

  function ReadGeo(alias: Text, s: Bytes): (r: Read<ExtraTypeInfo>)
    ensures !r.Panic?
    ensures r.Ok? ==> |r.rest| <= |s| && r.value.GeoInfo?
  {
    var (present, s1) :- Optional(200, s);
    if present then
      var (crs, s2) :- OptionalText(100, s1);
      var (_, s3) :- ReadEnd(s2);
      Ok(GeoInfo(crs, alias), s3)
    else Ok(GeoInfo([], alias), s1)
  }

  function ReadChildren(n: nat, s: Bytes): (r: Read<seq<ChildType>>)
    ensures !r.Panic?
    ensures r.Ok? ==> |r.rest| <= |s| && |r.value| == n
    decreases |s|, 1
  {
    if n == 0 then Ok([], s)
    else
      var (child, s1) :- ReadChild(s);
      var (rest, s2) :- ReadChildren(n - 1, s1);
      Ok([child] + rest, s2)
  }

  function ReadChild(s: Bytes): (r: Read<ChildType>)
    ensures !r.Panic?
    ensures r.Ok? ==> |r.rest| <= |s|
    decreases |s|, 0
  {
    var (name, s1) :- RequiredText(0, s);
    var (_, s2) :- Require(1, s1);
    var (typ, s3) :- ReadType(s2);
    var (_, s4) :- ReadEnd(s3);
    Ok(ChildType(name, typ), s4)
  }

  function ReadTypes(n: nat, s: Bytes): (r: Read<seq<LogicalType>>)
    ensures !r.Panic?
    ensures r.Ok? ==> |r.rest| <= |s| && |r.value| == n
    decreases |s|, 1
  {
    if n == 0 then Ok([], s)
    else
      var (head, s1) :- ReadType(s);
      var (rest, s2) :- ReadTypes(n - 1, s1);
      Ok([head] + rest, s2)
  }

  // ---- which types survive the wire ----

  /** Every int is non-negative, an ANY cast score is present and fits uint64, a Generic kind is no specific kind. */
  predicate Portable(t: LogicalType)
    decreases t
  {
    t.id >= 0 && (t.info.Some? ==> PortableInfo(t.info.value))
  }

  predicate PortableInfo(info: ExtraTypeInfo)
    decreases info
  {
    match info
    case GenericInfo(kind, _) => 0 <= kind < 2 || 13 < kind
    case DecimalInfo(width, scale, _) => width >= 0 && scale >= 0
    case ListInfo(child, _) => Portable(child)
    case StructInfo(children, _) => forall child | child in children :: Portable(child.typ)
    case AggregateStateInfo(_, returnType, arguments, _) =>
      Portable(returnType) && forall t | t in arguments :: Portable(t)
    case ArrayInfo(child, size, _) => Portable(child) && size >= 0
    case AnyInfo(target, castScore, _) => Portable(target) && castScore.Some? && 0 <= castScore.value < TWO_64
    case _ => true
  }
}
