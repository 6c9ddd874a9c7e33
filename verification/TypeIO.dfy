/** Logical types through the writer and the reader: the recursive methods follow the wire grammar of TypeCodec. */
module TypeIO {
  import opened Numbers
  import opened Wire
  import opened QuackTypes
  import opened TypeCodec
  import opened BinaryWriters
  import opened BinaryReaders

  // ---- writing ----

  /** `WriteULEB128(uint64(v))` for a Go int. */
  method WriteInt(w: BinaryWriter, v: int)
    modifies w`buf
    ensures w.err.Some? ==> w.buf == old(w.buf)
    ensures w.err.None? ==>
              forall rest: Bytes {:trigger w.buf + rest} :: w.buf + rest == old(w.buf) + Int(v, rest)
  {
    w.WriteULEB128(v % TWO_64);
  }

  method WriteOptionalText(w: BinaryWriter, id: nat, text: Text)
    modifies w`buf
    ensures w.err.Some? ==> w.buf == old(w.buf)
    ensures w.err.None? ==>
              forall rest: Bytes {:trigger w.buf + rest} :: w.buf + rest == old(w.buf) + NonEmpty(id, text, rest)
  {
    if text != [] {
      w.WriteFieldID(id);
      w.WriteBlob(text);
    }
  }

  method WriteTexts(w: BinaryWriter, texts: seq<Text>)
    modifies w`buf
    ensures w.err.Some? ==> w.buf == old(w.buf)
    ensures w.err.None? ==>
              forall rest: Bytes {:trigger w.buf + rest} :: w.buf + rest == old(w.buf) + Int(|texts|, Texts(texts, rest))
  {
    WriteInt(w, |texts|);
    ghost var mid := w.buf;
    assert texts[0..] == texts;
    for i := 0 to |texts|
      invariant w.err == old(w.err) && (w.err.Some? ==> w.buf == old(w.buf))
      invariant w.err.None? ==> forall rest: Bytes :: w.buf + Texts(texts[i..], rest) == mid + Texts(texts, rest)
    {
      assert texts[i..][1..] == texts[i + 1..];
      w.WriteBlob(texts[i]);
    }
  }

  method EncodeLogicalType(w: BinaryWriter, t: LogicalType)
    modifies w`buf
    ensures w.err.Some? ==> w.buf == old(w.buf)
    ensures w.err.None? ==>
              forall rest: Bytes {:trigger w.buf + rest} :: w.buf + rest == old(w.buf) + Type(t, rest)
    decreases t, 0
  {
    w.WriteFieldID(100);
    WriteInt(w, t.id);
    if t.info.Some? {
      w.WriteFieldID(101);
      w.WriteBool(true);
      EncodeExtraTypeInfo(w, t.info.value);
    }
    w.WriteEnd();
  }

  method EncodeExtraTypeInfo(w: BinaryWriter, info: ExtraTypeInfo)
    modifies w`buf
    ensures w.err.Some? ==> w.buf == old(w.buf)
    ensures w.err.None? ==>
              forall rest: Bytes {:trigger w.buf + rest} :: w.buf + rest == old(w.buf) + Info(info, rest)
    decreases info, 2
  {
    w.WriteFieldID(100);
    WriteInt(w, Kind(info));
    WriteOptionalText(w, 101, info.alias);
    EncodePayload(w, info);
    w.WriteEnd();
  }

  method EncodePayload(w: BinaryWriter, info: ExtraTypeInfo)
    modifies w`buf
    ensures w.err.Some? ==> w.buf == old(w.buf)
    ensures w.err.None? ==>
              forall rest: Bytes {:trigger w.buf + rest} :: w.buf + rest == old(w.buf) + Payload(info, rest)
    decreases info, 1
  {
    hide Payload;
    match info {
      case GenericInfo(_, _) | IntegerLiteralInfo(_) =>
        NoPayload(info);
      case DecimalInfo(_, _, _) | EnumInfo(_, _) =>
        EncodeNumbers(w, info);
      case StringInfo(_, _) | TemplateInfo(_, _) | GeoInfo(_, _) =>
        EncodeTextual(w, info);
      case UnboundInfo(_, _, _, _) =>
        EncodeUnbound(w, info);
      case ListInfo(_, _) | ArrayInfo(_, _, _) | AnyInfo(_, _, _) =>
        EncodeNested(w, info);
      case StructInfo(_, _) =>
        EncodeStruct(w, info);
      case AggregateStateInfo(_, _, _, _) =>
        EncodeAggregateState(w, info);
    }
  }

  lemma {:induction false} NoPayload(info: ExtraTypeInfo)
    requires info.GenericInfo? || info.IntegerLiteralInfo?
    ensures forall rest: Bytes {:trigger Payload(info, rest)} :: Payload(info, rest) == rest
  {
  }

  method EncodeNumbers(w: BinaryWriter, info: ExtraTypeInfo)
    requires info.DecimalInfo? || info.EnumInfo?
    modifies w`buf
    ensures w.err.Some? ==> w.buf == old(w.buf)
    ensures w.err.None? ==>
              forall rest: Bytes {:trigger w.buf + rest} :: w.buf + rest == old(w.buf) + Payload(info, rest)
  {
    w.WriteFieldID(200);
    match info {
      case DecimalInfo(width, scale, _) =>
        WriteInt(w, width);
        w.WriteFieldID(201);
        WriteInt(w, scale);
      case EnumInfo(values, _) =>
        WriteInt(w, |values|);
        w.WriteFieldID(201);
        WriteTexts(w, values);
    }
  }

  method EncodeTextual(w: BinaryWriter, info: ExtraTypeInfo)
    requires info.StringInfo? || info.TemplateInfo? || info.GeoInfo?
    modifies w`buf
    ensures w.err.Some? ==> w.buf == old(w.buf)
    ensures w.err.None? ==>
              forall rest: Bytes {:trigger w.buf + rest} :: w.buf + rest == old(w.buf) + Payload(info, rest)
  {
    match info {
      case StringInfo(collation, _) =>
        w.WriteFieldID(200);
        w.WriteBlob(collation);
      case TemplateInfo(name, _) =>
        w.WriteFieldID(200);
        w.WriteBlob(name);
      case GeoInfo(crs, _) =>
        w.WriteFieldID(200);
        EncodeCRS(w, crs);
    }
  }

  /** Field 200 with the one type that lies inside, and what the kind adds to it. */
  method EncodeNested(w: BinaryWriter, info: ExtraTypeInfo)
    requires info.ListInfo? || info.ArrayInfo? || info.AnyInfo?
    modifies w`buf
    ensures w.err.Some? ==> w.buf == old(w.buf)
    ensures w.err.None? ==>
              forall rest: Bytes {:trigger w.buf + rest} :: w.buf + rest == old(w.buf) + Payload(info, rest)
    decreases info, 0
  {
    hide Payload, Type, Score;
    NestedPayload(info);
    var inner := if info.AnyInfo? then info.target else info.child;
    w.WriteFieldID(200);
    EncodeLogicalType(w, inner);
    if !info.ListInfo? {
      w.WriteFieldID(201);
      WriteInt(w, if info.ArrayInfo? then info.size else Score(info.castScore));
    }
  }

  lemma {:induction false} NestedPayload(info: ExtraTypeInfo)
    requires info.ListInfo? || info.ArrayInfo? || info.AnyInfo?
    ensures forall rest: Bytes {:trigger Payload(info, rest)} ::
              var inner := if info.AnyInfo? then info.target else info.child;
              Payload(info, rest)
              == if info.ListInfo? then Field(200, Type(inner, rest))
                 else
                   var size := if info.ArrayInfo? then info.size else Score(info.castScore);
                   Field(200, Type(inner, Field(201, Int(size, rest))))
  {
    hide Type, Score;
  }

  method EncodeStruct(w: BinaryWriter, info: ExtraTypeInfo)
    requires info.StructInfo?
    modifies w`buf
    ensures w.err.Some? ==> w.buf == old(w.buf)
    ensures w.err.None? ==>
              forall rest: Bytes {:trigger w.buf + rest} :: w.buf + rest == old(w.buf) + Payload(info, rest)
    decreases info, 0
  {
    hide Payload, Children;
    StructPayload(info);
    w.WriteFieldID(200);
    EncodeChildTypes(w, info.children);
  }

  lemma {:induction false} StructPayload(info: ExtraTypeInfo)
    requires info.StructInfo?
    ensures forall rest: Bytes {:trigger Payload(info, rest)} ::
              Payload(info, rest) == Field(200, Int(|info.children|, Children(info.children, rest)))
  {
  }

  method EncodeAggregateState(w: BinaryWriter, info: ExtraTypeInfo)
    requires info.AggregateStateInfo?
    modifies w`buf
    ensures w.err.Some? ==> w.buf == old(w.buf)
    ensures w.err.None? ==>
              forall rest: Bytes {:trigger w.buf + rest} :: w.buf + rest == old(w.buf) + Payload(info, rest)
    decreases info, 0
  {
    hide Payload, Type, Types;
    AggregatePayload(info);
    w.WriteFieldID(200);
    w.WriteBlob(info.functionName);
    w.WriteFieldID(201);
    EncodeLogicalType(w, info.returnType);
    w.WriteFieldID(202);
    EncodeTypes(w, info.arguments);
  }

  lemma {:induction false} AggregatePayload(info: ExtraTypeInfo)
    requires info.AggregateStateInfo?
    ensures forall rest: Bytes {:trigger Payload(info, rest)} ::
              Payload(info, rest)
              == Field(200, Blob(info.functionName, Field(201, Type(info.returnType,
                       Field(202, Int(|info.arguments|, Types(info.arguments, rest)))))))
  {
  }

  method EncodeUnbound(w: BinaryWriter, info: ExtraTypeInfo)
    requires info.UnboundInfo?
    modifies w`buf
    ensures w.err.Some? ==> w.buf == old(w.buf)
    ensures w.err.None? ==>
              forall rest: Bytes {:trigger w.buf + rest} :: w.buf + rest == old(w.buf) + Payload(info, rest)
  {
    hide Payload, NonEmpty;
    var name, catalog, schema := info.name, info.catalog, info.schema;
    UnboundPayload(info);
    WriteOptionalText(w, 200, name);
    WriteOptionalText(w, 201, catalog);
    WriteOptionalText(w, 202, schema);
  }

  lemma {:induction false} UnboundPayload(info: ExtraTypeInfo)
    requires info.UnboundInfo?
    ensures forall rest: Bytes {:trigger Payload(info, rest)} ::
              Payload(info, rest)
              == NonEmpty(200, info.name, NonEmpty(201, info.catalog, NonEmpty(202, info.schema, rest)))
  {
  }

  method EncodeCRS(w: BinaryWriter, crs: Text)
    modifies w`buf
    ensures w.err.Some? ==> w.buf == old(w.buf)
    ensures w.err.None? ==>
              forall rest: Bytes {:trigger w.buf + rest} :: w.buf + rest == old(w.buf) + NonEmpty(100, crs, End(rest))
  {
    WriteOptionalText(w, 100, crs);
    w.WriteEnd();
  }

  method EncodeChildTypes(w: BinaryWriter, children: seq<ChildType>)
    modifies w`buf
    ensures w.err.Some? ==> w.buf == old(w.buf)
    ensures w.err.None? ==>
              forall rest: Bytes {:trigger w.buf + rest} ::
                w.buf + rest == old(w.buf) + Int(|children|, Children(children, rest))
    decreases children, 0
  {
    WriteInt(w, |children|);
    ghost var mid := w.buf;
    assert children[0..] == children;
    for i := 0 to |children|
      invariant w.err == old(w.err) && (w.err.Some? ==> w.buf == old(w.buf))
      invariant w.err.None? ==>
                  forall rest: Bytes :: w.buf + Children(children[i..], rest) == mid + Children(children, rest)
    {
      assert children[i..][1..] == children[i + 1..];
      w.WriteFieldID(0);
      w.WriteBlob(children[i].name);
      w.WriteFieldID(1);
      EncodeLogicalType(w, children[i].typ);
      w.WriteEnd();
    }
  }

  method EncodeTypes(w: BinaryWriter, types: seq<LogicalType>)
    modifies w`buf
    ensures w.err.Some? ==> w.buf == old(w.buf)
    ensures w.err.None? ==>
              forall rest: Bytes {:trigger w.buf + rest} :: w.buf + rest == old(w.buf) + Int(|types|, Types(types, rest))
    decreases types, 0
  {
    WriteInt(w, |types|);
    ghost var mid := w.buf;
    assert types[0..] == types;
    for i := 0 to |types|
      invariant w.err == old(w.err) && (w.err.Some? ==> w.buf == old(w.buf))
      invariant w.err.None? ==> forall rest: Bytes :: w.buf + Types(types[i..], rest) == mid + Types(types, rest)
    {
      assert types[i..][1..] == types[i + 1..];
      EncodeLogicalType(w, types[i]);
    }
  }

  // ---- reading ----

  /** A length and that many strings. */
  function TextList(s: Bytes): (r: Read<seq<Text>>)
    ensures !r.Panic?
  {
    var (n, s1) :- ReadUlebInt(s);
    ReadTexts(n, s1)
  }

  function TypeList(s: Bytes): (r: Read<seq<LogicalType>>)
    ensures !r.Panic?
  {
    var (n, s1) :- ReadUlebInt(s);
    ReadTypes(n, s1)
  }

  function ChildList(s: Bytes): (r: Read<seq<ChildType>>)
    ensures !r.Panic?
  {
    var (n, s1) :- ReadUlebInt(s);
    ReadChildren(n, s1)
  }

  method DecodeRequiredInt(r: BinaryReader, id: nat) returns (v: nat)
    requires r.Valid()
    modifies r
    ensures r.After(old(r.Now()), RequiredInt(id, old(r.Rest())), v) && v <= MAX_INT
  {
    var ok := r.RequireField(id);
    if !ok {
      return 0;
    }
    v := r.ReadULEB128Int();
  }

  method DecodeRequiredText(r: BinaryReader, id: nat) returns (v: Text)
    requires r.Valid()
    modifies r
    ensures r.After(old(r.Now()), RequiredText(id, old(r.Rest())), v)
  {
    var ok := r.RequireField(id);
    if !ok {
      return [];
    }
    v := r.ReadText();
  }

  method DecodeOptionalInt(r: BinaryReader, id: nat) returns (v: nat)
    requires r.Valid() && id > 0
    modifies r
    ensures r.After(old(r.Now()), OptionalInt(id, old(r.Rest())), v) && v <= MAX_INT
  {
    var present := r.OptionalField(id);
    if !present {
      return 0;
    }
    v := r.ReadULEB128Int();
  }

  method DecodeOptionalText(r: BinaryReader, id: nat) returns (v: Text)
    requires r.Valid() && id > 0
    modifies r
    ensures r.After(old(r.Now()), OptionalText(id, old(r.Rest())), v)
  {
    var present := r.OptionalField(id);
    if !present {
      return [];
    }
    v := r.ReadText();
  }

  method DecodeTexts(r: BinaryReader) returns (out: Slice<Text>)
    requires r.Valid()
    modifies r
    ensures r.After(old(r.Now()), TextList(old(r.Rest())), out)
  {
    hide ReadBlob, ReadUlebInt;
    var n := r.ReadULEB128Int();
    if r.err.Some? {
      return [];
    }
    ghost var whole := ReadTexts(n, r.Rest());
    ListedNone(whole);
    var items: seq<Text> := [];
    for i := 0 to n
      invariant r.Valid() && r.offset >= old(r.offset) && old(r.err.None?) && r.err.None? && |items| == i
      invariant TextList(old(r.Rest())) == whole && Listed(whole, items, ReadTexts(n - i, r.Rest()))
    {
      ghost var left := ReadTexts(n - i, r.Rest());
      var v := r.ReadText();
      if r.err.Some? {
        return [];
      }
      ListedStep(whole, items, v, left, ReadTexts(n - i - 1, r.Rest()));
      items := items + [v];
    }
    ListedAll(whole, items, r.Rest());
    return items;
  }

  method DecodeTypes(r: BinaryReader) returns (out: Slice<LogicalType>)
    requires r.Valid()
    modifies r
    ensures r.After(old(r.Now()), TypeList(old(r.Rest())), out)
    decreases |r.bytes| - r.offset, 1
  {
    hide ReadType, ReadUlebInt;
    var n := r.ReadULEB128Int();
    if r.err.Some? {
      return [];
    }
    ghost var whole := ReadTypes(n, r.Rest());
    ListedNone(whole);
    var items: seq<LogicalType> := [];
    for i := 0 to n
      invariant r.Valid() && r.offset >= old(r.offset) && old(r.err.None?) && r.err.None? && |items| == i
      invariant TypeList(old(r.Rest())) == whole && Listed(whole, items, ReadTypes(n - i, r.Rest()))
    {
      ghost var left := ReadTypes(n - i, r.Rest());
      var v := DecodeLogicalType(r);
      if r.err.Some? {
        return [];
      }
      ListedStep(whole, items, v, left, ReadTypes(n - i - 1, r.Rest()));
      items := items + [v];
    }
    ListedAll(whole, items, r.Rest());
    return items;
  }

  method DecodeChildType(r: BinaryReader) returns (c: ChildType)
    requires r.Valid()
    modifies r
    ensures r.After(old(r.Now()), ReadChild(old(r.Rest())), c)
    decreases |r.bytes| - r.offset, 1
  {
    var name := DecodeRequiredText(r, 0);
    var typ := NO_TYPE;
    var ok := r.RequireField(1);
    if ok {
      typ := DecodeLogicalType(r);
    }
    ok := r.EndObject();
    return if ok then ChildType(name, typ) else ChildType([], NO_TYPE);
  }

  method DecodeChildTypes(r: BinaryReader) returns (out: Slice<ChildType>)
    requires r.Valid()
    modifies r
    ensures r.After(old(r.Now()), ChildList(old(r.Rest())), out)
    decreases |r.bytes| - r.offset, 2
  {
    hide ReadChild, ReadUlebInt;
    var n := r.ReadULEB128Int();
    if r.err.Some? {
      return [];
    }
    ghost var whole := ReadChildren(n, r.Rest());
    ListedNone(whole);
    var items: seq<ChildType> := [];
    for i := 0 to n
      invariant r.Valid() && r.offset >= old(r.offset) && old(r.err.None?) && r.err.None? && |items| == i
      invariant ChildList(old(r.Rest())) == whole && Listed(whole, items, ReadChildren(n - i, r.Rest()))
    {
      ghost var left := ReadChildren(n - i, r.Rest());
      var v := DecodeChildType(r);
      if r.err.Some? {
        return [];
      }
      ListedStep(whole, items, v, left, ReadChildren(n - i - 1, r.Rest()));
      items := items + [v];
    }
    ListedAll(whole, items, r.Rest());
    return items;
  }

  method DecodeLogicalType(r: BinaryReader) returns (t: LogicalType)
    requires r.Valid()
    modifies r
    ensures r.After(old(r.Now()), ReadType(old(r.Rest())), t)
    ensures r.err.Some? ==> t == NO_TYPE
    decreases |r.bytes| - r.offset, 0
  {
    var id := DecodeRequiredInt(r, 100);
    var info := None;
    var present := r.OptionalField(101);
    if present {
      var nonNull := r.ReadBool();
      if nonNull {
        var v := DecodeExtraTypeInfo(r);
        info := Some(v);
      }
    }
    var ok := r.EndObject();
    return if ok then LogicalType(id, info) else NO_TYPE;
  }

  /** Stands for the nil that is handed back beside an error. */
  const NO_INFO: ExtraTypeInfo := GenericInfo(0, [])

  method DecodeExtraTypeInfo(r: BinaryReader) returns (info: ExtraTypeInfo)
    requires r.Valid()
    modifies r
    ensures r.After(old(r.Now()), ReadInfo(old(r.Rest())), info)
    ensures r.err.Some? ==> info == NO_INFO
    decreases |r.bytes| - r.offset, 5
  {
    var kind := DecodeRequiredInt(r, 100);
    var alias := DecodeOptionalText(r, 101);
    SkipExtensionInfo(r);
    info := DecodePayload(r, kind, alias);
    var ok := r.EndObject();
    if !ok {
      info := NO_INFO;
    }
  }

  method SkipExtensionInfo(r: BinaryReader)
    requires r.Valid()
    modifies r
    ensures r.After(old(r.Now()), SkipExtension(old(r.Rest())), ())
  {
    var present := r.OptionalField(103);
    if present {
      var _ := r.ReadBool();
    }
  }

  method DecodePayload(r: BinaryReader, kind: nat, alias: Text) returns (info: ExtraTypeInfo)
    requires r.Valid() && kind <= MAX_INT
    modifies r
    ensures r.After(old(r.Now()), ReadPayload(kind, alias, old(r.Rest())), info)
    decreases |r.bytes| - r.offset, 4
  {
    match kind
    case 2 => info := DecodeDecimal(r, alias);
    case 3 =>
      var collation := DecodeOptionalText(r, 200);
      info := StringInfo(collation, alias);
    case 4 => info := DecodeList(r, alias);
    case 5 => info := DecodeStruct(r, alias);
    case 6 => info := DecodeEnum(r, alias);
    case 7 => info := DecodeUnbound(r, alias);
    case 8 => info := DecodeAggregateState(r, alias);
    case 9 => info := DecodeArray(r, alias);
    case 10 => info := DecodeAny(r, alias);
    case 11 => info := IntegerLiteralInfo(alias);
    case 12 =>
      var name := DecodeOptionalText(r, 200);
      info := TemplateInfo(name, alias);
    case 13 => info := DecodeGeo(r, alias);
    case _ => info := GenericInfo(kind, alias);
  }

  /** Required field 200 holding one type. */
  method DecodeChildField(r: BinaryReader) returns (t: LogicalType)
    requires r.Valid()
    modifies r
    ensures r.After(old(r.Now()), ReadChildField(old(r.Rest())), t)
    decreases |r.bytes| - r.offset, 1
  {
    var ok := r.RequireField(200);
    if !ok {
      return NO_TYPE;
    }
    t := DecodeLogicalType(r);
  }

  function ReadChildField(s: Bytes): (r: Read<LogicalType>)
    ensures !r.Panic?
  {
    var (_, s1) :- Require(200, s);
    ReadType(s1)
  }

  method DecodeList(r: BinaryReader, alias: Text) returns (info: ExtraTypeInfo)
    requires r.Valid()
    modifies r
    ensures r.After(old(r.Now()), ReadList(alias, old(r.Rest())), info)
    decreases |r.bytes| - r.offset, 3
  {
    var child := DecodeChildField(r);
    info := ListInfo(child, alias);
  }

  method DecodeStruct(r: BinaryReader, alias: Text) returns (info: ExtraTypeInfo)
    requires r.Valid()
    modifies r
    ensures r.After(old(r.Now()), ReadStruct(alias, old(r.Rest())), info)
    decreases |r.bytes| - r.offset, 3
  {
    var children: Slice<ChildType> := [];
    var present := r.OptionalField(200);
    if present {
      children := DecodeChildTypes(r);
    }
    info := StructInfo(children, alias);
  }

  method DecodeArray(r: BinaryReader, alias: Text) returns (info: ExtraTypeInfo)
    requires r.Valid()
    modifies r
    ensures r.After(old(r.Now()), ReadArray(alias, old(r.Rest())), info)
    decreases |r.bytes| - r.offset, 3
  {
    var child := DecodeChildField(r);
    var size := DecodeRequiredInt(r, 201);
    info := ArrayInfo(child, size, alias);
  }

  method DecodeDecimal(r: BinaryReader, alias: Text) returns (info: ExtraTypeInfo)
    requires r.Valid()
    modifies r
    ensures r.After(old(r.Now()), ReadDecimal(alias, old(r.Rest())), info)
  {
    var width := DecodeOptionalInt(r, 200);
    var scale := DecodeOptionalInt(r, 201);
    info := DecimalInfo(width, scale, alias);
  }

  /** A value count that differs from the list's own length forces an error, except at the end of input. */
  method DecodeEnum(r: BinaryReader, alias: Text) returns (info: ExtraTypeInfo)
    requires r.Valid()
    modifies r
    ensures r.After(old(r.Now()), ReadEnum(alias, old(r.Rest())), info)
  {
    var count := DecodeRequiredInt(r, 200);
    var values: Slice<Text> := [];
    var ok := r.RequireField(201);
    if ok {
      values := DecodeTexts(r);
    }
    if |values| != count {
      r.ForceEof();
    }
    info := EnumInfo(values, alias);
  }

  method DecodeUnbound(r: BinaryReader, alias: Text) returns (info: ExtraTypeInfo)
    requires r.Valid()
    modifies r
    ensures r.After(old(r.Now()), ReadUnbound(alias, old(r.Rest())), info)
  {
    var name := DecodeOptionalText(r, 200);
    var catalog := DecodeOptionalText(r, 201);
    var schema := DecodeOptionalText(r, 202);
    info := UnboundInfo(name, catalog, schema, alias);
  }

  method DecodeAggregateState(r: BinaryReader, alias: Text) returns (info: ExtraTypeInfo)
    requires r.Valid()
    modifies r
    ensures r.After(old(r.Now()), ReadAggregateState(alias, old(r.Rest())), info)
    decreases |r.bytes| - r.offset, 3
  {
    hide RequiredText, ReadType, ReadTypes, ReadUlebInt;
    var name := DecodeRequiredText(r, 200);
    var returnType := NO_TYPE;
    var ok := r.RequireField(201);
    if ok {
      returnType := DecodeLogicalType(r);
    }
    var arguments: Slice<LogicalType> := [];
    ok := r.RequireField(202);
    if ok {
      arguments := DecodeTypes(r);
    }
    info := AggregateStateInfo(name, returnType, arguments, alias);
  }

  method DecodeAny(r: BinaryReader, alias: Text) returns (info: ExtraTypeInfo)
    requires r.Valid()
    modifies r
    ensures r.After(old(r.Now()), ReadAny(alias, old(r.Rest())), info)
    decreases |r.bytes| - r.offset, 3
  {
    var target := DecodeChildField(r);
    var score := None;
    var ok := r.RequireField(201);
    if ok {
      var v := r.ReadULEB128();
      score := if r.err.Some? then None else Some(v);
    }
    info := AnyInfo(target, score, alias);
  }

  method DecodeGeo(r: BinaryReader, alias: Text) returns (info: ExtraTypeInfo)
    requires r.Valid()
    modifies r
    ensures r.After(old(r.Now()), ReadGeo(alias, old(r.Rest())), info)
  {
    var crs: Text := [];
    var present := r.OptionalField(200);
    if present {
      crs := DecodeOptionalText(r, 100);
      var ok := r.EndObject();
      crs := if ok then crs else [];
    }
    info := GeoInfo(crs, alias);
  }
}
