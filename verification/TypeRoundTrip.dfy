/** A logical type survives the wire exactly when it is portable. */
module TypeRoundTrip {
  import opened Numbers
  import opened Wire
  import opened QuackTypes
  import opened TypeCodec

  /** The id of the field that s starts with, when s is long enough to hold one. */
  ghost predicate NextIsNot(id: nat, s: Bytes) {
    ReadFieldId(s).Ok? && ReadFieldId(s).value != id
  }

  lemma IntRoundTrip(v: Int64, tail: Bytes)
    ensures ReadUlebInt(Int(v, tail)) == if v >= 0 then Ok(v, tail) else Fail
  {
    if v >= 0 {
      ModUnique(v, TWO_64, 0, v);
    } else {
      ModUnique(v, TWO_64, -1, v + TWO_64);
    }
    UlebIntRoundTrip(v % TWO_64, tail);
  }

  lemma RequiredIntRoundTrip(id: nat, v: Int64, tail: Bytes)
    requires id < 0x1_0000
    ensures RequiredInt(id, Field(id, Int(v, tail))) == if v >= 0 then Ok(v, tail) else Fail
  {
    RequireField(id, Int(v, tail));
    IntRoundTrip(v, tail);
  }

  lemma OptionalIntRoundTrip(id: nat, v: Int64, tail: Bytes)
    requires id < 0x1_0000
    ensures OptionalInt(id, Field(id, Int(v, tail))) == if v >= 0 then Ok(v, tail) else Fail
  {
    OptionalField(id, id, Int(v, tail));
    IntRoundTrip(v, tail);
  }

  lemma RequiredTextRoundTrip(id: nat, text: Text, tail: Bytes)
    requires id < 0x1_0000
    ensures RequiredText(id, Field(id, Blob(text, tail))) == Ok(text, tail)
  {
    RequireField(id, Blob(text, tail));
    BlobRoundTrip(text, tail);
  }

  lemma OptionalTextRoundTrip(id: nat, text: Text, tail: Bytes)
    requires id < 0x1_0000
    ensures OptionalText(id, Field(id, Blob(text, tail))) == Ok(text, tail)
  {
    OptionalField(id, id, Blob(text, tail));
    BlobRoundTrip(text, tail);
  }

  /** An optional string that is left out when empty reads back, provided another field follows. */
  lemma NonEmptyRoundTrip(id: nat, text: Text, tail: Bytes)
    requires id < 0x1_0000 && NextIsNot(id, tail)
    ensures OptionalText(id, NonEmpty(id, text, tail)) == Ok(text, tail)
    ensures forall other :: other != id && NextIsNot(other, tail) ==> NextIsNot(other, NonEmpty(id, text, tail))
  {
    if text == [] {
    } else {
      OptionalTextRoundTrip(id, text, tail);
      FieldRoundTrip(id, Blob(text, tail));
    }
  }

  lemma EndIsNot(id: nat, tail: Bytes)
    requires id < FIELD_END
    ensures NextIsNot(id, End(tail))
  {
    FieldRoundTrip(FIELD_END, tail);
  }

  lemma FieldIsNot(id: nat, other: nat, tail: Bytes)
    requires id < 0x1_0000 && id != other
    ensures NextIsNot(other, Field(id, tail))
  {
    FieldRoundTrip(id, tail);
  }

  lemma {:induction false} TextsRoundTrip(texts: seq<Text>, tail: Bytes)
    ensures ReadTexts(|texts|, Texts(texts, tail)) == Ok(texts, tail)
  {
    if texts != [] {
      BlobRoundTrip(texts[0], Texts(texts[1..], tail));
      TextsRoundTrip(texts[1..], tail);
      assert texts == [texts[0]] + texts[1..];
    }
  }

  /** Whether reading s gives v back and leaves tail, when v is portable; otherwise s never reads back as v. */
  ghost predicate Survives<T>(r: Read<T>, portable: bool, v: T, tail: Bytes) {
    if portable then r == Ok(v, tail) else !(r.Ok? && r.value == v)
  }

  /** Prefix form, at any depth of nesting; for a type that is not portable no suffix makes it read back. */
  lemma {:induction false} TypeRoundTrip(t: LogicalType, tail: Bytes)
    ensures Survives(ReadType(Type(t, tail)), Portable(t), t, tail)
    decreases t, 0
  {
    match t.info {
      case None =>
        RequiredIntRoundTrip(100, t.id, End(tail));
        OptionalField(101, FIELD_END, tail);
        EndRoundTrip(tail);
      case Some(info) =>
        var s3 := Info(info, End(tail));
        RequiredIntRoundTrip(100, t.id, Field(101, Bool(true, s3)));
        OptionalField(101, 101, Bool(true, s3));
        BoolRoundTrip(true, s3);
        InfoRoundTrip(info, End(tail));
        EndRoundTrip(tail);
    }
  }

  lemma {:induction false} InfoRoundTrip(info: ExtraTypeInfo, tail: Bytes)
    ensures Survives(ReadInfo(Info(info, tail)), PortableInfo(info), info, tail)
    decreases info, 3
  {
    var s2 := Payload(info, End(tail));
    RequiredIntRoundTrip(100, Kind(info), NonEmpty(101, info.alias, s2));
    if Kind(info) >= 0 {
      PayloadStart(info, tail);
      NonEmptyRoundTrip(101, info.alias, s2);
      assert SkipExtension(s2) == Ok((), s2);
      PayloadRoundTrip(info, tail);
      EndRoundTrip(tail);
    }
  }

  /** No payload starts with the alias field or the extension field. */
  lemma {:induction false} PayloadStart(info: ExtraTypeInfo, tail: Bytes)
    ensures NextIsNot(101, Payload(info, End(tail))) && NextIsNot(103, Payload(info, End(tail)))
  {
    var s := Payload(info, End(tail));
    EndIsNot(101, tail);
    EndIsNot(103, tail);
    match info {
      case UnboundInfo(name, catalog, schema, _) =>
        EndIsNot(200, tail);
        EndIsNot(201, tail);
        EndIsNot(202, tail);
        NonEmptyRoundTrip(202, schema, End(tail));
        NonEmptyRoundTrip(201, catalog, NonEmpty(202, schema, End(tail)));
        NonEmptyRoundTrip(200, name, NonEmpty(201, catalog, NonEmpty(202, schema, End(tail))));
      case GenericInfo(_, _) =>
      case IntegerLiteralInfo(_) =>
      case _ =>
        assert exists rest: Bytes :: s == Field(200, rest);
        var rest: Bytes :| s == Field(200, rest);
        FieldIsNot(200, 101, rest);
        FieldIsNot(200, 103, rest);
    }
  }

  lemma {:induction false} PayloadRoundTrip(info: ExtraTypeInfo, tail: Bytes)
    requires Kind(info) >= 0
    ensures Survives(ReadPayload(Kind(info), info.alias, Payload(info, End(tail))), PortableInfo(info), info, End(tail))
    decreases info, 2
  {
    match info {
      case ListInfo(_, _) => ListRoundTrip(info, tail);
      case StructInfo(_, _) => StructRoundTrip(info, tail);
      case AggregateStateInfo(_, _, _, _) => AggregateRoundTrip(info, tail);
      case ArrayInfo(_, _, _) => ArrayRoundTrip(info, tail);
      case AnyInfo(_, _, _) => AnyRoundTrip(info, tail);
      case _ => FlatPayloadRoundTrip(info, tail);
    }
  }

  /** The kinds that hold no further type. */
  lemma {:induction false} FlatPayloadRoundTrip(info: ExtraTypeInfo, tail: Bytes)
    requires Kind(info) >= 0
    requires !info.ListInfo? && !info.StructInfo? && !info.AggregateStateInfo? && !info.ArrayInfo? && !info.AnyInfo?
    ensures Survives(ReadPayload(Kind(info), info.alias, Payload(info, End(tail))), PortableInfo(info), info, End(tail))
  {
    match info {
      case DecimalInfo(_, _, _) => DecimalRoundTrip(info, tail);
      case StringInfo(_, _) => StringRoundTrip(info, tail);
      case EnumInfo(_, _) => EnumRoundTrip(info, tail);
      case UnboundInfo(_, _, _, _) => UnboundRoundTrip(info, tail);
      case TemplateInfo(_, _) => TemplateRoundTrip(info, tail);
      case GeoInfo(_, _) => GeoRoundTrip(info, tail);
      case _ =>
    }
  }

  lemma {:induction false} DecimalRoundTrip(info: ExtraTypeInfo, tail: Bytes)
    requires info.DecimalInfo?
    ensures Survives(ReadPayload(2, info.alias, Payload(info, End(tail))), PortableInfo(info), info, End(tail))
  {
    OptionalIntRoundTrip(200, info.width, Field(201, Int(info.scale, End(tail))));
    OptionalIntRoundTrip(201, info.scale, End(tail));
  }

  lemma {:induction false} StringRoundTrip(info: ExtraTypeInfo, tail: Bytes)
    requires info.StringInfo?
    ensures ReadPayload(3, info.alias, Payload(info, End(tail))) == Ok(info, End(tail))
  {
    OptionalTextRoundTrip(200, info.collation, End(tail));
  }

  lemma {:induction false} TemplateRoundTrip(info: ExtraTypeInfo, tail: Bytes)
    requires info.TemplateInfo?
    ensures ReadPayload(12, info.alias, Payload(info, End(tail))) == Ok(info, End(tail))
  {
    OptionalTextRoundTrip(200, info.name, End(tail));
  }

  lemma {:induction false} EnumRoundTrip(info: ExtraTypeInfo, tail: Bytes)
    requires info.EnumInfo?
    ensures ReadPayload(6, info.alias, Payload(info, End(tail))) == Ok(info, End(tail))
  {
    var n, s := |info.values|, Texts(info.values, End(tail));
    RequiredIntRoundTrip(200, n, Field(201, Int(n, s)));
    RequiredIntRoundTrip(201, n, s);
    TextsRoundTrip(info.values, End(tail));
  }

  lemma {:induction false} GeoRoundTrip(info: ExtraTypeInfo, tail: Bytes)
    requires info.GeoInfo?
    ensures ReadPayload(13, info.alias, Payload(info, End(tail))) == Ok(info, End(tail))
  {
    var end := End(tail);
    OptionalField(200, 200, NonEmpty(100, info.crs, End(end)));
    EndIsNot(100, end);
    NonEmptyRoundTrip(100, info.crs, End(end));
    EndRoundTrip(end);
  }

  lemma {:induction false} UnboundRoundTrip(info: ExtraTypeInfo, tail: Bytes)
    requires info.UnboundInfo?
    ensures ReadPayload(7, info.alias, Payload(info, End(tail))) == Ok(info, End(tail))
  {
    hide OptionalText, NonEmpty;
    var end := End(tail);
    var s2 := NonEmpty(202, info.schema, end);
    EndIsNot(200, tail);
    EndIsNot(201, tail);
    EndIsNot(202, tail);
    NonEmptyRoundTrip(202, info.schema, end);
    NonEmptyRoundTrip(201, info.catalog, s2);
    NonEmptyRoundTrip(200, info.name, NonEmpty(201, info.catalog, s2));
  }

  lemma {:induction false} ListRoundTrip(info: ExtraTypeInfo, tail: Bytes)
    requires info.ListInfo?
    ensures Survives(ReadPayload(4, info.alias, Payload(info, End(tail))), PortableInfo(info), info, End(tail))
    decreases info, 1
  {
    RequireField(200, Type(info.child, End(tail)));
    TypeRoundTrip(info.child, End(tail));
  }

  lemma {:induction false} ArrayRoundTrip(info: ExtraTypeInfo, tail: Bytes)
    requires info.ArrayInfo?
    ensures Survives(ReadPayload(9, info.alias, Payload(info, End(tail))), PortableInfo(info), info, End(tail))
    decreases info, 1
  {
    var s2 := Field(201, Int(info.size, End(tail)));
    RequireField(200, Type(info.child, s2));
    TypeRoundTrip(info.child, s2);
    if Portable(info.child) {
      RequiredIntRoundTrip(201, info.size, End(tail));
    }
  }

  lemma {:induction false} StructRoundTrip(info: ExtraTypeInfo, tail: Bytes)
    requires info.StructInfo?
    ensures Survives(ReadPayload(5, info.alias, Payload(info, End(tail))), PortableInfo(info), info, End(tail))
    decreases info, 1
  {
    var children, end := info.children, End(tail);
    OptionalField(200, 200, Int(|children|, Children(children, end)));
    IntRoundTrip(|children|, Children(children, end));
    ChildrenRoundTrip(children, end);
  }

  lemma {:induction false} AggregateRoundTrip(info: ExtraTypeInfo, tail: Bytes)
    requires info.AggregateStateInfo?
    ensures Survives(ReadPayload(8, info.alias, Payload(info, End(tail))), PortableInfo(info), info, End(tail))
    decreases info, 1
  {
    hide ReadType, Type, Types, ReadTypes;
    var arguments, end := info.arguments, End(tail);
    var s4 := Types(arguments, end);
    var s3 := Field(202, Int(|arguments|, s4));
    RequiredTextRoundTrip(200, info.functionName, Field(201, Type(info.returnType, s3)));
    RequireField(201, Type(info.returnType, s3));
    TypeRoundTrip(info.returnType, s3);
    if Portable(info.returnType) {
      RequiredIntRoundTrip(202, |arguments|, s4);
      TypesRoundTrip(arguments, end);
    }
  }

  lemma {:induction false} AnyRoundTrip(info: ExtraTypeInfo, tail: Bytes)
    requires info.AnyInfo?
    ensures Survives(ReadPayload(10, info.alias, Payload(info, End(tail))), PortableInfo(info), info, End(tail))
    decreases info, 1
  {
    hide ReadType, Type, Portable;
    var end, score := End(tail), Score(info.castScore);
    var s2 := Field(201, Int(score, end));
    RequireField(200, Type(info.target, s2));
    TypeRoundTrip(info.target, s2);
    if Portable(info.target) {
      RequireField(201, Int(score, end));
      ModUnique(score, TWO_64, 0, score);
      UlebRoundTrip(score, end);
      if info.castScore.Some? && 0 <= info.castScore.value < TWO_64 {
        ModUnique(info.castScore.value, TWO_64, 0, info.castScore.value);
      }
    }
  }

  ghost predicate AllPortable(children: seq<ChildType>) {
    forall child | child in children :: Portable(child.typ)
  }

  lemma {:induction false} ChildrenRoundTrip(children: seq<ChildType>, tail: Bytes)
    ensures Survives(ReadChildren(|children|, Children(children, tail)), AllPortable(children), children, tail)
    decreases children, 1
  {
    hide ReadType, Type, Portable;
    if children != [] {
      var child, others := children[0], children[1..];
      var s4 := Children(others, tail);
      var s2 := Type(child.typ, End(s4));
      RequiredTextRoundTrip(0, child.name, Field(1, s2));
      RequireField(1, s2);
      TypeRoundTrip(child.typ, End(s4));
      assert children == [child] + others;
      if Portable(child.typ) {
        EndRoundTrip(s4);
        ChildrenRoundTrip(others, tail);
        assert AllPortable(children) <==> AllPortable(others);
      }
    }
  }

  ghost predicate TypesPortable(types: seq<LogicalType>) {
    forall t | t in types :: Portable(t)
  }

  lemma {:induction false} TypesRoundTrip(types: seq<LogicalType>, tail: Bytes)
    ensures Survives(ReadTypes(|types|, Types(types, tail)), TypesPortable(types), types, tail)
    decreases types, 1
  {
    hide ReadType, Type, Portable;
    if types != [] {
      var head, others := types[0], types[1..];
      TypeRoundTrip(head, Types(others, tail));
      assert types == [head] + others;
      if Portable(head) {
        TypesRoundTrip(others, tail);
        assert TypesPortable(types) <==> TypesPortable(others);
      }
    }
  }

  /** Portable types are told apart by their bytes, whatever follows them. */
  lemma {:induction false} TypeInjective(t: LogicalType, u: LogicalType, tail: Bytes, tail': Bytes)
    requires Portable(t) && Portable(u)
    requires Type(t, tail) == Type(u, tail')
    ensures t == u && tail == tail'
  {
    TypeRoundTrip(t, tail);
    TypeRoundTrip(u, tail');
  }
}
