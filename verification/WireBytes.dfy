/** The wire form in plain bytes: the field ids, kind numbers and markers of every object, each written out. */
module WireBytes {
  import opened Numbers
  import opened Wire
  import opened QuackTypes
  import opened TypeCodec
  import opened HugeInts
  import opened Validity
  import opened Vectors
  import opened VectorEncoder
  import opened Messages

  // ---- the vocabulary ----

  /** A field id below 256. */
  function F(id: Byte, rest: Bytes): Bytes {
    [id, 0] + rest
  }

  /** The end of an object. */
  function X(rest: Bytes): Bytes {
    [0xFF, 0xFF] + rest
  }

  /** A number. */
  function N(n: nat, rest: Bytes): Bytes {
    Uleb(n, rest)
  }

  /** A text or blob: its length and its bytes. */
  function T(text: Bytes, rest: Bytes): Bytes {
    N(|text|, text + rest)
  }

  /** A text field that is left out when the text is empty. */
  function Maybe(id: Byte, text: Bytes, rest: Bytes): Bytes {
    if text == [] then rest else F(id, T(text, rest))
  }

  lemma FieldIs(id: Byte)
    ensures forall tail: Bytes {:trigger Field(id, tail)} :: Field(id, tail) == F(id, tail)
  {
    forall tail: Bytes ensures Field(id, tail) == F(id, tail) {
      assert Le(1, id / 256, tail) == [0] + Le(0, 0, tail);
      assert [id] + ([0] + tail) == [id, 0] + tail;
    }
  }

  lemma EndIs()
    ensures forall tail: Bytes {:trigger End(tail)} :: End(tail) == X(tail)
  {
    forall tail: Bytes ensures End(tail) == X(tail) {
      assert Le(1, 0xFF, tail) == [0xFF] + Le(0, 0, tail);
      assert [0xFF] + ([0xFF] + tail) == [0xFF, 0xFF] + tail;
    }
  }

  lemma TextIs(text: Text)
    ensures forall tail: Bytes {:trigger Blob(text, tail)} :: Blob(text, tail) == T(text, tail)
  {
  }

  lemma NonEmptyIs(id: Byte, text: Text)
    ensures forall tail: Bytes {:trigger NonEmpty(id, text, tail)} :: NonEmpty(id, text, tail) == Maybe(id, text, tail)
  {
    FieldIs(id);
    TextIs(text);
  }

  lemma NumberIs(n: nat)
    requires n < TWO_64
    ensures forall tail: Bytes {:trigger Int(n, tail)} :: Int(n, tail) == N(n, tail)
  {
    ModUnique(n, TWO_64, 0, n);
  }

  // ---- numbers ----

  /** The k-th byte of a ULEB128 number is its k-th group of seven bits, and only the last has no top bit. */
  lemma {:induction false} UlebByteAt(v: nat, tail: Bytes, k: nat)
    requires k < |Uleb(v, tail)| - |tail|
    ensures var last := |Uleb(v, tail)| - |tail| - 1;
            Uleb(v, tail)[k] == (v / Pow128(k)) % 128 + if k < last then 128 else 0
    ensures var last := |Uleb(v, tail)| - |tail| - 1; v < Pow128(last + 1) && (last > 0 ==> v >= Pow128(last))
  {
    if v >= 128 {
      UlebByteAt(v / 128, tail, if k == 0 then 0 else k - 1);
      if k > 0 {
        DivTwice(v, Pow128(k - 1));
      }
    }
  }

  lemma DivTwice(v: nat, p: int)
    requires p > 0
    ensures v / 128 / p == v / (128 * p)
  {
    var u, c := v / 128, v % 128;
    var q, r := u / p, u % p;
    Regroup(128, p, q);
    assert v == (128 * p) * q + (128 * r + c);
    ModUnique(v, 128 * p, q, 128 * r + c);
  }

  /** The examples of the DWARF standard, section 7.6. */
  lemma {:induction false} LebExamples(tail: Bytes)
    ensures Uleb(2, tail) == [2] + tail && Uleb(127, tail) == [127] + tail
    ensures Uleb(128, tail) == [0x80, 1] + tail && Uleb(129, tail) == [0x81, 1] + tail
    ensures Uleb(12857, tail) == [0xB9, 0x64] + tail
    ensures Sleb(2, tail) == [2] + tail && Sleb(-2, tail) == [0x7E] + tail
    ensures Sleb(127, tail) == [0xFF, 0] + tail && Sleb(-127, tail) == [0x81, 0x7F] + tail
    ensures Sleb(128, tail) == [0x80, 1] + tail && Sleb(-128, tail) == [0x80, 0x7F] + tail
  {
    assert [0x80] + ([1] + tail) == [0x80, 1] + tail && [0x81] + ([1] + tail) == [0x81, 1] + tail;
    assert [0xB9] + ([0x64] + tail) == [0xB9, 0x64] + tail && [0xFF] + ([0] + tail) == [0xFF, 0] + tail;
    assert [0x81] + ([0x7F] + tail) == [0x81, 0x7F] + tail && [0x80] + ([0x7F] + tail) == [0x80, 0x7F] + tail;
  }

  /** At most ten groups are read; of the tenth, only the lowest bit fits the word. */
  lemma {:induction false} LongNumbers(last: Byte, tail: Bytes)
    requires last < 128
    ensures ReadUleb([0x80, 0x80, 0x80, 0x80, 0x80, 0x80, 0x80, 0x80, 0x80, last] + tail)
            == Ok(if last % 2 == 1 then 0x8000_0000_0000_0000 else 0, tail)
    ensures ReadSleb([0x80, 0x80, 0x80, 0x80, 0x80, 0x80, 0x80, 0x80, 0x80, last] + tail)
            == Ok(if last % 2 == 1 then -0x8000_0000_0000_0000 else 0, tail)
    ensures ReadUleb([0x80, 0x80, 0x80, 0x80, 0x80, 0x80, 0x80, 0x80, 0x80, 0x80] + tail).Fail?
    ensures ReadSleb([0x80, 0x80, 0x80, 0x80, 0x80, 0x80, 0x80, 0x80, 0x80, 0x80] + tail).Fail?
  {
    hide RawUleb, RawSleb, Lead, ToInt64, Pow128;
    var s, t := [last] + tail, [0x80] + tail;
    assert Pow128(9) == 0x8000_0000_0000_0000 by { Pow128Ten(); }
    LeadGroups(9, 1, s);
    LeadGroups(9, 1, t);
    LeadNine(s);
    LeadNine(t);
    OneGroup(last, tail);
    TenthBit(last);
    assert [0x80, 0x80, 0x80, 0x80, 0x80, 0x80, 0x80, 0x80, 0x80, last] + tail == Lead(9, s);
    assert [0x80, 0x80, 0x80, 0x80, 0x80, 0x80, 0x80, 0x80, 0x80, 0x80] + tail == Lead(9, t);
  }

  lemma {:induction false} OneGroup(last: Byte, tail: Bytes)
    requires last < 128
    ensures RawUleb(1, [last] + tail) == Ok(last, tail) && RawUleb(1, [0x80] + tail) == Fail
    ensures RawSleb(1, [last] + tail) == Ok(if last < 64 then last as int else last as int - 128, tail)
    ensures RawSleb(1, [0x80] + tail) == Fail
  {
    assert ([last] + tail)[1..] == tail && ([0x80] + tail)[1..] == tail;
  }

  /** Groups of zeros, each of which promises another group. */
  function Lead(n: nat, s: Bytes): Bytes {
    if n == 0 then s else [0x80] + Lead(n - 1, s)
  }

  lemma {:induction false} LeadGroups(n: nat, limit: nat, s: Bytes)
    ensures RawUleb(n + limit, Lead(n, s))
            == match RawUleb(limit, s) case Ok(high, rest) => Ok(Pow128(n) * high, rest) case _ => Fail
    ensures RawSleb(n + limit, Lead(n, s))
            == match RawSleb(limit, s) case Ok(high, rest) => Ok(Pow128(n) * high, rest) case _ => Fail
  {
    if n > 0 {
      hide RawUleb, RawSleb, Pow128;
      LeadGroups(n - 1, limit, s);
      LeadGroup(n + limit - 1, Lead(n - 1, s));
      assert Lead(n, s) == [0x80] + Lead(n - 1, s);
      assert Pow128(n) == 128 * Pow128(n - 1) by { NextPow128(n); }
      if RawUleb(limit, s).Ok? {
        Regroup(128, Pow128(n - 1), RawUleb(limit, s).value);
      }
      if RawSleb(limit, s).Ok? {
        Regroup(128, Pow128(n - 1), RawSleb(limit, s).value);
      }
    } else {
      assert Pow128(0) == 1;
    }
  }

  lemma NextPow128(n: nat)
    requires n > 0
    ensures Pow128(n) == 128 * Pow128(n - 1)
  {
  }

  lemma {:induction false} LeadGroup(limit: nat, s: Bytes)
    ensures RawUleb(limit + 1, [0x80] + s)
            == match RawUleb(limit, s) case Ok(high, rest) => Ok(128 * high, rest) case _ => Fail
    ensures RawSleb(limit + 1, [0x80] + s)
            == match RawSleb(limit, s) case Ok(high, rest) => Ok(128 * high, rest) case _ => Fail
  {
    assert ([0x80] + s)[1..] == s;
  }

  lemma {:induction false} LeadIs(n: nat, s: Bytes)
    ensures Lead(n, s) == Repeat<Byte>(0x80, n) + s
  {
    if n > 0 {
      LeadIs(n - 1, s);
      assert Repeat<Byte>(0x80, n) + s == [0x80] + (Repeat<Byte>(0x80, n - 1) + s);
    }
  }

  lemma {:induction false} LeadNine(s: Bytes)
    ensures Lead(9, s) == [0x80, 0x80, 0x80, 0x80, 0x80, 0x80, 0x80, 0x80, 0x80] + s
  {
    LeadIs(9, s);
    assert Repeat<Byte>(0x80, 9) == [0x80, 0x80, 0x80, 0x80, 0x80, 0x80, 0x80, 0x80, 0x80];
  }

  lemma TenthBit(last: Byte)
    requires last < 128
    ensures (0x8000_0000_0000_0000 * last) % TWO_64 == if last % 2 == 1 then 0x8000_0000_0000_0000 else 0
    ensures ToInt64(0x8000_0000_0000_0000 * last) == if last % 2 == 1 then -0x8000_0000_0000_0000 else 0
    ensures ToInt64(0x8000_0000_0000_0000 * (last - 128)) == if last % 2 == 1 then -0x8000_0000_0000_0000 else 0
  {
    var half, bit := last / 2, last % 2;
    assert 0x8000_0000_0000_0000 * last == TWO_64 * half + 0x8000_0000_0000_0000 * bit;
    ModUnique(0x8000_0000_0000_0000 * last, TWO_64, half, 0x8000_0000_0000_0000 * bit);
    ModUnique(0x8000_0000_0000_0000 * (last - 128), TWO_64, half - 64, 0x8000_0000_0000_0000 * bit);
  }

  /** Fixed-width numbers have their lowest byte first. */
  lemma {:induction false} LittleEndianExample(tail: Bytes)
    ensures Le(4, 0x0102_0304, tail) == [4, 3, 2, 1] + tail
  {
    assert Le(1, 1, tail) == [1] + tail;
    assert Le(2, 0x102, tail) == [2, 1] + tail;
    assert Le(3, 0x1_0203, tail) == [3, 2, 1] + tail;
  }

  // ---- logical types ----

  /** Field 100 is the type number; field 101, if there is more to say, a byte 1 and the extra information. */
  lemma {:induction false} TypeBytes(t: LogicalType, tail: Bytes)
    ensures Type(t, tail)
            == F(100, Int(t.id, if t.info.None? then X(tail) else F(101, [1] + Info(t.info.value, X(tail)))))
  {
    hide Field, Info, Int;
    FieldIs(100);
    FieldIs(101);
    EndIs();
  }

  /** The number of each kind of extra information. */
  function KindNumber(info: ExtraTypeInfo): int {
    match info
    case GenericInfo(kind, _) => kind
    case DecimalInfo(_, _, _) => 2
    case StringInfo(_, _) => 3
    case ListInfo(_, _) => 4
    case StructInfo(_, _) => 5
    case EnumInfo(_, _) => 6
    case UnboundInfo(_, _, _, _) => 7
    case AggregateStateInfo(_, _, _, _) => 8
    case ArrayInfo(_, _, _) => 9
    case AnyInfo(_, _, _) => 10
    case IntegerLiteralInfo(_) => 11
    case TemplateInfo(_, _) => 12
    case GeoInfo(_, _) => 13
  }

  lemma {:induction false} InfoBytes(info: ExtraTypeInfo, tail: Bytes)
    ensures Info(info, tail)
            == F(100, Int(KindNumber(info), Maybe(101, info.alias, Payload(info, X(tail)))))
  {
    hide Field, Payload, Int;
    FieldIs(100);
    NonEmptyIs(101, info.alias);
    EndIs();
  }

  lemma {:induction false} NumberPayloads(info: ExtraTypeInfo, tail: Bytes)
    ensures info.GenericInfo? || info.IntegerLiteralInfo? ==> Payload(info, tail) == tail
    ensures info.DecimalInfo? ==> Payload(info, tail) == F(200, Int(info.width, F(201, Int(info.scale, tail))))
  {
    hide Field, Int, Uleb;
    FieldIs(200);
    FieldIs(201);
  }

  lemma {:induction false} TextPayloads(info: ExtraTypeInfo, tail: Bytes)
    ensures info.StringInfo? ==> Payload(info, tail) == F(200, T(info.collation, tail))
    ensures info.TemplateInfo? ==> Payload(info, tail) == F(200, T(info.name, tail))
    ensures info.GeoInfo? ==> Payload(info, tail) == F(200, Maybe(100, info.crs, X(tail)))
  {
    hide Field, End, Blob, NonEmpty, Maybe, T;
    FieldIs(200);
    match info {
      case StringInfo(collation, _) => TextIs(collation);
      case TemplateInfo(name, _) => TextIs(name);
      case GeoInfo(crs, _) =>
        EndIs();
        NonEmptyIs(100, crs);
      case _ =>
    }
  }

  lemma {:induction false} UnboundPayload(name: Text, catalog: Text, schema: Text, alias: Text, tail: Bytes)
    ensures Payload(UnboundInfo(name, catalog, schema, alias), tail)
            == Maybe(200, name, Maybe(201, catalog, Maybe(202, schema, tail)))
  {
    hide NonEmpty, Maybe;
    NonEmptyIs(200, name);
    NonEmptyIs(201, catalog);
    NonEmptyIs(202, schema);
  }

  lemma {:induction false} NestedPayloads(info: ExtraTypeInfo, tail: Bytes)
    ensures info.ListInfo? ==> Payload(info, tail) == F(200, Type(info.child, tail))
    ensures info.ArrayInfo? ==> Payload(info, tail) == F(200, Type(info.child, F(201, Int(info.size, tail))))
    ensures info.AnyInfo? && info.castScore.Some? && 0 <= info.castScore.value < TWO_64 ==>
              Payload(info, tail) == F(200, Type(info.target, F(201, N(info.castScore.value, tail))))
    ensures info.StructInfo? ==> Payload(info, tail) == F(200, N(|info.children|, Children(info.children, tail)))
    ensures info.EnumInfo? ==>
              Payload(info, tail)
              == F(200, N(|info.values|, F(201, N(|info.values|, Texts(info.values, tail)))))
    ensures info.AggregateStateInfo? ==>
              Payload(info, tail)
              == F(200, T(info.functionName, F(201, Type(info.returnType,
                   F(202, N(|info.arguments|, Types(info.arguments, tail)))))))
  {
    hide Field, Type, Types, Children, Texts, Uleb;
    FieldIs(200);
    FieldIs(201);
    FieldIs(202);
    if info.AnyInfo? && info.castScore.Some? {
      var score := info.castScore.value;
      if 0 <= score < TWO_64 {
        ModUnique(score, TWO_64, 0, score);
      }
    }
    match info {
      case StructInfo(children, _) => NumberIs(|children|);
      case EnumInfo(values, _) => NumberIs(|values|);
      case AggregateStateInfo(_, _, arguments, _) => NumberIs(|arguments|);
      case _ =>
    }
  }

  /** A struct field is its name in field 0 and its type in field 1. */
  lemma {:induction false} ChildBytes(child: ChildType, others: seq<ChildType>, tail: Bytes)
    ensures Children([child] + others, tail)
            == F(0, T(child.name, F(1, Type(child.typ, X(Children(others, tail))))))
  {
    hide Field, Type, Uleb;
    FieldIs(0);
    FieldIs(1);
    EndIs();
    assert ([child] + others)[1..] == others;
  }

  // ---- messages ----

  /** The header: the message number, the connection unless it is empty, and the query number. */
  lemma {:induction false} HeaderBytes(m: Message)
    requires ContentEncodable(m.content)
    ensures Encode(m)
            == F(1, N(MessageNumber(m.content), Maybe(2, m.header.connectionId,
                 F(3, N(m.header.clientQueryId, X(Body(m.content, [])))))))
  {
    hide Field, Body, Uleb;
    FieldIs(1);
    FieldIs(3);
    NonEmptyIs(2, m.header.connectionId);
    NumberIs(KindOf(m.content));
    EndIs();
  }

  function MessageNumber(c: Content): nat {
    match c
    case ConnectionRequest(_, _, _, _, _) => 1
    case ConnectionResponse(_, _, _, _) => 2
    case PrepareRequest(_) => 3
    case PrepareResponse(_, _, _, _, _) => 4
    case FetchRequest(_) => 7
    case FetchResponse(_, _, _) => 8
    case AppendRequest(_, _, _) => 9
    case SuccessResponse => 10
    case DisconnectMessage => 11
    case ErrorResponse(_) => 100
  }

  function MaybeNumber(id: Byte, n: nat, rest: Bytes): Bytes {
    if n == 0 then rest else F(id, N(n, rest))
  }

  lemma {:induction false} RequestBytes(c: Content, tail: Bytes)
    requires ContentEncodable(c)
    ensures c.ConnectionRequest? ==>
              Body(c, tail) == Maybe(1, c.auth, Maybe(2, c.duckdbVersion, Maybe(3, c.platform,
                                 MaybeNumber(4, c.minVersion, MaybeNumber(5, c.maxVersion, X(tail))))))
    ensures c.PrepareRequest? ==> Body(c, tail) == Maybe(1, c.sql, X(tail))
    ensures c.FetchRequest? ==> Body(c, tail) == F(1, Sleb(c.uuid.upper, Uleb(c.uuid.lower, X(tail))))
    ensures c.AppendRequest? ==>
              Body(c, tail) == Maybe(1, c.schemaName, Maybe(2, c.tableName, F(3, [1] + ChunkWrapper(c.chunk, X(tail)))))
    ensures c.DisconnectMessage? ==> Body(c, tail) == X(tail)
  {
    hide Field, Uleb, Sleb, ChunkWrapper, NonEmpty, Maybe;
    FieldIs(1);
    FieldIs(3);
    FieldIs(4);
    FieldIs(5);
    EndIs();
    match c {
      case ConnectionRequest(auth, version, platform, _, _) =>
        NonEmptyIs(1, auth);
        NonEmptyIs(2, version);
        NonEmptyIs(3, platform);
      case PrepareRequest(sql) => NonEmptyIs(1, sql);
      case AppendRequest(schemaName, tableName, _) =>
        NonEmptyIs(1, schemaName);
        NonEmptyIs(2, tableName);
      case _ =>
    }
  }

  lemma {:induction false} ResponseBytes(c: Content, tail: Bytes)
    requires ContentEncodable(c)
    ensures c.ConnectionResponse? ==>
              Body(c, tail) == Maybe(1, c.serverVersion, Maybe(2, c.serverPlatform,
                                 if c.hasQuackVersion then F(3, N(c.quackVersion, X(tail))) else X(tail)))
    ensures c.FetchResponse? ==>
              Body(c, tail)
              == ChunksField(1, c.batch,
                   F(2, N(if c.hasBatchIndex then c.batchIndex else 0xFFFF_FFFF_FFFF_FFFF, X(tail))))
    ensures c.SuccessResponse? ==> Body(c, tail) == X(tail)
    ensures c.ErrorResponse? ==> Body(c, tail) == Maybe(1, c.message, X(tail))
  {
    hide Field, Uleb, ChunkWrapper, NonEmpty, Maybe, ChunkList, ChunksField;
    FieldIs(2);
    FieldIs(3);
    EndIs();
    match c {
      case ConnectionResponse(version, platform, _, _) =>
        NonEmptyIs(1, version);
        NonEmptyIs(2, platform);
      case FetchResponse(batch, _, _) => ChunksAre(1, batch);
      case ErrorResponse(message) => NonEmptyIs(1, message);
      case _ =>
    }
  }

  lemma {:induction false} PrepareResponseBytes(c: Content, tail: Bytes)
    requires c.PrepareResponse? && ContentEncodable(c)
    ensures var last := F(5, Sleb(c.resultUuid.upper, Uleb(c.resultUuid.lower, X(tail))));
            var rest := ChunksField(4, c.results, last);
            var more := if c.needsMore then F(3, [1] + rest) else rest;
            var names := if c.names == [] then more else F(2, N(|c.names|, Texts(c.names, more)));
            Body(c, tail) == if c.types == [] then names else F(1, N(|c.types|, Types(c.types, names)))
  {
    hide Field, Uleb, Sleb, ChunkWrapper, Texts, Types;
    FieldIs(1);
    FieldIs(2);
    FieldIs(3);
    FieldIs(4);
    FieldIs(5);
    EndIs();
    NumberIs(|c.types|);
    NumberIs(|c.names|);
    ChunksAre(4, c.results);
  }

  lemma {:induction false} ChunkItemsAre(chunks: seq<DataChunk>, rest: Bytes)
    requires forall c | c in chunks :: ChunkEncodable(c)
    ensures Chunks(chunks, rest) == ChunkItems(chunks, rest)
  {
    hide ChunkWrapper;
    if chunks != [] {
      ChunkItemsAre(chunks[1..], rest);
    }
  }

  lemma {:induction false} ChunksAre(id: Byte, chunks: Slice<DataChunk>)
    requires forall c | c in chunks :: ChunkEncodable(c)
    ensures forall rest: Bytes {:trigger ChunkList(id, chunks, rest)} ::
              ChunkList(id, chunks, rest) == ChunksField(id, chunks, rest)
  {
    hide Field, Uleb, ChunkWrapper;
    FieldIs(id);
    NumberIs(|chunks|);
    forall rest: Bytes ensures ChunkList(id, chunks, rest) == ChunksField(id, chunks, rest) {
      ChunkItemsAre(chunks, rest);
    }
  }

  /** A list of chunks, each behind a byte 1, left out when it is empty. */
  function ChunksField(id: Byte, chunks: seq<DataChunk>, rest: Bytes): Bytes
    requires forall c | c in chunks :: ChunkEncodable(c)
  {
    if chunks == [] then rest else F(id, N(|chunks|, ChunkItems(chunks, rest)))
  }

  function ChunkItems(chunks: seq<DataChunk>, rest: Bytes): Bytes
    requires forall c | c in chunks :: ChunkEncodable(c)
  {
    if chunks == [] then rest else [1] + ChunkWrapper(chunks[0], ChunkItems(chunks[1..], rest))
  }
}
