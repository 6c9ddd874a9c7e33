/** Messages through the writer and the reader: header object, body object, end of input. */
module MessageIO {
  import opened Numbers
  import opened Wire
  import opened QuackTypes
  import opened HugeInts
  import opened TypeCodec
  import opened Vectors
  import opened VectorEncoder
  import opened VectorDecoder
  import opened Messages
  import opened BinaryWriters
  import opened BinaryReaders
  import opened VectorArrays
  import opened VectorReading
  import TypeIO
  import VectorWriting

  // ---- writing ----

  method EncodeHeader(w: BinaryWriter, h: MessageHeader, kind: Int64)
    modifies w`buf
    ensures w.err.Some? ==> w.buf == old(w.buf)
    ensures w.err.None? ==>
              forall rest: Bytes {:trigger w.buf + rest} :: w.buf + rest == old(w.buf) + Header(h, kind, rest)
  {
    w.WriteFieldID(1);
    TypeIO.WriteInt(w, kind);
    TypeIO.WriteOptionalText(w, 2, h.connectionId);
    w.WriteFieldID(3);
    w.WriteULEB128(h.clientQueryId);
    w.WriteEnd();
  }

  method WriteOptionalIndexNonZero(w: BinaryWriter, id: nat, v: Uint64)
    modifies w`buf
    ensures w.err.Some? ==> w.buf == old(w.buf)
    ensures w.err.None? ==>
              forall rest: Bytes {:trigger w.buf + rest} :: w.buf + rest == old(w.buf) + NonZero(id, v, rest)
  {
    if v != 0 {
      w.WriteFieldID(id);
      w.WriteULEB128(v);
    }
  }

  method WriteChunkPointerList(w: BinaryWriter, chunks: seq<DataChunk>)
    requires forall c | c in chunks :: ChunkEncodable(c)
    modifies w`buf
    ensures w.err.Some? ==> w.buf == old(w.buf)
    ensures w.err.None? ==> forall rest: Bytes {:trigger w.buf + rest} ::
              w.buf + rest == old(w.buf) + Int(|chunks|, Chunks(chunks, rest))
  {
    hide ChunkEncodable, ChunkWrapper;
    TypeIO.WriteInt(w, |chunks|);
    ghost var mid := w.buf;
    assert chunks[0..] == chunks;
    for i := 0 to |chunks|
      invariant w.err == old(w.err) && (w.err.Some? ==> w.buf == old(w.buf))
      invariant forall c | c in chunks[i..] :: ChunkEncodable(c)
      invariant w.err.None? ==> forall rest: Bytes :: w.buf + Chunks(chunks[i..], rest) == mid + Chunks(chunks, rest)
    {
      assert chunks[i..][1..] == chunks[i + 1..] && chunks[i] in chunks[i..];
      w.WriteBool(true);
      VectorWriting.EncodeDataChunkWrapper(w, chunks[i]);
    }
  }

  method WriteChunkList(w: BinaryWriter, id: nat, chunks: seq<DataChunk>)
    requires forall c | c in chunks :: ChunkEncodable(c)
    modifies w`buf
    ensures w.err.Some? ==> w.buf == old(w.buf)
    ensures w.err.None? ==>
              forall rest: Bytes {:trigger w.buf + rest} :: w.buf + rest == old(w.buf) + ChunkList(id, chunks, rest)
  {
    hide ChunkEncodable, Chunks, Field, Int;
    if |chunks| > 0 {
      w.WriteFieldID(id);
      WriteChunkPointerList(w, chunks);
    }
  }

  method EncodeConnectionRequest(w: BinaryWriter, m: Content)
    requires m.ConnectionRequest?
    modifies w`buf
    ensures w.err.Some? ==> w.buf == old(w.buf)
    ensures w.err.None? ==>
              forall rest: Bytes {:trigger w.buf + rest} :: w.buf + rest == old(w.buf) + Body(m, rest)
  {
    hide NonEmpty, NonZero, End;
    TypeIO.WriteOptionalText(w, 1, m.auth);
    TypeIO.WriteOptionalText(w, 2, m.duckdbVersion);
    TypeIO.WriteOptionalText(w, 3, m.platform);
    WriteOptionalIndexNonZero(w, 4, m.minVersion);
    WriteOptionalIndexNonZero(w, 5, m.maxVersion);
    w.WriteEnd();
  }

  lemma ResponseBodies(m: Content, rest: Bytes)
    requires ContentEncodable(m)
    ensures m.ConnectionResponse? ==>
              Body(m, rest) == NonEmpty(1, m.serverVersion, NonEmpty(2, m.serverPlatform,
                                 Version(3, m.quackVersion, m.hasQuackVersion, End(rest))))
    ensures m.PrepareResponse? ==>
              Body(m, rest) == TypeList(1, m.types, NameList(2, m.names,
                                 ResultFields(m.needsMore, m.results, m.resultUuid, End(rest))))
  {
  }

  method EncodeConnectionResponse(w: BinaryWriter, m: Content)
    requires m.ConnectionResponse?
    modifies w`buf
    ensures w.err.Some? ==> w.buf == old(w.buf)
    ensures w.err.None? ==>
              forall rest: Bytes {:trigger w.buf + rest} :: w.buf + rest == old(w.buf) + Body(m, rest)
  {
    hide Body, NonEmpty, End, Version;
    TypeIO.WriteOptionalText(w, 1, m.serverVersion);
    TypeIO.WriteOptionalText(w, 2, m.serverPlatform);
    EncodeVersion(w, m.quackVersion, m.hasQuackVersion);
    w.WriteEnd();
    forall rest: Bytes {
      ResponseBodies(m, rest);
    }
  }

  method EncodeVersion(w: BinaryWriter, version: Uint64, present: bool)
    modifies w`buf
    ensures w.err.Some? ==> w.buf == old(w.buf)
    ensures w.err.None? ==> forall rest: Bytes {:trigger w.buf + rest} ::
              w.buf + rest == old(w.buf) + Version(3, version, present, rest)
  {
    hide Uleb, Field;
    if present {
      w.WriteFieldID(3);
      w.WriteULEB128(version);
    }
  }

  method WriteTypeList(w: BinaryWriter, id: nat, types: seq<LogicalType>)
    modifies w`buf
    ensures w.err.Some? ==> w.buf == old(w.buf)
    ensures w.err.None? ==>
              forall rest: Bytes {:trigger w.buf + rest} :: w.buf + rest == old(w.buf) + TypeList(id, types, rest)
  {
    hide Field, Int, Types;
    if |types| > 0 {
      w.WriteFieldID(id);
      TypeIO.EncodeTypes(w, types);
    }
  }

  method WriteNameList(w: BinaryWriter, id: nat, names: seq<Text>)
    modifies w`buf
    ensures w.err.Some? ==> w.buf == old(w.buf)
    ensures w.err.None? ==>
              forall rest: Bytes {:trigger w.buf + rest} :: w.buf + rest == old(w.buf) + NameList(id, names, rest)
  {
    hide Field, Int, Texts;
    if |names| > 0 {
      w.WriteFieldID(id);
      TypeIO.WriteTexts(w, names);
    }
  }

  method EncodePrepareResponse(w: BinaryWriter, m: Content)
    requires m.PrepareResponse? && ContentEncodable(m)
    modifies w`buf
    ensures w.err.Some? ==> w.buf == old(w.buf)
    ensures w.err.None? ==>
              forall rest: Bytes {:trigger w.buf + rest} :: w.buf + rest == old(w.buf) + Body(m, rest)
  {
    hide Body, TypeList, NameList, ResultFields, End, ChunkEncodable;
    WriteSchema(w, m.types, m.names);
    WriteResultFields(w, m.needsMore, m.results, m.resultUuid);
    w.WriteEnd();
    forall rest: Bytes {
      ResponseBodies(m, rest);
    }
  }

  method WriteSchema(w: BinaryWriter, types: seq<LogicalType>, names: seq<Text>)
    modifies w`buf
    ensures w.err.Some? ==> w.buf == old(w.buf)
    ensures w.err.None? ==> forall rest: Bytes {:trigger w.buf + rest} ::
              w.buf + rest == old(w.buf) + TypeList(1, types, NameList(2, names, rest))
  {
    hide TypeList, NameList;
    WriteTypeList(w, 1, types);
    WriteNameList(w, 2, names);
  }

  method WriteResultFields(w: BinaryWriter, needsMore: bool, results: seq<DataChunk>, uuid: HugeIntParts)
    requires forall c | c in results :: ChunkEncodable(c)
    modifies w`buf
    ensures w.err.Some? ==> w.buf == old(w.buf)
    ensures w.err.None? ==> forall rest: Bytes {:trigger w.buf + rest} ::
              w.buf + rest == old(w.buf) + ResultFields(needsMore, results, uuid, rest)
  {
    hide Field, Bool, ChunkList, HugeInt, ChunkEncodable;
    if needsMore {
      w.WriteFieldID(3);
      w.WriteBool(true);
    }
    WriteChunkList(w, 4, results);
    w.WriteFieldID(5);
    w.WriteHugeInt(uuid);
  }

  method EncodeFetchResponse(w: BinaryWriter, m: Content)
    requires m.FetchResponse? && ContentEncodable(m)
    modifies w`buf
    ensures w.err.Some? ==> w.buf == old(w.buf)
    ensures w.err.None? ==>
              forall rest: Bytes {:trigger w.buf + rest} :: w.buf + rest == old(w.buf) + Body(m, rest)
  {
    hide Field, ChunkList, Uleb, End, ChunkEncodable;
    WriteChunkList(w, 1, m.batch);
    w.WriteFieldID(2);
    w.WriteULEB128(if m.hasBatchIndex then m.batchIndex else INVALID_INDEX);
    w.WriteEnd();
  }

  method EncodeAppendRequest(w: BinaryWriter, m: Content)
    requires m.AppendRequest? && ContentEncodable(m)
    modifies w`buf
    ensures w.err.Some? ==> w.buf == old(w.buf)
    ensures w.err.None? ==>
              forall rest: Bytes {:trigger w.buf + rest} :: w.buf + rest == old(w.buf) + Body(m, rest)
  {
    hide Field, NonEmpty, Bool, End, ChunkWrapper, ChunkEncodable;
    TypeIO.WriteOptionalText(w, 1, m.schemaName);
    TypeIO.WriteOptionalText(w, 2, m.tableName);
    w.WriteFieldID(3);
    w.WriteBool(true);
    VectorWriting.EncodeDataChunkWrapper(w, m.chunk);
    w.WriteEnd();
  }

  method EncodeBody(w: BinaryWriter, m: Content)
    requires ContentEncodable(m)
    modifies w`buf
    ensures w.err.Some? ==> w.buf == old(w.buf)
    ensures w.err.None? ==>
              forall rest: Bytes {:trigger w.buf + rest} :: w.buf + rest == old(w.buf) + Body(m, rest)
  {
    match m {
      case ConnectionRequest(_, _, _, _, _) => EncodeConnectionRequest(w, m);
      case ConnectionResponse(_, _, _, _) => EncodeConnectionResponse(w, m);
      case PrepareRequest(sql) =>
        TypeIO.WriteOptionalText(w, 1, sql);
        w.WriteEnd();
      case PrepareResponse(_, _, _, _, _) => EncodePrepareResponse(w, m);
      case FetchRequest(uuid) =>
        w.WriteFieldID(1);
        w.WriteHugeInt(uuid);
        w.WriteEnd();
      case FetchResponse(_, _, _) => EncodeFetchResponse(w, m);
      case AppendRequest(_, _, _) => EncodeAppendRequest(w, m);
      case SuccessResponse => w.WriteEnd();
      case DisconnectMessage => w.WriteEnd();
      case ErrorResponse(message) =>
        TypeIO.WriteOptionalText(w, 1, message);
        w.WriteEnd();
    }
  }

  /** The writer never fails on a message whose chunks can be written. */
  method EncodeMessage(m: Message) returns (bytes: Bytes)
    requires ContentEncodable(m.content)
    ensures bytes == Encode(m)
  {
    hide Header, Body, ContentEncodable;
    var w := new BinaryWriter();
    EncodeHeader(w, m.header, KindOf(m.content));
    EncodeBody(w, m.content);
    assert w.buf + [] == [] + Encode(m);
    assert w.buf + [] == w.buf && [] + Encode(m) == Encode(m);
    return w.buf;
  }

  // ---- reading ----

  method DecodeHeader(r: BinaryReader) returns (h: MessageHeader)
    requires r.Valid()
    modifies r
    ensures r.After(old(r.Now()), ReadHeader(old(r.Rest())), h)
  {
    hide RequiredInt, OptionalText, ReadUleb;
    var kind := TypeIO.DecodeRequiredInt(r, 1);
    var connectionId := TypeIO.DecodeOptionalText(r, 2);
    var queryId: Uint64 := 0;
    var ok := r.RequireField(3);
    if ok {
      queryId := r.ReadULEB128();
    }
    ok := r.EndObject();
    return if ok then MessageHeader(kind, connectionId, queryId) else MessageHeader(0, [], 0);
  }

  method DecodeOptionalIndex(r: BinaryReader, id: nat) returns (v: Uint64)
    requires r.Valid() && id > 0
    modifies r
    ensures r.After(old(r.Now()), OptionalIndex(id, old(r.Rest())), v)
  {
    var present := r.OptionalField(id);
    if !present {
      return 0;
    }
    v := r.ReadULEB128();
  }

  method DecodeOptionalBool(r: BinaryReader, id: nat) returns (v: bool)
    requires r.Valid() && id > 0
    modifies r
    ensures r.After(old(r.Now()), OptionalBool(id, old(r.Rest())), v)
  {
    var present := r.OptionalField(id);
    if !present {
      return false;
    }
    v := r.ReadBool();
  }

  method DecodeOptionalTypes(r: BinaryReader, id: nat) returns (v: Slice<LogicalType>)
    requires r.Valid() && id > 0
    modifies r
    ensures r.After(old(r.Now()), OptionalTypes(id, old(r.Rest())), v)
  {
    hide ReadUlebInt, ReadTypes;
    var present := r.OptionalField(id);
    if !present {
      return [];
    }
    v := TypeIO.DecodeTypes(r);
  }

  method DecodeOptionalNames(r: BinaryReader, id: nat) returns (v: Slice<Text>)
    requires r.Valid() && id > 0
    modifies r
    ensures r.After(old(r.Now()), OptionalNames(id, old(r.Rest())), v)
  {
    hide ReadUlebInt, ReadTexts;
    var present := r.OptionalField(id);
    if !present {
      return [];
    }
    v := TypeIO.DecodeTexts(r);
  }

  /** An absent chunk reads as the zero chunk. */
  method DecodeChunkPointer(r: BinaryReader) returns (out: Go<DataChunk>)
    requires r.Valid()
    modifies r
    ensures Ended(r, old(r.Now()), ReadChunkPointer(old(r.Rest())), out)
  {
    hide ReadChunkWrapper;
    var present := r.ReadBool();
    if !present {
      return Returned(NO_CHUNK);
    }
    out := DecodeDataChunkWrapper(r);
  }

  lemma ChunksStep(n: nat, s: Bytes)
    ensures ReadChunks(0, s) == Ok([], s)
    ensures n > 0 ==>
              ReadChunks(n, s) == match ReadChunkPointer(s)
                                  case Ok(head, s1) =>
                                    (match ReadChunks(n - 1, s1)
                                     case Ok(rest, s2) => Ok([head] + rest, s2)
                                     case Fail => Fail
                                     case Panic => Panic)
                                  case Fail => Fail
                                  case Panic => Panic
  {
    hide ReadChunkPointer;
  }

  method DecodeOptionalChunks(r: BinaryReader, id: nat) returns (out: Go<Slice<DataChunk>>)
    requires r.Valid() && id > 0
    modifies r
    ensures Ended(r, old(r.Now()), OptionalChunks(id, old(r.Rest())), out)
  {
    hide ReadChunks, ReadUlebInt;
    var present := r.OptionalField(id);
    if !present {
      return Returned([]);
    }
    var n := r.ReadULEB128Int();
    if r.err.Some? {
      return Returned([]);
    }
    out := DecodeChunks(r, n);
  }

  method DecodeChunks(r: BinaryReader, n: nat) returns (out: Go<Slice<DataChunk>>)
    requires r.Valid() && r.err.None? && n <= MAX_INT
    modifies r
    ensures Ended(r, old(r.Now()), ReadChunks(n, old(r.Rest())), out)
  {
    hide ReadChunks, ReadChunkPointer;
    ghost var whole := ReadChunks(n, r.Rest());
    ListedNone(whole);
    var chunks: seq<DataChunk> := [];
    for i := 0 to n
      invariant r.Valid() && r.offset >= old(r.offset) && r.err.None? && |chunks| == i
      invariant Listed(whole, chunks, ReadChunks(n - i, r.Rest()))
    {
      ghost var left := ReadChunks(n - i, r.Rest());
      ChunksStep(n - i, r.Rest());
      var chunk :- DecodeChunkPointer(r);
      if r.err.Some? {
        return Returned([]);
      }
      ListedStep(whole, chunks, chunk, left, ReadChunks(n - i - 1, r.Rest()));
      chunks := chunks + [chunk];
    }
    ChunksStep(0, r.Rest());
    ListedAll(whole, chunks, r.Rest());
    return Returned(chunks);
  }

  method DecodeConnectionRequest(r: BinaryReader) returns (m: Content)
    requires r.Valid()
    modifies r
    ensures r.After(old(r.Now()), ReadConnectionRequest(old(r.Rest())), m)
  {
    hide OptionalText, OptionalIndex;
    var auth := TypeIO.DecodeOptionalText(r, 1);
    var version := TypeIO.DecodeOptionalText(r, 2);
    var platform := TypeIO.DecodeOptionalText(r, 3);
    var minVersion := DecodeOptionalIndex(r, 4);
    var maxVersion := DecodeOptionalIndex(r, 5);
    m := ConnectionRequest(auth, version, platform, minVersion, maxVersion);
  }

  method DecodeConnectionResponse(r: BinaryReader) returns (m: Content)
    requires r.Valid()
    modifies r
    ensures r.After(old(r.Now()), ReadConnectionResponse(old(r.Rest())), m)
  {
    hide OptionalText, ReadUleb;
    var version := TypeIO.DecodeOptionalText(r, 1);
    var platform := TypeIO.DecodeOptionalText(r, 2);
    var quackVersion, hasQuackVersion := 0, false;
    var next := r.PeekFieldID();
    if next == 3 {
      var _ := r.ReadFieldID();
      quackVersion := r.ReadULEB128();
      hasQuackVersion := true;
    }
    m := ConnectionResponse(version, platform, quackVersion, hasQuackVersion);
  }

  method DecodePrepareResponse(r: BinaryReader) returns (out: Go<Content>)
    requires r.Valid()
    modifies r
    ensures Ended(r, old(r.Now()), ReadPrepareResponse(old(r.Rest())), out)
  {
    hide OptionalTypes, OptionalNames, OptionalBool, OptionalChunks, ReadHugeInt;
    var types := DecodeOptionalTypes(r, 1);
    var names := DecodeOptionalNames(r, 2);
    var needsMore := DecodeOptionalBool(r, 3);
    var results :- DecodeOptionalChunks(r, 4);
    var uuid := ZERO;
    var ok := r.RequireField(5);
    if ok {
      uuid := r.ReadHugeInt();
    }
    return Returned(PrepareResponse(types, names, needsMore, results, uuid));
  }

  method DecodeFetchResponse(r: BinaryReader) returns (out: Go<Content>)
    requires r.Valid()
    modifies r
    ensures Ended(r, old(r.Now()), ReadFetchResponse(old(r.Rest())), out)
  {
    hide OptionalChunks, ReadUleb;
    var results :- DecodeOptionalChunks(r, 1);
    var index: Uint64 := 0;
    var ok := r.RequireField(2);
    if ok {
      index := r.ReadULEB128();
    }
    if index != INVALID_INDEX {
      return Returned(FetchResponse(results, index, true));
    }
    return Returned(FetchResponse(results, 0, false));
  }

  method DecodeAppendRequest(r: BinaryReader) returns (out: Go<Content>)
    requires r.Valid()
    modifies r
    ensures Ended(r, old(r.Now()), ReadAppendRequest(old(r.Rest())), out)
  {
    hide OptionalText, ReadChunkPointer;
    var schemaName := TypeIO.DecodeOptionalText(r, 1);
    var tableName := TypeIO.DecodeOptionalText(r, 2);
    var chunk := NO_CHUNK;
    var present := r.OptionalField(3);
    if present {
      chunk :- DecodeChunkPointer(r);
    }
    return Returned(AppendRequest(schemaName, tableName, chunk));
  }

  /** The kinds without a list, a chunk or a version. */
  method DecodeShort(r: BinaryReader, kind: Int64) returns (m: Content)
    requires r.Valid()
    requires kind in {PREPARE_REQUEST, FETCH_REQUEST, SUCCESS_RESPONSE, DISCONNECT_MESSAGE, ERROR_RESPONSE}
    modifies r
    ensures r.After(old(r.Now()), ReadFields(kind, old(r.Rest())), m)
  {
    hide OptionalText, ReadHugeInt;
    if kind == PREPARE_REQUEST {
      var sql := TypeIO.DecodeOptionalText(r, 1);
      m := PrepareRequest(sql);
    } else if kind == FETCH_REQUEST {
      var uuid := ZERO;
      var ok := r.RequireField(1);
      if ok {
        uuid := r.ReadHugeInt();
      }
      m := FetchRequest(uuid);
    } else if kind == SUCCESS_RESPONSE {
      m := SuccessResponse;
    } else if kind == DISCONNECT_MESSAGE {
      m := DisconnectMessage;
    } else {
      var message := TypeIO.DecodeOptionalText(r, 1);
      m := ErrorResponse(message);
    }
  }

  method DecodeFields(r: BinaryReader, kind: Int64) returns (out: Go<Content>)
    requires r.Valid() && KnownKind(kind)
    modifies r
    ensures Ended(r, old(r.Now()), ReadFields(kind, old(r.Rest())), out)
  {
    hide OptionalText, ReadHugeInt, ReadConnectionRequest, ReadConnectionResponse, ReadPrepareResponse,
      ReadFetchResponse, ReadAppendRequest;
    if kind == CONNECTION_REQUEST {
      var m := DecodeConnectionRequest(r);
      out := Returned(m);
    } else if kind == CONNECTION_RESPONSE {
      var m := DecodeConnectionResponse(r);
      out := Returned(m);
    } else if kind == PREPARE_RESPONSE {
      out := DecodePrepareResponse(r);
    } else if kind == FETCH_RESPONSE {
      out := DecodeFetchResponse(r);
    } else if kind == APPEND_REQUEST {
      out := DecodeAppendRequest(r);
    } else {
      var m := DecodeShort(r, kind);
      out := Returned(m);
    }
  }

  /** An unknown kind reads nothing and gives no message. */
  method DecodeBody(r: BinaryReader, h: MessageHeader) returns (out: Go<Option<Message>>)
    requires r.Valid()
    modifies r
    ensures Ended(r, old(r.Now()), ReadMessageBody(h, old(r.Rest())), out)
  {
    hide ReadFields;
    if !KnownKind(h.kind) {
      return Returned(None);
    }
    var content :- DecodeFields(r, h.kind);
    var ok := r.EndObject();
    return Returned(if ok then Some(Message(h, content)) else None);
  }

  datatype Decoded = Decoded(message: Option<Message>) | DecodeError

  /** The whole input must be one message. Malformed input gives an error, or a panic on its way there. */
  method DecodeMessage(bytes: Bytes) returns (out: Go<Decoded>)
    ensures match Decode(bytes)
            case Ok(m, _) => out == Returned(Decoded(m))
            case Fail => out == Returned(DecodeError) || out.Panicked?
            case Panic => out.Panicked?
  {
    hide ReadHeader, ReadMessageBody;
    var r := new BinaryReader(bytes);
    assert r.Rest() == bytes;
    var header := DecodeHeader(r);
    if r.err.Some? {
      return Returned(DecodeError);
    }
    var m :- DecodeBody(r, header);
    if r.err.Some? {
      return Returned(DecodeError);
    }
    r.ForceEof();
    if r.err.Some? {
      return Returned(DecodeError);
    }
    return Returned(Decoded(m));
  }
}
