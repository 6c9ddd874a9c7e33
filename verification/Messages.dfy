/** The ten Quack messages and their wire form: a header object followed by a body object. */
module Messages {
  import opened Numbers
  import opened Wire
  import opened QuackTypes
  import opened TypeCodec
  import opened HugeInts
  import opened Vectors
  import opened VectorEncoder
  import opened VectorDecoder

  /** The all-ones index that stands for an absent one. */
  const INVALID_INDEX: Uint64 := TWO_64 - 1

  const CONNECTION_REQUEST: Int64 := 1
  const CONNECTION_RESPONSE: Int64 := 2
  const PREPARE_REQUEST: Int64 := 3
  const PREPARE_RESPONSE: Int64 := 4
  const FETCH_REQUEST: Int64 := 7
  const FETCH_RESPONSE: Int64 := 8
  const APPEND_REQUEST: Int64 := 9
  const SUCCESS_RESPONSE: Int64 := 10
  const DISCONNECT_MESSAGE: Int64 := 11
  const ERROR_RESPONSE: Int64 := 100

  datatype MessageHeader = MessageHeader(kind: Int64, connectionId: Text, clientQueryId: Uint64)

  datatype Content =
    | ConnectionRequest(auth: Text, duckdbVersion: Text, platform: Text, minVersion: Uint64, maxVersion: Uint64)
    | ConnectionResponse(serverVersion: Text, serverPlatform: Text, quackVersion: Uint64, hasQuackVersion: bool)
    | PrepareRequest(sql: Text)
    | PrepareResponse(types: Slice<LogicalType>, names: Slice<Text>, needsMore: bool, results: Slice<DataChunk>,
                      resultUuid: HugeIntParts)
    | FetchRequest(uuid: HugeIntParts)
    | FetchResponse(batch: Slice<DataChunk>, batchIndex: Uint64, hasBatchIndex: bool)
    | AppendRequest(schemaName: Text, tableName: Text, chunk: DataChunk)
    | SuccessResponse
    | DisconnectMessage
    | ErrorResponse(message: Text)

  /** Every message kind carries a header. */
  datatype Message = Message(header: MessageHeader, content: Content)

  function KindOf(c: Content): Int64 {
    match c
    case ConnectionRequest(_, _, _, _, _) => CONNECTION_REQUEST
    case ConnectionResponse(_, _, _, _) => CONNECTION_RESPONSE
    case PrepareRequest(_) => PREPARE_REQUEST
    case PrepareResponse(_, _, _, _, _) => PREPARE_RESPONSE
    case FetchRequest(_) => FETCH_REQUEST
    case FetchResponse(_, _, _) => FETCH_RESPONSE
    case AppendRequest(_, _, _) => APPEND_REQUEST
    case SuccessResponse => SUCCESS_RESPONSE
    case DisconnectMessage => DISCONNECT_MESSAGE
    case ErrorResponse(_) => ERROR_RESPONSE
  }

  /** The zero chunk: what an absent chunk pointer reads as. */
  const NO_CHUNK: DataChunk := DataChunk(0, [], [])

  // ---- writing ----

  function Header(h: MessageHeader, kind: Int64, tail: Bytes): Bytes {
    Field(1, Int(kind, NonEmpty(2, h.connectionId, Field(3, Uleb(h.clientQueryId, End(tail))))))
  }

  function NonZero(id: nat, v: Uint64, tail: Bytes): Bytes {
    if v == 0 then tail else Field(id, Uleb(v, tail))
  }

  /** Every chunk that the message carries can be written. */
  predicate ContentEncodable(content: Content) {
    match content
    case PrepareResponse(_, _, _, results, _) => forall c | c in results :: ChunkEncodable(c)
    case FetchResponse(batch, _, _) => forall c | c in batch :: ChunkEncodable(c)
    case AppendRequest(_, _, chunk) => ChunkEncodable(chunk)
    case _ => true
  }

  function Chunks(chunks: seq<DataChunk>, tail: Bytes): Bytes
    requires forall c | c in chunks :: ChunkEncodable(c)
  {
    if chunks == [] then tail else Bool(true, ChunkWrapper(chunks[0], Chunks(chunks[1..], tail)))
  }

  function ChunkList(id: nat, chunks: seq<DataChunk>, tail: Bytes): Bytes
    requires forall c | c in chunks :: ChunkEncodable(c)
  {
    if chunks == [] then tail else Field(id, Int(|chunks|, Chunks(chunks, tail)))
  }

  function TypeList(id: nat, types: seq<LogicalType>, tail: Bytes): Bytes {
    if types == [] then tail else Field(id, Int(|types|, Types(types, tail)))
  }

  function NameList(id: nat, names: seq<Text>, tail: Bytes): Bytes {
    if names == [] then tail else Field(id, Int(|names|, Texts(names, tail)))
  }

  function Body(content: Content, tail: Bytes): Bytes
    requires ContentEncodable(content)
  {
    match content
    case ConnectionRequest(auth, version, platform, minVersion, maxVersion) =>
      NonEmpty(1, auth, NonEmpty(2, version, NonEmpty(3, platform,
        NonZero(4, minVersion, NonZero(5, maxVersion, End(tail))))))
    case ConnectionResponse(version, platform, quackVersion, hasQuackVersion) =>
      NonEmpty(1, version, NonEmpty(2, platform,
        Version(3, quackVersion, hasQuackVersion, End(tail))))
    case PrepareRequest(sql) => NonEmpty(1, sql, End(tail))
    case PrepareResponse(types, names, needsMore, results, uuid) =>
      TypeList(1, types, NameList(2, names, ResultFields(needsMore, results, uuid, End(tail))))
    case FetchRequest(uuid) => Field(1, HugeInt(uuid, End(tail)))
    case FetchResponse(batch, batchIndex, hasBatchIndex) =>
      ChunkList(1, batch, Field(2, Uleb(if hasBatchIndex then batchIndex else INVALID_INDEX, End(tail))))
    case AppendRequest(schemaName, tableName, chunk) =>
      NonEmpty(1, schemaName, NonEmpty(2, tableName, Field(3, Bool(true, ChunkWrapper(chunk, End(tail))))))
    case SuccessResponse => End(tail)
    case DisconnectMessage => End(tail)
    case ErrorResponse(message) => NonEmpty(1, message, End(tail))
  }

  function ResultFields(needsMore: bool, results: seq<DataChunk>, uuid: HugeIntParts, tail: Bytes): Bytes
    requires forall c | c in results :: ChunkEncodable(c)
  {
    More(3, needsMore, ChunkList(4, results, Field(5, HugeInt(uuid, tail))))
  }

  function Version(id: nat, version: Uint64, present: bool, tail: Bytes): Bytes {
    if present then Field(id, Uleb(version, tail)) else tail
  }

  function More(id: nat, needsMore: bool, tail: Bytes): Bytes {
    if needsMore then Field(id, Bool(true, tail)) else tail
  }

  function Encode(m: Message): Bytes
    requires ContentEncodable(m.content)
  {
    Header(m.header, KindOf(m.content), Body(m.content, []))
  }

  // ---- reading ----

  function ReadHeader(s: Bytes): (r: Read<MessageHeader>)
    ensures !r.Panic?
  {
    var (kind, s1) :- RequiredInt(1, s);
    var (connectionId, s2) :- OptionalText(2, s1);
    var (_, s3) :- Require(3, s2);
    var (queryId, s4) :- ReadUleb(s3);
    var (_, s5) :- ReadEnd(s4);
    Ok(MessageHeader(kind, connectionId, queryId), s5)
  }

  function OptionalIndex(id: nat, s: Bytes): (r: Read<Uint64>)
    ensures !r.Panic?
  {
    var (present, s1) :- Optional(id, s);
    if present then ReadUleb(s1) else Ok(0, s1)
  }

  function OptionalBool(id: nat, s: Bytes): (r: Read<bool>)
    ensures !r.Panic?
  {
    var (present, s1) :- Optional(id, s);
    if present then ReadBool(s1) else Ok(false, s1)
  }

  /** A chunk pointer: absent chunks read as the zero chunk. */
  function ReadChunkPointer(s: Bytes): (r: Read<DataChunk>)
    ensures r.Ok? ==> |r.rest| < |s|
  {
    var (present, s1) :- ReadBool(s);
    if present then ReadChunkWrapper(s1) else Ok(NO_CHUNK, s1)
  }

  function ReadChunks(n: nat, s: Bytes): (r: Read<seq<DataChunk>>)
    ensures r.Ok? ==> |r.value| == n
  {
    if n == 0 then Ok([], s)
    else
      var (head, s1) :- ReadChunkPointer(s);
      var (rest, s2) :- ReadChunks(n - 1, s1);
      Ok([head] + rest, s2)
  }

  function OptionalChunks(id: nat, s: Bytes): (r: Read<Slice<DataChunk>>) {
    var (present, s1) :- Optional(id, s);
    if present then
      var (n, s2) :- ReadUlebInt(s1);
      ReadChunks(n, s2)
    else Ok([], s1)
  }

  function OptionalTypes(id: nat, s: Bytes): (r: Read<Slice<LogicalType>>)
    ensures !r.Panic?
  {
    var (present, s1) :- Optional(id, s);
    if present then
      var (n, s2) :- ReadUlebInt(s1);
      ReadTypes(n, s2)
    else Ok([], s1)
  }

  function OptionalNames(id: nat, s: Bytes): (r: Read<Slice<Text>>)
    ensures !r.Panic?
  {
    var (present, s1) :- Optional(id, s);
    if present then
      var (n, s2) :- ReadUlebInt(s1);
      ReadTexts(n, s2)
    else Ok([], s1)
  }

  function ReadConnectionRequest(s: Bytes): (r: Read<Content>)
    ensures !r.Panic?
  {
    var (auth, s1) :- OptionalText(1, s);
    var (version, s2) :- OptionalText(2, s1);
    var (platform, s3) :- OptionalText(3, s2);
    var (minVersion, s4) :- OptionalIndex(4, s3);
    var (maxVersion, s5) :- OptionalIndex(5, s4);
    Ok(ConnectionRequest(auth, version, platform, minVersion, maxVersion), s5)
  }

  /** The version is looked for by peeking, which is an error when fewer than two bytes are left. */
  function ReadConnectionResponse(s: Bytes): (r: Read<Content>)
    ensures !r.Panic?
  {
    var (version, s1) :- OptionalText(1, s);
    var (platform, s2) :- OptionalText(2, s1);
    var (next, s3) :- ReadFieldId(s2);
    if next == 3 then
      var (quackVersion, s4) :- ReadUleb(s3);
      Ok(ConnectionResponse(version, platform, quackVersion, true), s4)
    else Ok(ConnectionResponse(version, platform, 0, false), s2)
  }

  function ReadPrepareResponse(s: Bytes): Read<Content> {
    var (types, s1) :- OptionalTypes(1, s);
    var (names, s2) :- OptionalNames(2, s1);
    var (needsMore, s3) :- OptionalBool(3, s2);
    var (results, s4) :- OptionalChunks(4, s3);
    var (_, s5) :- Require(5, s4);
    var (uuid, s6) :- ReadHugeInt(s5);
    Ok(PrepareResponse(types, names, needsMore, results, uuid), s6)
  }

  function ReadFetchResponse(s: Bytes): Read<Content> {
    var (results, s1) :- OptionalChunks(1, s);
    var (_, s2) :- Require(2, s1);
    var (index, s3) :- ReadUleb(s2);
    Ok(if index != INVALID_INDEX then FetchResponse(results, index, true)
       else FetchResponse(results, 0, false), s3)
  }

  function ReadAppendRequest(s: Bytes): Read<Content> {
    var (schemaName, s1) :- OptionalText(1, s);
    var (tableName, s2) :- OptionalText(2, s1);
    var (present, s3) :- Optional(3, s2);
    if present then
      var (chunk, s4) :- ReadChunkPointer(s3);
      Ok(AppendRequest(schemaName, tableName, chunk), s4)
    else Ok(AppendRequest(schemaName, tableName, NO_CHUNK), s3)
  }

  function ReadFields(kind: Int64, s: Bytes): Read<Content> {
    if kind == CONNECTION_REQUEST then ReadConnectionRequest(s)
    else if kind == CONNECTION_RESPONSE then ReadConnectionResponse(s)
    else if kind == PREPARE_REQUEST then
      var (sql, s1) :- OptionalText(1, s);
      Ok(PrepareRequest(sql), s1)
    else if kind == PREPARE_RESPONSE then ReadPrepareResponse(s)
    else if kind == FETCH_REQUEST then
      var (_, s1) :- Require(1, s);
      var (uuid, s2) :- ReadHugeInt(s1);
      Ok(FetchRequest(uuid), s2)
    else if kind == FETCH_RESPONSE then ReadFetchResponse(s)
    else if kind == APPEND_REQUEST then ReadAppendRequest(s)
    else if kind == SUCCESS_RESPONSE then Ok(SuccessResponse, s)
    else if kind == DISCONNECT_MESSAGE then Ok(DisconnectMessage, s)
    else
      var (message, s1) :- OptionalText(1, s);
      Ok(ErrorResponse(message), s1)
  }

  predicate KnownKind(kind: Int64) {
    kind in {CONNECTION_REQUEST, CONNECTION_RESPONSE, PREPARE_REQUEST, PREPARE_RESPONSE, FETCH_REQUEST, FETCH_RESPONSE,
             APPEND_REQUEST, SUCCESS_RESPONSE, DISCONNECT_MESSAGE, ERROR_RESPONSE}
  }

  /** An unknown kind has no body and gives no message. */
  function ReadMessageBody(h: MessageHeader, s: Bytes): Read<Option<Message>> {
    if !KnownKind(h.kind) then Ok(None, s)
    else
      var (content, s1) :- ReadFields(h.kind, s);
      var (_, s2) :- ReadEnd(s1);
      Ok(Some(Message(h, content)), s2)
  }

  function Decode(bytes: Bytes): Read<Option<Message>> {
    var (header, s1) :- ReadHeader(bytes);
    var (m, s2) :- ReadMessageBody(header, s1);
    var (_, s3) :- AssertEof(s2);
    Ok(m, s3)
  }
}
