/** A message survives the wire exactly when it is well formed; only the storage of its chunks may be normalised. */
module MessageRoundTrip {
  import opened Numbers
  import opened Wire
  import opened QuackTypes
  import opened TypeCodec
  import opened TypeRoundTrip
  import opened HugeInts
  import opened Vectors
  import opened VectorEncoder
  import opened VectorDecoder
  import Chunking = ChunkRoundTrip
  import opened Messages

  // ---- well-formed messages ----

  predicate ChunksPortable(chunks: seq<DataChunk>) {
    forall c | c in chunks :: Chunking.ChunkPortable(c)
  }

  /** A version or batch index that is marked absent is zero, and a present batch index is not the sentinel. */
  predicate ContentWellFormed(m: Content) {
    match m
    case ConnectionResponse(_, _, quackVersion, hasQuackVersion) => hasQuackVersion || quackVersion == 0
    case PrepareResponse(types, _, _, results, _) => TypesAllPortable(types) && ChunksPortable(results)
    case FetchResponse(batch, batchIndex, hasBatchIndex) =>
      ChunksPortable(batch) && if hasBatchIndex then batchIndex != INVALID_INDEX else batchIndex == 0
    case AppendRequest(_, _, chunk) => Chunking.ChunkPortable(chunk)
    case _ => true
  }

  predicate TypesAllPortable(types: seq<LogicalType>) {
    forall t | t in types :: Portable(t)
  }

  /** The header carries the message's own type. */
  predicate WellFormed(m: Message) {
    m.header.kind == KindOf(m.content) && ContentWellFormed(m.content)
  }

  // ---- the message that is read back ----

  function SettledChunks(chunks: seq<DataChunk>): (settled: seq<DataChunk>)
    requires forall c | c in chunks :: ChunkEncodable(c)
    ensures |settled| == |chunks|
  {
    if chunks == [] then [] else [Chunking.SettledChunk(chunks[0])] + SettledChunks(chunks[1..])
  }

  function SettledContent(m: Content): Content
    requires ContentEncodable(m)
  {
    match m
    case PrepareResponse(types, names, needsMore, results, uuid) =>
      PrepareResponse(types, names, needsMore, SettledChunks(results), uuid)
    case FetchResponse(batch, batchIndex, hasBatchIndex) =>
      FetchResponse(SettledChunks(batch), batchIndex, hasBatchIndex)
    case AppendRequest(schemaName, tableName, chunk) =>
      AppendRequest(schemaName, tableName, Chunking.SettledChunk(chunk))
    case _ => m
  }

  function Settled(m: Message): Message
    requires ContentEncodable(m.content)
  {
    Message(m.header, SettledContent(m.content))
  }

  // ---- parts ----

  lemma IndexRoundTrip(id: nat, v: Uint64, tail: Bytes)
    requires id < 0x1_0000 && NextIsNot(id, tail)
    ensures OptionalIndex(id, NonZero(id, v, tail)) == Ok(v, tail)
    ensures forall other :: other != id && NextIsNot(other, tail) ==> NextIsNot(other, NonZero(id, v, tail))
  {
    if v != 0 {
      OptionalField(id, id, Uleb(v, tail));
      UlebRoundTrip(v, tail);
      FieldRoundTrip(id, Uleb(v, tail));
    }
  }

  lemma HugeIntRoundTrip(p: HugeIntParts, tail: Bytes)
    ensures ReadHugeInt(HugeInt(p, tail)) == Ok(p, tail)
  {
    SlebRoundTrip(p.upper, Uleb(p.lower, tail));
    UlebRoundTrip(p.lower, tail);
  }

  lemma MoreRoundTrip(id: nat, b: bool, tail: Bytes)
    requires id < 0x1_0000 && NextIsNot(id, tail)
    ensures OptionalBool(id, More(id, b, tail)) == Ok(b, tail)
    ensures forall other :: other != id && NextIsNot(other, tail) ==> NextIsNot(other, More(id, b, tail))
  {
    if b {
      OptionalField(id, id, Bool(true, tail));
      BoolRoundTrip(true, tail);
      FieldRoundTrip(id, Bool(true, tail));
    }
  }

  lemma TypeListRoundTrip(id: nat, types: Slice<LogicalType>, tail: Bytes)
    requires id < 0x1_0000 && NextIsNot(id, tail)
    ensures Survives(OptionalTypes(id, TypeList(id, types, tail)), TypesAllPortable(types), types, tail)
  {
    if types != [] {
      OptionalField(id, id, Int(|types|, Types(types, tail)));
      IntRoundTrip(|types|, Types(types, tail));
      TypesRoundTrip(types, tail);
      assert TypesAllPortable(types) == TypesPortable(types);
    }
  }

  lemma NameListRoundTrip(id: nat, names: Slice<Text>, tail: Bytes)
    requires id < 0x1_0000 && NextIsNot(id, tail)
    ensures OptionalNames(id, NameList(id, names, tail)) == Ok(names, tail)
    ensures forall other :: other != id && NextIsNot(other, tail) ==> NextIsNot(other, NameList(id, names, tail))
  {
    if names != [] {
      OptionalField(id, id, Int(|names|, Texts(names, tail)));
      IntRoundTrip(|names|, Texts(names, tail));
      TextsRoundTrip(names, tail);
      FieldRoundTrip(id, Int(|names|, Texts(names, tail)));
    }
  }

  lemma PointerRoundTrip(chunk: DataChunk, tail: Bytes)
    requires ChunkEncodable(chunk)
    ensures Survives(ReadChunkPointer(Bool(true, ChunkWrapper(chunk, tail))),
                     Chunking.ChunkPortable(chunk), Chunking.SettledChunk(chunk), tail)
  {
    BoolRoundTrip(true, ChunkWrapper(chunk, tail));
    Chunking.ChunkWrapperRoundTrip(chunk, tail);
  }

  lemma {:induction false} ChunksRoundTrip(chunks: seq<DataChunk>, tail: Bytes)
    requires forall c | c in chunks :: ChunkEncodable(c)
    ensures Survives(ReadChunks(|chunks|, Chunks(chunks, tail)), ChunksPortable(chunks), SettledChunks(chunks), tail)
  {
    hide ReadChunkPointer, ChunkWrapper, Chunking.SettledChunk;
    if chunks != [] {
      var head, others := chunks[0], chunks[1..];
      PointerRoundTrip(head, Chunks(others, tail));
      if Chunking.ChunkPortable(head) {
        ChunksRoundTrip(others, tail);
      }
      ChunksPortableHead(chunks);
      var r := ReadChunks(|chunks|, Chunks(chunks, tail));
      assert SettledChunks(chunks)[0] == Chunking.SettledChunk(head);
      assert SettledChunks(chunks)[1..] == SettledChunks(others);
      assert r.Ok? && Chunking.ChunkPortable(head) ==> r.value[1..] == ReadChunks(|others|, Chunks(others, tail)).value;
    }
  }

  lemma ChunksPortableHead(chunks: seq<DataChunk>)
    requires chunks != []
    ensures ChunksPortable(chunks) <==> Chunking.ChunkPortable(chunks[0]) && ChunksPortable(chunks[1..])
  {
    assert chunks == [chunks[0]] + chunks[1..];
  }

  lemma {:induction false} ChunkListRoundTrip(id: nat, chunks: Slice<DataChunk>, tail: Bytes)
    requires id < 0x1_0000 && NextIsNot(id, tail)
    requires forall c | c in chunks :: ChunkEncodable(c)
    ensures Survives(OptionalChunks(id, ChunkList(id, chunks, tail)), ChunksPortable(chunks), SettledChunks(chunks), tail)
    ensures forall other :: other != id && NextIsNot(other, tail) ==> NextIsNot(other, ChunkList(id, chunks, tail))
  {
    hide ReadChunks, Chunks;
    if chunks != [] {
      var s := Chunks(chunks, tail);
      OptionalField(id, id, Int(|chunks|, s));
      IntRoundTrip(|chunks|, s);
      ChunksRoundTrip(chunks, tail);
      FieldRoundTrip(id, Int(|chunks|, s));
    }
  }

  lemma EndIsNoField(tail: Bytes)
    ensures forall id | 0 <= id < FIELD_END :: NextIsNot(id, End(tail))
  {
    FieldRoundTrip(FIELD_END, tail);
  }

  // ---- bodies, one message kind at a time ----

  lemma ConnectionRequestRoundTrip(m: Content, tail: Bytes)
    requires m.ConnectionRequest?
    ensures ReadConnectionRequest(Body(m, tail)) == Ok(m, End(tail))
  {
    var s4 := NonZero(5, m.maxVersion, End(tail));
    var s3 := NonZero(4, m.minVersion, s4);
    var s2 := NonEmpty(3, m.platform, s3);
    EndIsNoField(tail);
    IndexRoundTrip(5, m.maxVersion, End(tail));
    IndexRoundTrip(4, m.minVersion, s4);
    NonEmptyRoundTrip(3, m.platform, s3);
    NonEmptyRoundTrip(2, m.duckdbVersion, s2);
    NonEmptyRoundTrip(1, m.auth, NonEmpty(2, m.duckdbVersion, s2));
  }

  lemma ConnectionResponseRoundTrip(m: Content, tail: Bytes)
    requires m.ConnectionResponse?
    ensures Survives(ReadConnectionResponse(Body(m, tail)), ContentWellFormed(m), m, End(tail))
  {
    var s2 := if m.hasQuackVersion then Field(3, Uleb(m.quackVersion, End(tail))) else End(tail);
    EndIsNoField(tail);
    FieldRoundTrip(3, Uleb(m.quackVersion, End(tail)));
    UlebRoundTrip(m.quackVersion, End(tail));
    FieldRoundTrip(FIELD_END, tail);
    NonEmptyRoundTrip(2, m.serverPlatform, s2);
    NonEmptyRoundTrip(1, m.serverVersion, NonEmpty(2, m.serverPlatform, s2));
  }

  lemma PrepareResponseRoundTrip(m: Content, tail: Bytes)
    requires m.PrepareResponse? && ContentEncodable(m)
    ensures Survives(ReadPrepareResponse(Body(m, tail)), ContentWellFormed(m), SettledContent(m), End(tail))
  {
    hide OptionalTypes, OptionalNames, OptionalBool, OptionalChunks, ReadHugeInt, TypeList, NameList, More, ChunkList,
      SettledChunks, TypesAllPortable, ChunksPortable;
    var s5 := HugeInt(m.resultUuid, End(tail));
    var s4 := Field(5, s5);
    var s3 := ChunkList(4, m.results, s4);
    var s2 := More(3, m.needsMore, s3);
    var s1 := NameList(2, m.names, s2);
    FieldRoundTrip(5, s5);
    HugeIntRoundTrip(m.resultUuid, End(tail));
    ChunkListRoundTrip(4, m.results, s4);
    MoreRoundTrip(3, m.needsMore, s3);
    NameListRoundTrip(2, m.names, s2);
    TypeListRoundTrip(1, m.types, s1);
  }

  lemma FetchResponseRoundTrip(m: Content, tail: Bytes)
    requires m.FetchResponse? && ContentEncodable(m)
    ensures Survives(ReadFetchResponse(Body(m, tail)), ContentWellFormed(m), SettledContent(m), End(tail))
  {
    hide OptionalChunks, ChunkList, SettledChunks, ChunksPortable, ReadUleb;
    var index := if m.hasBatchIndex then m.batchIndex else INVALID_INDEX;
    var s1 := Uleb(index, End(tail));
    FieldRoundTrip(2, s1);
    UlebRoundTrip(index, End(tail));
    ChunkListRoundTrip(1, m.batch, Field(2, s1));
  }

  lemma AppendRequestRoundTrip(m: Content, tail: Bytes)
    requires m.AppendRequest? && ContentEncodable(m)
    ensures Survives(ReadAppendRequest(Body(m, tail)), ContentWellFormed(m), SettledContent(m), End(tail))
  {
    hide ReadChunkPointer, ChunkWrapper, Chunking.SettledChunk, Chunking.ChunkPortable;
    var s3 := Bool(true, ChunkWrapper(m.chunk, End(tail)));
    var s2 := Field(3, s3);
    FieldRoundTrip(3, s3);
    NonEmptyRoundTrip(2, m.tableName, s2);
    NonEmptyRoundTrip(1, m.schemaName, NonEmpty(2, m.tableName, s2));
    PointerRoundTrip(m.chunk, End(tail));
  }

  lemma FieldsRoundTrip(m: Content, tail: Bytes)
    requires ContentEncodable(m)
    ensures Survives(ReadFields(KindOf(m), Body(m, tail)), ContentWellFormed(m), SettledContent(m), End(tail))
  {
    hide Body, ReadConnectionRequest, ReadConnectionResponse, ReadPrepareResponse, ReadFetchResponse,
      ReadAppendRequest, ChunksPortable, TypesAllPortable, SettledChunks, Chunking.ChunkPortable,
      Chunking.SettledChunk;
    match m {
      case ConnectionRequest(_, _, _, _, _) => ConnectionRequestRoundTrip(m, tail);
      case ConnectionResponse(_, _, _, _) => ConnectionResponseRoundTrip(m, tail);
      case PrepareResponse(_, _, _, _, _) => PrepareResponseRoundTrip(m, tail);
      case FetchResponse(_, _, _) => FetchResponseRoundTrip(m, tail);
      case AppendRequest(_, _, _) => AppendRequestRoundTrip(m, tail);
      case _ => SimpleRoundTrip(m, tail);
    }
  }

  /** The kinds with at most one field of their own. */
  lemma SimpleRoundTrip(m: Content, tail: Bytes)
    requires !m.ConnectionRequest? && !m.ConnectionResponse? && !m.PrepareResponse? && !m.FetchResponse?
    requires !m.AppendRequest?
    ensures Survives(ReadFields(KindOf(m), Body(m, tail)), ContentWellFormed(m), SettledContent(m), End(tail))
  {
    hide ReadConnectionRequest, ReadConnectionResponse, ReadPrepareResponse, ReadFetchResponse, ReadAppendRequest,
      OptionalText, NonEmpty, ReadHugeInt, HugeInt;
    match m {
      case PrepareRequest(sql) =>
        EndIsNoField(tail);
        NonEmptyRoundTrip(1, sql, End(tail));
      case FetchRequest(uuid) =>
        RequireField(1, HugeInt(uuid, End(tail)));
        HugeIntRoundTrip(uuid, End(tail));
      case ErrorResponse(message) =>
        EndIsNoField(tail);
        NonEmptyRoundTrip(1, message, End(tail));
      case _ =>
    }
  }

  lemma HeaderRoundTrip(h: MessageHeader, kind: Int64, tail: Bytes)
    requires kind >= 0
    ensures ReadHeader(Header(h, kind, tail)) == Ok(h.(kind := kind), tail)
  {
    var s3 := Uleb(h.clientQueryId, End(tail));
    var s2 := Field(3, s3);
    RequiredIntRoundTrip(1, kind, NonEmpty(2, h.connectionId, s2));
    FieldRoundTrip(3, s3);
    NonEmptyRoundTrip(2, h.connectionId, s2);
    UlebRoundTrip(h.clientQueryId, End(tail));
    EndRoundTrip(tail);
  }

  // ---- whole messages ----

  /** A message of any kind is decoded to its settled form if and only if it is well formed. */
  lemma MessageSurvives(m: Message)
    requires ContentEncodable(m.content)
    ensures Decode(Encode(m)) == Ok(Some(Settled(m)), []) <==> WellFormed(m)
  {
    hide Body, ReadFields, ReadHeader, Header, ContentWellFormed, SettledContent;
    HeaderRoundTrip(m.header, KindOf(m.content), Body(m.content, []));
    FieldsRoundTrip(m.content, []);
    EndRoundTrip([]);
  }

  // ---- what a message shows ----

  function ChunksOf(m: Content): seq<DataChunk> {
    match m
    case PrepareResponse(_, _, _, results, _) => results
    case FetchResponse(batch, _, _) => batch
    case AppendRequest(_, _, chunk) => [chunk]
    case _ => []
  }

  /** All other fields of the message. */
  function Bare(m: Content): Content {
    match m
    case PrepareResponse(_, _, _, _, _) => m.(results := [])
    case FetchResponse(_, _, _) => m.(batch := [])
    case AppendRequest(_, _, _) => m.(chunk := NO_CHUNK)
    case _ => m
  }

  predicate SameChunks(a: seq<DataChunk>, b: seq<DataChunk>) {
    |a| == |b| && forall i | 0 <= i < |a| :: Chunking.SameChunk(a[i], b[i])
  }

  /** The same header and fields, and row by row the same chunks. */
  predicate SameMessage(a: Message, b: Message) {
    a.header == b.header && Bare(a.content) == Bare(b.content)
    && SameChunks(ChunksOf(a.content), ChunksOf(b.content))
  }

  predicate CanonicalContent(m: Content)
    requires ContentEncodable(m)
  {
    forall c | c in ChunksOf(m) :: ChunkEncodable(c) && Chunking.RowsCanonical(c)
  }

  lemma {:induction false} SettledChunkAt(chunks: seq<DataChunk>, i: nat)
    requires (forall c | c in chunks :: ChunkEncodable(c)) && i < |chunks|
    ensures SettledChunks(chunks)[i] == Chunking.SettledChunk(chunks[i])
  {
    if i > 0 {
      SettledChunkAt(chunks[1..], i - 1);
    }
  }

  lemma SettledIsSame(m: Message)
    requires ContentEncodable(m.content)
    ensures SameMessage(m, Settled(m)) <==> CanonicalContent(m.content)
  {
    hide Chunking.SettledChunk, Chunking.SameChunk, Chunking.RowsCanonical, ChunkEncodable, SettledChunks;
    var chunks, back := ChunksOf(m.content), ChunksOf(Settled(m).content);
    SettledParts(m.content);
    forall i | 0 <= i < |chunks|
      ensures Chunking.SameChunk(chunks[i], back[i]) <==> Chunking.RowsCanonical(chunks[i])
    {
      SettledChunkAt(chunks, i);
      Chunking.ChunkRowsSurvive(chunks[i]);
    }
  }

  lemma SettledParts(m: Content)
    requires ContentEncodable(m)
    ensures forall c | c in ChunksOf(m) :: ChunkEncodable(c)
    ensures Bare(SettledContent(m)) == Bare(m) && ChunksOf(SettledContent(m)) == SettledChunks(ChunksOf(m))
  {
    hide ChunkEncodable, Chunking.SettledChunk;
    if m.AppendRequest? {
      assert [m.chunk][1..] == [];
    }
  }

  /**
   A well-formed message of any kind comes back with the same header and fields, and with row by row the same chunks if
   and only if every row is one that its column's storage keeps.
   */
  lemma MessageRowsSurvive(m: Message)
    requires ContentEncodable(m.content) && WellFormed(m)
    ensures var back := Decode(Encode(m));
            back.Ok? && back.rest == [] && back.value.Some?
            && (SameMessage(m, back.value.value) <==> CanonicalContent(m.content))
  {
    hide Encode, Decode, Settled, WellFormed, SameMessage, CanonicalContent;
    MessageSurvives(m);
    SettledIsSame(m);
  }

  /** Equal bytes mean equal messages up to the storage of their chunks, and row by row when the rows are canonical. */
  lemma EncodingInjective(a: Message, b: Message)
    requires ContentEncodable(a.content) && ContentEncodable(b.content) && WellFormed(a) && WellFormed(b)
    requires Encode(a) == Encode(b)
    ensures Settled(a) == Settled(b)
    ensures CanonicalContent(a.content) && CanonicalContent(b.content) ==> SameMessage(a, b)
  {
    hide Encode, Decode, Settled, SameMessage, WellFormed, CanonicalContent;
    MessageSurvives(a);
    MessageSurvives(b);
    SettledIsSame(a);
    SettledIsSame(b);
    if CanonicalContent(a.content) && CanonicalContent(b.content) {
      SameThroughThird(a, b, Settled(a));
    }
  }

  lemma SameThroughThird(a: Message, b: Message, c: Message)
    requires SameMessage(a, c) && SameMessage(b, c)
    ensures SameMessage(a, b)
  {
  }
}
