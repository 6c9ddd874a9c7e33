/** A result read lazily, chunk by chunk, against the same result drained at once. */
module Cursors {
  import opened Numbers

  /** One chunk of a result. `convertible` says whether it can be turned into an Arrow record. */
  datatype ResultChunk = ResultChunk(rowCount: nat, payload: Bytes, convertible: bool)

  /** The server's answer to a fetch; `more` is the presence of a batch index. */
  datatype Response = Fetched(chunks: seq<ResultChunk>, more: bool) | Failed

  /** What a cursor still has: chunks in hand, whether to ask for more, and the answers the server will give. */
  datatype Source = Source(buffered: seq<ResultChunk>, needsMore: bool, responses: seq<Response>)

  /** A server that gives no further answer fails the request. */
  function Head(responses: seq<Response>): Response {
    if responses == [] then Failed else responses[0]
  }

  function Tail(responses: seq<Response>): seq<Response> {
    if responses == [] then [] else responses[1..]
  }

  // ---- one step of the lazy path ----

  datatype Item = Chunk(chunk: ResultChunk) | Exhausted | FetchError

  function FetchStep(src: Source): (Source, bool) {
    match Head(src.responses)
    case Failed => (src.(responses := Tail(src.responses)), false)
    case Fetched(chunks, more) => (Source(src.buffered + chunks, more, Tail(src.responses)), true)
  }

  /** One chunk or one answer less is left. */
  predicate Shrinks(src1: Source, src: Source) {
    |src1.responses| < |src.responses|
    || (src1.responses == src.responses && |src1.buffered| < |src.buffered|)
  }

  function NextStep(src: Source): (r: (Source, Item))
    ensures r.1.Chunk? ==> Shrinks(r.0, src)
  {
    if src.buffered == [] && src.needsMore then
      var (src1, ok) := FetchStep(src);
      if ok then TakeBuffered(src1) else (src1, FetchError)
    else TakeBuffered(src)
  }

  function TakeBuffered(src: Source): (Source, Item) {
    if src.buffered == [] then (src, Exhausted)
    else (src.(buffered := src.buffered[1..]), Chunk(src.buffered[0]))
  }

  // ---- what the buffer holds ----

  /** The chunks of the last answer that came, given the one before this step. */
  function LatestAfter(src: Source, last: seq<ResultChunk>): seq<ResultChunk> {
    if src.buffered == [] && src.needsMore && Head(src.responses).Fetched? then Head(src.responses).chunks else last
  }

  predicate Ends<T(==)>(part: seq<T>, whole: seq<T>) {
    |part| <= |whole| && part == whole[|whole| - |part|..]
  }

  /** Where a number of steps lead. */
  function Walk(src: Source, steps: nat): Source {
    if steps == 0 then src else NextStep(Walk(src, steps - 1)).0
  }

  /** The chunks of the last answer that came during the steps, or those that were there before them. */
  function LatestOf(src: Source, steps: nat): seq<ResultChunk> {
    if steps == 0 then src.buffered else LatestAfter(Walk(src, steps - 1), LatestOf(src, steps - 1))
  }

  /** The chunks of the last answer in a list, or `first` when there is none. */
  function Latest(first: seq<ResultChunk>, answers: seq<Response>): seq<ResultChunk> {
    if answers == [] then first
    else
      match answers[|answers| - 1]
      case Fetched(chunks, _) => chunks
      case Failed => Latest(first, answers[..|answers| - 1])
  }

  /**
   On every run the answers are used up from the front, and the buffer is the end of the last one that came, or of
   the chunks there were at first.
   */
  lemma {:induction false} BufferIsEndOfLatest(src: Source, steps: nat)
    ensures var now := Walk(src, steps);
            Ends(now.responses, src.responses) && |now.responses| <= |src.responses|
            && LatestOf(src, steps) == Latest(src.buffered, src.responses[..|src.responses| - |now.responses|])
            && Ends(now.buffered, LatestOf(src, steps))
  {
    hide NextStep, LatestAfter, Latest, Ends;
    if steps > 0 {
      BufferIsEndOfLatest(src, steps - 1);
      var before, now := Walk(src, steps - 1), Walk(src, steps);
      StepEnds(before, LatestOf(src, steps - 1));
      if now.responses != before.responses {
        LatestMore(src.buffered, src.responses, before.responses);
      }
    } else {
      NoAnswers(src);
    }
  }

  /** One more answer is used. */
  lemma {:induction false} LatestMore(first: seq<ResultChunk>, answers: seq<Response>, left: seq<Response>)
    requires left != [] && Ends(left, answers)
    ensures var used := |answers| - |left|;
            Ends(left[1..], answers)
            && Latest(first, answers[..used + 1]) == Latest(Latest(first, answers[..used]), [left[0]])
  {
    var used := |answers| - |left|;
    assert answers[..used + 1][..used] == answers[..used] && [left[0]][..0] == [];
    assert answers[used] == left[0];
  }

  lemma NoAnswers(src: Source)
    ensures Ends(src.buffered, src.buffered) && Ends(src.responses, src.responses)
    ensures Latest(src.buffered, src.responses[..0]) == src.buffered
  {
  }

  /** One step uses at most the next answer and leaves the end of the last one in hand. */
  lemma {:induction false} StepEnds(src: Source, last: seq<ResultChunk>)
    requires Ends(src.buffered, last)
    ensures var next, latest := NextStep(src).0, LatestAfter(src, last);
            Ends(next.buffered, latest)
            && if next.responses == src.responses then latest == last
               else
                 src.responses != [] && next.responses == src.responses[1..]
                 && latest == Latest(last, [src.responses[0]])
  {
    if src.buffered == [] && src.needsMore && Head(src.responses).Fetched? {
      var chunks := Head(src.responses).chunks;
      assert [] + chunks == chunks;
    }
  }

  // ---- whole runs ----

  /** All chunks that nextChunk hands out before it reports the end, and whether it ended without an error. */
  function Stream(src: Source): (seq<ResultChunk>, bool)
    decreases |src.responses|, |src.buffered|
  {
    var (src1, item) := NextStep(src);
    match item
    case Exhausted => ([], true)
    case FetchError => ([], false)
    case Chunk(chunk) =>
      var (rest, ok) := Stream(src1);
      ([chunk] + rest, ok)
  }

  /** All chunks that drainAll receives, and whether no fetch failed. */
  function Drain(src: Source): (seq<ResultChunk>, bool)
    decreases |src.responses|
  {
    if !src.needsMore then (src.buffered, true)
    else
      match Head(src.responses)
      case Failed => (src.buffered, false)
      case Fetched(chunks, more) =>
        var (rest, ok) := Drain(Source(chunks, more, Tail(src.responses)));
        (src.buffered + rest, ok)
  }

  /** The chunks of the last answer that came while draining. */
  function LatestDrained(src: Source, last: seq<ResultChunk>): seq<ResultChunk>
    decreases |src.responses|
  {
    if !src.needsMore then last
    else
      match Head(src.responses)
      case Failed => last
      case Fetched(chunks, more) => LatestDrained(Source(chunks, more, Tail(src.responses)), chunks)
  }

  /** The answers that are asked for one after the other, as long as each promises another. */
  predicate Asked(src: Source, count: nat) {
    count <= |src.responses| && src.needsMore
    && forall m | 0 <= m < count :: src.responses[m].Fetched? && src.responses[m].more
  }

  /** Answer `j` is reached and brings chunks. */
  predicate Arrives(src: Source, j: nat) {
    j < |src.responses| && Asked(src, j) && src.responses[j].Fetched? && src.responses[j].chunks != []
  }

  /** Answer `i` is empty and promises more, and the later answer `j` brings chunks. */
  predicate LateAt(src: Source, i: nat, j: nat) {
    i < j && Arrives(src, j) && src.responses[i].chunks == []
  }

  /** A chunk follows an empty answer that promised more. */
  ghost predicate LateChunk(src: Source) {
    exists i: nat, j: nat :: LateAt(src, i, j)
  }

  /** drainAll receives something exactly when chunks are in hand or an answer it reaches brings some. */
  lemma {:induction false} DrainReceives(src: Source)
    ensures Drain(src).0 != [] <==> src.buffered != [] || exists j: nat :: Arrives(src, j)
    decreases |src.responses|
  {
    if src.needsMore && Head(src.responses).Fetched? {
      var answer := src.responses[0];
      var next := Source(answer.chunks, answer.more, src.responses[1..]);
      DrainReceives(next);
      forall j: nat ensures Arrives(src, j) <==> if j == 0 then answer.chunks != [] else Arrives(next, j - 1) {
        ArrivesNext(src, j);
      }
      if j: nat :| Arrives(next, j) {
        assert Arrives(src, j + 1);
      }
      if answer.chunks != [] {
        assert Arrives(src, 0);
      }
    }
  }

  lemma ArrivesNext(src: Source, j: nat)
    requires src.needsMore && src.responses != [] && src.responses[0].Fetched?
    ensures var next := Source(src.responses[0].chunks, src.responses[0].more, src.responses[1..]);
            Arrives(src, j) <==> if j == 0 then src.responses[0].chunks != [] else Arrives(next, j - 1)
  {
    if j > 0 {
      AskedNext(src, j);
    }
  }

  /** Whether a chunk comes late is settled by the next answer, or is left to the ones after it. */
  lemma LateNext(src: Source)
    requires src.needsMore && src.responses != [] && src.responses[0].Fetched?
    ensures var next := Source(src.responses[0].chunks, src.responses[0].more, src.responses[1..]);
            LateChunk(src)
            <==> if next.buffered == [] then exists j: nat :: Arrives(next, j) else LateChunk(next)
  {
    var next := Source(src.responses[0].chunks, src.responses[0].more, src.responses[1..]);
    if i: nat, j: nat :| LateAt(src, i, j) {
      ArrivesNext(src, j);
      if i > 0 {
        assert LateAt(next, i - 1, j - 1);
      }
    }
    if j: nat :| next.buffered == [] && Arrives(next, j) {
      ArrivesNext(src, j + 1);
      assert LateAt(src, 0, j + 1);
    }
    if i: nat, j: nat :| LateAt(next, i, j) {
      ArrivesNext(src, j + 1);
      assert LateAt(src, i + 1, j + 1);
    }
  }

  lemma {:induction false} StreamBuffered(src: Source)
    ensures Stream(src).0 == src.buffered + Stream(src.(buffered := [])).0
    ensures Stream(src).1 == Stream(src.(buffered := [])).1
    decreases |src.buffered|
  {
    if src.buffered == [] {
      assert src.(buffered := []) == src;
    } else {
      var src1 := src.(buffered := src.buffered[1..]);
      assert NextStep(src) == (src1, Chunk(src.buffered[0]));
      StreamBuffered(src1);
      assert src.buffered == [src.buffered[0]] + src.buffered[1..];
    }
  }

  lemma {:induction false} StreamEmpty(src: Source)
    requires src.buffered == [] && src.needsMore && Head(src.responses).Fetched?
    ensures var next := Source(Head(src.responses).chunks, Head(src.responses).more, Tail(src.responses));
            Stream(src) == if next.buffered == [] then ([], true) else Stream(next)
  {
    var answer := Head(src.responses);
    var next := Source(answer.chunks, answer.more, Tail(src.responses));
    assert src.buffered + answer.chunks == answer.chunks;
    assert FetchStep(src) == (next, true);
    if next.buffered != [] {
      assert NextStep(next) == TakeBuffered(next) == NextStep(src);
    }
  }

  /**
   The lazy stream is always a prefix of what drainAll receives, and it is all of it exactly when no answer that
   brings chunks follows an empty answer that promised more. A lazy error is also an error of drainAll.
   */
  lemma {:induction false} StreamIsPrefix(src: Source)
    ensures Stream(src).0 <= Drain(src).0
    ensures Stream(src).0 == Drain(src).0 <==> !exists i: nat, j: nat :: LateAt(src, i, j)
    ensures !Stream(src).1 ==> !Drain(src).1
    ensures !LateChunk(src) && Drain(src).1 ==> Stream(src).1
    decreases |src.responses|
  {
    hide LateAt, Arrives;
    StreamBuffered(src);
    var bare := src.(buffered := []);
    if src.needsMore && Head(src.responses).Fetched? {
      var answer := Head(src.responses);
      var next := Source(answer.chunks, answer.more, Tail(src.responses));
      StreamEmpty(bare);
      StreamIsPrefix(next);
      LateNext(src);
      DrainReceives(next);
      assert Drain(src).0 == src.buffered + Drain(next).0;
      SameFront(src.buffered, Stream(bare).0, Drain(next).0);
    } else {
      NothingLate(src);
      assert Stream(bare).0 == [];
    }
  }

  lemma NothingLate(src: Source)
    requires !src.needsMore || Head(src.responses).Failed?
    ensures !exists i: nat, j: nat :: LateAt(src, i, j)
  {
  }

  lemma SameFront(front: seq<ResultChunk>, a: seq<ResultChunk>, b: seq<ResultChunk>)
    ensures front + a == front + b <==> a == b
    ensures a <= b ==> front + a <= front + b
  {
    assert (front + a)[|front|..] == a && (front + b)[|front|..] == b;
  }

  /** Every answer that promises more carries a chunk. */
  predicate AnswersCarryChunks(responses: seq<Response>) {
    forall i | 0 <= i < |responses| :: responses[i].Fetched? && responses[i].more ==> responses[i].chunks != []
  }

  lemma NoLateChunk(src: Source)
    requires AnswersCarryChunks(src.responses)
    ensures !LateChunk(src)
  {
  }

  /** Then reading lazily and draining at once give the same chunks, and fail alike. */
  lemma {:induction false} StreamIsDrain(src: Source)
    requires AnswersCarryChunks(src.responses)
    ensures Stream(src) == Drain(src)
  {
    NoLateChunk(src);
    StreamIsPrefix(src);
    FailsAlike(src);
  }

  lemma {:induction false} FailsAlike(src: Source)
    requires AnswersCarryChunks(src.responses)
    ensures Stream(src).1 <==> Drain(src).1
    decreases |src.responses|
  {
    StreamBuffered(src);
    var bare := src.(buffered := []);
    if src.needsMore && Head(src.responses).Fetched? {
      var answer := src.responses[0];
      var next := Source(answer.chunks, answer.more, src.responses[1..]);
      StreamEmpty(bare);
      FailsAlike(next);
    }
  }

  // ---- when a read fails ----

  /** The answer after the first `count` is a refusal, or is never given. */
  predicate RefusedAfter(src: Source, count: nat) {
    count == |src.responses| || (count < |src.responses| && src.responses[count].Failed?)
  }

  /** The answers before it all bring chunks and promise more, so that the refused one is asked for. */
  predicate StreamFailsAt(src: Source, j: nat) {
    Asked(src, j) && RefusedAfter(src, j) && forall m | 0 <= m < j :: src.responses[m].chunks != []
  }

  /** Reading lazily fails exactly when a refused answer is asked for before an empty one stops the reading. */
  lemma {:induction false} StreamFails(src: Source)
    ensures !Stream(src).1 <==> exists j: nat :: StreamFailsAt(src, j)
    decreases |src.responses|
  {
    StreamBuffered(src);
    var bare := src.(buffered := []);
    if src.needsMore && Head(src.responses).Fetched? {
      var answer := src.responses[0];
      var next := Source(answer.chunks, answer.more, src.responses[1..]);
      StreamEmpty(bare);
      StreamFails(next);
      forall j: nat
        ensures StreamFailsAt(src, j) <==> j > 0 && answer.chunks != [] && StreamFailsAt(next, j - 1)
      {
        StreamFailsNext(src, j);
      }
      if j: nat :| StreamFailsAt(next, j) {
        assert StreamFailsAt(src, j + 1) <==> answer.chunks != [];
      }
    } else if src.needsMore {
      assert StreamFailsAt(src, 0);
    }
  }

  lemma StreamFailsNext(src: Source, j: nat)
    requires src.needsMore && src.responses != [] && src.responses[0].Fetched?
    ensures var next := Source(src.responses[0].chunks, src.responses[0].more, src.responses[1..]);
            StreamFailsAt(src, j) <==> j > 0 && src.responses[0].chunks != [] && StreamFailsAt(next, j - 1)
  {
    if j > 0 {
      AskedNext(src, j);
      var next := Source(src.responses[0].chunks, src.responses[0].more, src.responses[1..]);
      if next.needsMore && j <= |src.responses| {
        assert forall m | 0 < m < j :: src.responses[m] == next.responses[m - 1];
        assert forall m | 0 <= m < j - 1 :: next.responses[m] == src.responses[m + 1];
      }
    }
  }

  lemma AskedNext(src: Source, j: nat)
    requires src.needsMore && src.responses != [] && src.responses[0].Fetched? && j > 0
    ensures var next := Source(src.responses[0].chunks, src.responses[0].more, src.responses[1..]);
            Asked(src, j) <==> Asked(next, j - 1)
  {
    var next := Source(src.responses[0].chunks, src.responses[0].more, src.responses[1..]);
    if Asked(next, j - 1) {
      forall m | 0 <= m < j ensures src.responses[m].Fetched? && src.responses[m].more {
        assert m > 0 ==> src.responses[m] == next.responses[m - 1];
      }
    }
    if Asked(src, j) {
      forall m | 0 <= m < j - 1 ensures next.responses[m].Fetched? && next.responses[m].more {
        assert next.responses[m] == src.responses[m + 1];
      }
    }
  }

  /** Draining fails exactly when a refused answer is asked for. */
  lemma {:induction false} DrainFails(src: Source)
    ensures !Drain(src).1 <==> exists j: nat :: Asked(src, j) && RefusedAfter(src, j)
    decreases |src.responses|
  {
    if src.needsMore && Head(src.responses).Fetched? {
      var answer := src.responses[0];
      var next := Source(answer.chunks, answer.more, src.responses[1..]);
      DrainFails(next);
      forall j: nat | j > 0 ensures Asked(src, j) <==> Asked(next, j - 1) {
        AskedNext(src, j);
      }
      if j: nat :| Asked(next, j) && RefusedAfter(next, j) {
        assert Asked(src, j + 1) && RefusedAfter(src, j + 1);
      }
    } else if src.needsMore {
      assert Asked(src, 0) && RefusedAfter(src, 0);
    }
  }

  /** One empty answer that promises more is enough to lose the chunks behind it. */
  lemma EmptyAnswerLosesChunks(chunk: ResultChunk)
    ensures var src := Source([], true, [Fetched([], true), Fetched([chunk], false)]);
            Stream(src) == ([], true) && Drain(src) == ([chunk], true)
  {
    var src := Source([], true, [Fetched([], true), Fetched([chunk], false)]);
    StreamEmpty(src);
    var next := Source([], true, [Fetched([chunk], false)]);
    assert Tail(src.responses) == next.responses;
    assert Drain(Source([chunk], false, [])) == ([chunk], true);
    assert Tail(next.responses) == [];
    assert [] + [chunk] == [chunk];
    assert Drain(next) == ([chunk], true);
  }

  // ---- records ----

  /** A record reader on top of a cursor: the record in hand, the sticky error and the end mark. */
  datatype Reader = Reader(source: Source, current: Option<ResultChunk>, failed: bool, done: bool)

  /** Empty chunks are passed over; the first chunk that cannot be converted stops the reader for good. */
  function Advance(src: Source): (r: Reader)
    ensures r.current.Some? ==> Shrinks(r.source, src) && !r.failed && !r.done
    ensures r.current.None? ==> r.failed != r.done
    decreases |src.responses|, |src.buffered|
  {
    var (src1, item) := NextStep(src);
    match item
    case Exhausted => Reader(src1, None, false, true)
    case FetchError => Reader(src1, None, true, false)
    case Chunk(chunk) =>
      if chunk.rowCount == 0 then Advance(src1)
      else if chunk.convertible then Reader(src1, Some(chunk), false, false)
      else Reader(src1, None, true, false)
  }

  function NextRecord(r: Reader): Reader {
    if r.failed || r.done then r else Advance(r.source)
  }

  /** The records handed out until Next reports the end. */
  function Records(src: Source): seq<ResultChunk>
    decreases |src.responses|, |src.buffered|
  {
    var r := Advance(src);
    if r.current.None? then [] else [r.current.value] + Records(r.source)
  }

  /** Whether Next reports the end without an error. */
  predicate ReadsThrough(src: Source)
    decreases |src.responses|, |src.buffered|
  {
    var r := Advance(src);
    if r.current.None? then !r.failed else ReadsThrough(r.source)
  }

  function NonEmpty(chunks: seq<ResultChunk>): seq<ResultChunk> {
    if chunks == [] then []
    else (if chunks[0].rowCount > 0 then [chunks[0]] else []) + NonEmpty(chunks[1..])
  }

  /** The chunks before the first one that cannot be converted. */
  function Convertible(chunks: seq<ResultChunk>): seq<ResultChunk> {
    if chunks == [] || !chunks[0].convertible then [] else [chunks[0]] + Convertible(chunks[1..])
  }

  function TotalRows(chunks: seq<ResultChunk>): nat {
    if chunks == [] then 0 else chunks[0].rowCount + TotalRows(chunks[1..])
  }

  /**
   The reader hands out exactly the non-empty chunks of the stream in order, up to one it cannot convert, and it ends
   without an error exactly when it could convert them all and no fetch failed.
   */
  lemma {:induction false} RecordsAreNonEmptyChunks(src: Source)
    ensures Records(src) == Convertible(NonEmpty(Stream(src).0))
    ensures ReadsThrough(src) <==> Stream(src).1 && Records(src) == NonEmpty(Stream(src).0)
    decreases |src.responses|, |src.buffered|
  {
    hide NextStep;
    var (src1, item) := NextStep(src);
    if item.Chunk? {
      RecordsAreNonEmptyChunks(src1);
      var rest := Stream(src1).0;
      assert ([item.chunk] + rest)[1..] == rest;
      if item.chunk.rowCount == 0 {
        assert Records(src) == Records(src1) && (ReadsThrough(src) <==> ReadsThrough(src1));
        assert [] + NonEmpty(rest) == NonEmpty(rest);
      } else {
        assert ([item.chunk] + NonEmpty(rest))[1..] == NonEmpty(rest);
      }
    }
  }

  lemma {:induction false} RowsConserved(chunks: seq<ResultChunk>)
    requires forall c | c in chunks :: c.rowCount > 0 ==> c.convertible
    ensures Convertible(NonEmpty(chunks)) == NonEmpty(chunks)
    ensures TotalRows(NonEmpty(chunks)) == TotalRows(chunks)
  {
    if chunks != [] {
      RowsConserved(chunks[1..]);
      var rest := NonEmpty(chunks[1..]);
      if chunks[0].rowCount > 0 {
        assert ([chunks[0]] + rest)[1..] == rest;
      } else {
        assert [] + rest == rest;
      }
    }
  }

  /** No row is lost between the server and the reader when answers carry chunks and chunks convert. */
  lemma {:induction false} EveryRowIsRead(src: Source)
    requires AnswersCarryChunks(src.responses)
    requires forall c | c in Drain(src).0 :: c.rowCount > 0 ==> c.convertible
    ensures Records(src) == NonEmpty(Drain(src).0)
    ensures TotalRows(Records(src)) == TotalRows(Drain(src).0)
    ensures Drain(src).1 <==> ReadsThrough(src)
  {
    StreamIsDrain(src);
    RecordsAreNonEmptyChunks(src);
    RowsConserved(Drain(src).0);
  }

  // ---- the objects ----

  /** The connection's side: a query-id counter, and the answers still to come. */
  class Session {
    var queryIdSeq: nat
    var responses: seq<Response>
    ghost var issued: seq<nat>

    /** Every request so far carried its own id, one after the other. */
    ghost predicate Valid()
      reads this
    {
      queryIdSeq == |issued| + 1 && forall i | 0 <= i < |issued| :: issued[i] == i + 1
    }

    constructor (answers: seq<Response>)
      ensures Valid() && responses == answers
    {
      queryIdSeq := 1;
      responses := answers;
      issued := [];
    }

    method NextQueryId() returns (id: nat)
      requires Valid()
      modifies this`queryIdSeq, this`issued
      ensures Valid() && id !in old(issued) && issued == old(issued) + [id]
    {
      id := queryIdSeq;
      queryIdSeq := queryIdSeq + 1;
      issued := issued + [id];
    }

    method Send() returns (answer: Response)
      requires Valid()
      modifies this
      ensures Valid() && answer == Head(old(responses)) && responses == Tail(old(responses))
      ensures |issued| == |old(issued)| + 1
    {
      var id := NextQueryId();
      answer := Head(responses);
      responses := Tail(responses);
    }
  }

  class Cursor {
    const sess: Session
    var buffered: seq<ResultChunk>
    var needsMore: bool
    var closed: bool
    ghost var last: seq<ResultChunk>

    ghost function View(): Source
      reads this, sess
    {
      Source(buffered, needsMore, sess.responses)
    }

    /** What is in hand is the end of `last`, the chunks of the last answer. */
    ghost predicate Valid()
      reads this, sess
    {
      sess.Valid() && Ends(buffered, last)
    }

    constructor (session: Session, first: seq<ResultChunk>, more: bool)
      requires session.Valid()
      ensures sess == session && Valid() && !closed
      ensures View() == Source(first, more, session.responses) && last == first
    {
      sess := session;
      buffered := first;
      needsMore := more;
      closed := false;
      last := first;
    }

    method FetchMore() returns (ok: bool)
      requires sess.Valid()
      modifies this`buffered, this`needsMore, this`last, sess
      ensures sess.Valid()
      ensures (View(), ok) == FetchStep(old(View()))
      ensures last == if ok then Head(old(sess.responses)).chunks else old(last)
      ensures ok && old(buffered) == [] ==> buffered == last
    {
      var answer := sess.Send();
      match answer {
        case Failed => return false;
        case Fetched(chunks, more) =>
          buffered := buffered + chunks;
          needsMore := more;
          last := chunks;
          assert [] + last == last;
          return true;
      }
    }

    method NextChunk() returns (item: Item)
      requires Valid()
      modifies this`buffered, this`needsMore, this`last, sess
      ensures Valid()
      ensures old(closed) ==> item == Exhausted && View() == old(View()) && last == old(last)
      ensures !old(closed) ==> (View(), item) == NextStep(old(View())) && last == LatestAfter(old(View()), old(last))
    {
      if closed {
        return Exhausted;
      }
      if |buffered| == 0 && needsMore {
        var ok := FetchMore();
        if !ok {
          return FetchError;
        }
      }
      if |buffered| == 0 {
        return Exhausted;
      }
      item := Chunk(buffered[0]);
      buffered := buffered[1..];
    }

    /** Every remaining chunk at once; on an error nothing is returned. */
    method DrainAll() returns (out: seq<ResultChunk>, ok: bool)
      requires Valid()
      modifies this`buffered, this`needsMore, this`last, sess
      ensures Valid()
      ensures ok == Drain(old(View())).1
      ensures out == if ok then Drain(old(View())).0 else []
      ensures buffered == [] && last == LatestDrained(old(View()), old(last))
    {
      hide Drain;
      out := buffered;
      buffered := [];
      ghost var start := old(View());
      DrainBuffered(start);
      while needsMore
        invariant Valid() && buffered == []
        invariant Drain(start) == (out + Drain(View()).0, Drain(View()).1)
        invariant LatestDrained(start, old(last)) == LatestDrained(View(), last)
        decreases |sess.responses|, needsMore
      {
        DrainFetch(out, View());
        var fetched := FetchMore();
        if !fetched {
          return [], false;
        }
        out := out + buffered;
        buffered := [];
      }
      DrainEnd(View());
      assert out + [] == out;
      return out, true;
    }

    method Close()
      modifies this`closed, this`buffered
      ensures closed && buffered == []
    {
      closed := true;
      buffered := [];
    }
  }

  lemma {:induction false} DrainBuffered(src: Source)
    ensures Drain(src).0 == src.buffered + Drain(src.(buffered := [])).0
    ensures Drain(src).1 == Drain(src.(buffered := [])).1
  {
    if src.needsMore && Head(src.responses).Fetched? {
      var answer := Head(src.responses);
      assert [] + Drain(Source(answer.chunks, answer.more, Tail(src.responses))).0
             == Drain(Source(answer.chunks, answer.more, Tail(src.responses))).0;
    }
  }

  lemma {:induction false} DrainFetch(out: seq<ResultChunk>, src: Source)
    requires src.buffered == [] && src.needsMore
    ensures !FetchStep(src).1 ==> !Drain(src).1
    ensures var next := FetchStep(src).0;
            FetchStep(src).1 ==>
              out + Drain(src).0 == out + next.buffered + Drain(next.(buffered := [])).0
              && Drain(src).1 == Drain(next.(buffered := [])).1
  {
    if Head(src.responses).Fetched? {
      var next := FetchStep(src).0;
      assert [] + next.buffered == next.buffered;
      DrainBuffered(next);
      assert Drain(src).0 == Drain(next).0;
      assert out + (next.buffered + Drain(next.(buffered := [])).0)
             == out + next.buffered + Drain(next.(buffered := [])).0;
    }
  }

  lemma {:induction false} DrainEnd(src: Source)
    requires !src.needsMore
    ensures Drain(src) == (src.buffered, true)
  {
  }

  lemma {:induction false} RecordsStep(src: Source)
    ensures var r := Advance(src);
            Records(src) == if r.current.None? then [] else [r.current.value] + Records(r.source)
    ensures var r := Advance(src);
            ReadsThrough(src) <==> if r.current.None? then !r.failed else ReadsThrough(r.source)
  {
  }

  class StreamingRecordReader {
    const cursor: Cursor
    var current: Option<ResultChunk>
    var failed: bool
    var done: bool
    var refs: int

    ghost function View(): Reader
      reads this, cursor, cursor.sess
    {
      Reader(cursor.View(), current, failed, done)
    }

    ghost predicate Valid()
      reads this, cursor, cursor.sess
    {
      cursor.Valid()
    }

    constructor (source: Cursor)
      requires source.Valid()
      ensures cursor == source && Valid() && refs == 1
      ensures View() == Reader(source.View(), None, false, false)
    {
      cursor := source;
      current := None;
      failed := false;
      done := false;
      refs := 1;
    }

    method Retain()
      modifies this`refs
      ensures refs == old(refs) + 1
    {
      refs := refs + 1;
    }

    /** The last release drops the record in hand and closes the cursor; an earlier one changes only the count. */
    method Release()
      requires Valid()
      modifies this`refs, this`current, cursor`closed, cursor`buffered
      ensures Valid() && refs == old(refs) - 1
      ensures refs == 0 ==> cursor.closed && current.None?
      ensures refs != 0 ==> cursor.closed == old(cursor.closed) && View() == old(View())
    {
      refs := refs - 1;
      if refs != 0 {
        return;
      }
      current := None;
      cursor.Close();
    }

    method Next() returns (more: bool)
      requires Valid()
      modifies this`current, this`failed, this`done, cursor`buffered, cursor`needsMore, cursor`last, cursor.sess
      ensures Valid()
      ensures more == (!old(failed || done) && current.Some?)
      ensures !cursor.closed ==> View() == NextRecord(old(View()))
      ensures cursor.closed ==>
                View() == if old(failed || done) then old(View()) else Reader(old(cursor.View()), None, false, true)
    {
      if failed || done {
        return false;
      }
      current := None;
      while true
        invariant Valid() && !failed && !done && current.None?
        invariant cursor.closed ==> cursor.View() == old(cursor.View())
        invariant !cursor.closed ==> Advance(cursor.View()) == Advance(old(cursor.View()))
        decreases |cursor.sess.responses|, |cursor.buffered|
      {
        var item := cursor.NextChunk();
        match item {
          case FetchError =>
            failed := true;
            return false;
          case Exhausted =>
            done := true;
            return false;
          case Chunk(chunk) =>
            if chunk.rowCount != 0 {
              if !chunk.convertible {
                failed := true;
                return false;
              }
              current := Some(chunk);
              return true;
            }
        }
      }
    }

    /** Reading to the end: the loop that gathers the records of one bound row, and drops them all at an error. */
    method ReadAll() returns (recs: seq<ResultChunk>, ok: bool)
      requires Valid() && !cursor.closed && !failed && !done
      modifies this`current, this`failed, this`done, cursor`buffered, cursor`needsMore, cursor`last, cursor.sess
      ensures ok == ReadsThrough(old(cursor.View()))
      ensures recs == if ok then Records(old(cursor.View())) else []
    {
      hide Records, ReadsThrough, Advance;
      recs := [];
      ghost var all, through := Records(cursor.View()), ReadsThrough(cursor.View());
      RecordsStep(cursor.View());
      var more := Next();
      while more
        invariant Valid() && !cursor.closed && (more ==> current.Some? && !failed && !done)
        invariant all == recs + if more then [current.value] + Records(cursor.View()) else []
        invariant through == if more then ReadsThrough(cursor.View()) else !failed
        decreases more, |cursor.sess.responses|, |cursor.buffered|
      {
        RecordsStep(cursor.View());
        recs := recs + [current.value];
        more := Next();
      }
      ok := !failed;
      if !ok {
        recs := [];
      }
    }
  }
}
