/** Lazy transactions: BEGIN is sent only when a statement runs with autocommit off. */
module Transactions {
  import opened Numbers

  /** The effect of one request on the database: a SQL text, or the rows of one append. */
  datatype Work = Sql(text: Bytes) | Append(table: Bytes, rows: nat)

  // ---- the server ----

  datatype Command = Begin | Commit | Rollback | Run(work: Work) | Disconnect

  /** `violated` records a BEGIN inside a transaction, or a COMMIT or ROLLBACK outside one. */
  datatype Server = Server(committed: seq<Work>, pending: Option<seq<Work>>, violated: bool)

  const FRESH: Server := Server([], None, false)

  /** A request that fails has no effect. Disconnecting drops whatever is pending. */
  function Answer(s: Server, c: Command, ok: bool): Server {
    if !ok && !c.Disconnect? then s
    else match c
      case Begin => if s.pending.Some? then s.(violated := true) else s.(pending := Some([]))
      case Commit =>
        if s.pending.None? then s.(violated := true)
        else s.(committed := s.committed + s.pending.value, pending := None)
      case Rollback => if s.pending.None? then s.(violated := true) else s.(pending := None)
      case Run(work) =>
        if s.pending.Some? then s.(pending := Some(s.pending.value + [work]))
        else s.(committed := s.committed + [work])
      case Disconnect => s.(pending := None)
  }

  /** Requests are sent in turn until one fails. */
  function Done(works: seq<Work>, replies: seq<bool>): (done: seq<Work>)
    ensures |done| <= |works| && done == works[..|done|]
  {
    if works == [] || replies == [] || !replies[0] then [] else [works[0]] + Done(works[1..], replies[1..])
  }

  function RunAll(s: Server, works: seq<Work>, replies: seq<bool>): Server
    decreases |works|
  {
    if works == [] || replies == [] || !replies[0] then s
    else RunAll(Answer(s, Run(works[0]), true), works[1..], replies[1..])
  }

  // ---- operations on a connection ----

  /**
   What a caller asks for. A query checks that SQL is set before anything is sent; an update starts its transaction
   first. `sound` is false when the driver itself reports an error after these statements: no SQL set, no parameter
   rows, or a marker count that does not fit.
   */
  datatype Op =
    | Query(sqlSet: bool, sound: bool, works: seq<Work>)
    | Update(sound: bool, works: seq<Work>)
    | CommitOp
    | RollbackOp
    | SetAutoCommit(on: bool)
    | SetUnknownValue

  /** How the server answers the requests of one operation: BEGIN, the statements in turn, and COMMIT or ROLLBACK. */
  datatype Replies = Replies(begin: bool, works: seq<bool>, control: bool)

  /** What the caller sees: whether the operation succeeded, and which statements took effect. */
  datatype Report = Report(ok: bool, done: seq<Work>)

  function Executed(sound: bool, works: seq<Work>, replies: seq<bool>): Report {
    Report(sound && |Done(works, replies)| == |works|, Done(works, replies))
  }

  // ---- the driver ----

  datatype Conn = Conn(autoCommit: bool, txOpen: bool, server: Server)

  function BeginTxIfNeeded(c: Conn, ok: bool): (Conn, bool) {
    if c.autoCommit || c.txOpen then (c, true)
    else if !ok then (c.(server := Answer(c.server, Begin, false)), false)
    else (c.(txOpen := true, server := Answer(c.server, Begin, true)), true)
  }

  function Execute(c: Conn, sound: bool, works: seq<Work>, r: Replies): (Conn, Report) {
    var (c1, began) := BeginTxIfNeeded(c, r.begin);
    if !began then (c1, Report(false, []))
    else (c1.(server := RunAll(c1.server, works, r.works)), Executed(sound, works, r.works))
  }

  /** Ends the open transaction, if any, with COMMIT or ROLLBACK. */
  function EndTx(c: Conn, command: Command, ok: bool): (Conn, Report) {
    if !c.txOpen then (c, Report(true, []))
    else if !ok then (c.(server := Answer(c.server, command, false)), Report(false, []))
    else (c.(txOpen := false, server := Answer(c.server, command, true)), Report(true, []))
  }

  function Step(c: Conn, op: Op, r: Replies): (Conn, Report) {
    match op
    case Query(sqlSet, sound, works) => if !sqlSet then (c, Report(false, [])) else Execute(c, sound, works, r)
    case Update(sound, works) => Execute(c, sound, works, r)
    case CommitOp => if c.autoCommit then (c, Report(false, [])) else EndTx(c, Commit, r.control)
    case RollbackOp => if c.autoCommit then (c, Report(false, [])) else EndTx(c, Rollback, r.control)
    case SetAutoCommit(on) =>
      if on then
        if c.autoCommit then (c, Report(true, []))
        else
          var (c1, report) := EndTx(c, Commit, r.control);
          (if report.ok then c1.(autoCommit := true) else c1, report)
      else (c.(autoCommit := false), Report(true, []))
    case SetUnknownValue => (c, Report(false, []))
  }

  /** An open transaction is rolled back, whether or not the server hears of it, and the session ends. */
  function CloseConn(c: Conn, ok: bool): Conn {
    var s := if c.txOpen then Answer(c.server, Rollback, ok) else c.server;
    c.(txOpen := false, server := Answer(s, Disconnect, true))
  }

  const OPENED: Conn := Conn(true, false, FRESH)

  function Steps(c: Conn, ops: seq<Op>, replies: seq<Replies>): (Conn, seq<Report>)
    requires |ops| == |replies|
    decreases |ops|
  {
    if ops == [] then (c, [])
    else
      var (c1, report) := Step(c, ops[0], replies[0]);
      var (c2, reports) := Steps(c1, ops[1..], replies[1..]);
      (c2, [report] + reports)
  }

  // ---- what autocommit means to a caller ----

  /** No server, no BEGIN: statements take effect at once, or wait for the next successful commit. */
  datatype History = History(autoCommit: bool, committed: seq<Work>, waiting: seq<Work>)

  const BLANK: History := History(true, [], [])

  function Record(h: History, op: Op, report: Report): History {
    match op
    case Query(_, _, _) | Update(_, _) =>
      if h.autoCommit then h.(committed := h.committed + report.done) else h.(waiting := h.waiting + report.done)
    case CommitOp =>
      if h.autoCommit || !report.ok then h else h.(committed := h.committed + h.waiting, waiting := [])
    case RollbackOp => if h.autoCommit || !report.ok then h else h.(waiting := [])
    case SetAutoCommit(on) =>
      if !report.ok then h
      else if on then h.(autoCommit := true, committed := h.committed + h.waiting, waiting := [])
      else h.(autoCommit := false)
    case SetUnknownValue => h
  }

  function Records(h: History, ops: seq<Op>, reports: seq<Report>): History
    requires |ops| == |reports|
    decreases |ops|
  {
    if ops == [] then h else Records(Record(h, ops[0], reports[0]), ops[1..], reports[1..])
  }

  // ---- the driver keeps what autocommit means ----

  /**
   The flags tell the server's state exactly, and the server holds exactly what the caller was told: autocommit implies
   no transaction, and no request was ever sent out of place.
   */
  predicate Faithful(c: Conn, h: History) {
    && c.autoCommit == h.autoCommit
    && (c.autoCommit ==> !c.txOpen)
    && c.server == Server(h.committed, if c.txOpen then Some(h.waiting) else None, false)
    && (!c.txOpen ==> h.waiting == [])
  }

  lemma {:induction false} RunAllDone(s: Server, works: seq<Work>, replies: seq<bool>)
    decreases |works|
    ensures RunAll(s, works, replies)
            == if s.pending.Some? then s.(pending := Some(s.pending.value + Done(works, replies)))
               else s.(committed := s.committed + Done(works, replies))
  {
    if works == [] || replies == [] || !replies[0] {
      assert s.committed + [] == s.committed;
      assert s.pending.Some? ==> s.pending.value + [] == s.pending.value;
    } else {
      var s1 := Answer(s, Run(works[0]), true);
      var rest := Done(works[1..], replies[1..]);
      RunAllDone(s1, works[1..], replies[1..]);
      if s.pending.Some? {
        assert s.pending.value + [works[0]] + rest == s.pending.value + ([works[0]] + rest);
      } else {
        assert s.committed + [works[0]] + rest == s.committed + ([works[0]] + rest);
      }
    }
  }

  lemma StepFaithful(c: Conn, h: History, op: Op, r: Replies)
    requires Faithful(c, h)
    ensures var (c1, report) := Step(c, op, r); Faithful(c1, Record(h, op, report))
  {
    match op {
      case Query(_, sound, works) => ExecuteFaithful(c, h, sound, works, r);
      case Update(sound, works) => ExecuteFaithful(c, h, sound, works, r);
      case _ => assert h.committed + [] == h.committed;
    }
  }

  lemma ExecuteFaithful(c: Conn, h: History, sound: bool, works: seq<Work>, r: Replies)
    requires Faithful(c, h)
    ensures var (c1, report) := Execute(c, sound, works, r); Faithful(c1, Record(h, Update(sound, works), report))
    ensures Record(h, Update(sound, works), Report(false, [])) == h
  {
    assert h.committed + [] == h.committed && h.waiting + [] == h.waiting;
    var (c1, began) := BeginTxIfNeeded(c, r.begin);
    RunAllDone(c1.server, works, r.works);
  }

  /** On every run, whatever fails, the driver stays faithful to what it reported. */
  lemma {:induction false} RunFaithful(c: Conn, h: History, ops: seq<Op>, replies: seq<Replies>)
    requires |ops| == |replies| && Faithful(c, h)
    decreases |ops|
    ensures var (c1, reports) := Steps(c, ops, replies);
            |reports| == |ops| && Faithful(c1, Records(h, ops, reports))
  {
    if ops != [] {
      var (c1, report) := Step(c, ops[0], replies[0]);
      StepFaithful(c, h, ops[0], replies[0]);
      RunFaithful(c1, Record(h, ops[0], report), ops[1..], replies[1..]);
      var (_, reports) := Steps(c1, ops[1..], replies[1..]);
      assert ([report] + reports)[1..] == reports;
    }
  }

  /**
   For every run from a fresh connection, with any requests failing: the server has committed exactly what the reports
   say, txOpen is the server's own state, autocommit implies no transaction, and no BEGIN, COMMIT or ROLLBACK was sent
   out of place. Closing loses only what waits.
   */
  lemma {:induction false} EveryRun(ops: seq<Op>, replies: seq<Replies>, closeReply: bool)
    requires |ops| == |replies|
    ensures var (c, reports) := Steps(OPENED, ops, replies);
            |reports| == |ops|
            && var h := Records(BLANK, ops, reports);
            && c.server.committed == h.committed
            && (c.txOpen <==> c.server.pending.Some?)
            && (c.autoCommit ==> !c.txOpen)
            && !c.server.violated
            && CloseConn(c, closeReply).server == Server(h.committed, None, false)
  {
    RunFaithful(OPENED, BLANK, ops, replies);
  }

  // ---- the eager driver ----

  /** A driver that begins as soon as autocommit goes off, and again after each commit and rollback. */
  datatype Eager = Eager(autoCommit: bool, server: Server)

  const EAGER_OPENED: Eager := Eager(true, FRESH)

  /** A COMMIT or ROLLBACK that is refused is reported and leaves the transaction open. */
  function EagerEnd(e: Eager, command: Command, ok: bool): (Eager, Report) {
    if !ok then (e.(server := Answer(e.server, command, false)), Report(false, []))
    else (e.(server := Answer(Answer(e.server, command, true), Begin, true)), Report(true, []))
  }

  /** Statements, COMMIT and ROLLBACK are answered as for the lazy driver; its own early BEGIN succeeds. */
  function EagerStep(e: Eager, op: Op, r: Replies): (Eager, Report) {
    match op
    case Query(sqlSet, sound, works) =>
      if !sqlSet then (e, Report(false, []))
      else (e.(server := RunAll(e.server, works, r.works)), Executed(sound, works, r.works))
    case Update(sound, works) => (e.(server := RunAll(e.server, works, r.works)), Executed(sound, works, r.works))
    case CommitOp => if e.autoCommit then (e, Report(false, [])) else EagerEnd(e, Commit, r.control)
    case RollbackOp => if e.autoCommit then (e, Report(false, [])) else EagerEnd(e, Rollback, r.control)
    case SetAutoCommit(on) =>
      if on == e.autoCommit then (e, Report(true, []))
      else if on then (Eager(r.control, Answer(e.server, Commit, r.control)), Report(r.control, []))
      else (Eager(false, Answer(e.server, Begin, true)), Report(true, []))
    case SetUnknownValue => (e, Report(false, []))
  }

  function EagerClose(e: Eager, ok: bool): Eager {
    var s := if e.autoCommit then e.server else Answer(e.server, Rollback, ok);
    e.(server := Answer(s, Disconnect, true))
  }

  function EagerSteps(e: Eager, ops: seq<Op>, replies: seq<Replies>): (Eager, seq<Report>)
    requires |ops| == |replies|
    decreases |ops|
  {
    if ops == [] then (e, [])
    else
      var (e1, report) := EagerStep(e, ops[0], replies[0]);
      var (e2, reports) := EagerSteps(e1, ops[1..], replies[1..]);
      (e2, [report] + reports)
  }

  predicate EagerFaithful(e: Eager, h: History) {
    && e.autoCommit == h.autoCommit
    && e.server == Server(h.committed, if e.autoCommit then None else Some(h.waiting), false)
    && (e.autoCommit ==> h.waiting == [])
  }

  lemma EagerStepFaithful(e: Eager, h: History, op: Op, r: Replies)
    requires EagerFaithful(e, h)
    ensures var (e1, report) := EagerStep(e, op, r); EagerFaithful(e1, Record(h, op, report))
  {
    assert h.committed + [] == h.committed && h.waiting + [] == h.waiting;
    match op {
      case Query(_, _, works) => RunAllDone(e.server, works, r.works);
      case Update(_, works) => RunAllDone(e.server, works, r.works);
      case _ =>
    }
  }

  /** BEGIN is sent for this operation: autocommit is off, no transaction is open, and something is to be executed. */
  predicate NeedsBegin(c: Conn, op: Op) {
    !c.autoCommit && !c.txOpen && (op.Update? || (op.Query? && op.sqlSet))
  }

  /** The caller asks for the end of a transaction that was never begun: nothing is sent. */
  predicate NothingToEnd(c: Conn, op: Op) {
    !c.autoCommit && !c.txOpen && (op.CommitOp? || op.RollbackOp? || op == SetAutoCommit(true))
  }

  /**
   The requests in which the two drivers differ succeed: each BEGIN of the lazy one, and each COMMIT or ROLLBACK that
   only the eager one sends. Statements, and the COMMIT and ROLLBACK requests that both send, may fail as they like.
   */
  predicate DifferencesSucceed(c: Conn, ops: seq<Op>, replies: seq<Replies>)
    requires |ops| == |replies|
    decreases |ops|
  {
    ops == []
    || ((NeedsBegin(c, ops[0]) ==> replies[0].begin)
        && (NothingToEnd(c, ops[0]) ==> replies[0].control)
        && DifferencesSucceed(Step(c, ops[0], replies[0]).0, ops[1..], replies[1..]))
  }

  lemma {:induction false} LazyMatchesEager(
    c: Conn, e: Eager, h: History, ops: seq<Op>, replies: seq<Replies>, last: bool)
    requires |ops| == |replies| && DifferencesSucceed(c, ops, replies)
    requires Faithful(c, h) && EagerFaithful(e, h)
    decreases |ops|
    ensures var (c1, reports) := Steps(c, ops, replies);
            var (e1, eagerReports) := EagerSteps(e, ops, replies);
            reports == eagerReports && c1.server.committed == e1.server.committed
            && CloseConn(c1, last).server == EagerClose(e1, last).server
  {
    if ops != [] {
      var (c1, report) := Step(c, ops[0], replies[0]);
      var (e1, eagerReport) := EagerStep(e, ops[0], replies[0]);
      SameReport(c, e, h, ops[0], replies[0]);
      StepFaithful(c, h, ops[0], replies[0]);
      EagerStepFaithful(e, h, ops[0], replies[0]);
      LazyMatchesEager(c1, e1, Record(h, ops[0], report), ops[1..], replies[1..], last);
    }
  }

  lemma SameReport(c: Conn, e: Eager, h: History, op: Op, r: Replies)
    requires Faithful(c, h) && EagerFaithful(e, h)
    requires (NeedsBegin(c, op) ==> r.begin) && (NothingToEnd(c, op) ==> r.control)
    ensures Step(c, op, r).1 == EagerStep(e, op, r).1
  {
  }

  /** Beginning lazily is invisible: same reports, same committed history, also after closing. */
  lemma {:induction false} LazyRefinesEager(ops: seq<Op>, replies: seq<Replies>, last: bool)
    requires |ops| == |replies| && DifferencesSucceed(OPENED, ops, replies)
    ensures var (c, reports) := Steps(OPENED, ops, replies);
            var (e, eagerReports) := EagerSteps(EAGER_OPENED, ops, replies);
            reports == eagerReports && c.server.committed == e.server.committed
            && CloseConn(c, last).server == EagerClose(e, last).server
  {
    LazyMatchesEager(OPENED, EAGER_OPENED, BLANK, ops, replies, last);
  }

  // ---- when a transaction is open, and when it is idle ----

  /** Ending a transaction leaves none behind, and without one the operation leaves the server as it is. */
  lemma EndingLeavesNone(c: Conn, h: History, op: Op, r: Replies)
    requires Faithful(c, h) && (op.CommitOp? || op.RollbackOp? || op.SetAutoCommit?)
    ensures var (c1, report) := Step(c, op, r);
            && (report.ok && !(op.SetAutoCommit? && !op.on) ==> c1.server.pending.None?)
            && (c.server.pending.None? ==> c1.server == c.server)
  {
  }

  /** The caller was told that a transaction, if there was one, is over. */
  predicate Ended(op: Op, report: Report) {
    report.ok && (op.CommitOp? || op.RollbackOp? || op == SetAutoCommit(true))
  }

  /** Nothing was ended, and no statement took effect. */
  predicate Quiet(op: Op, report: Report) {
    !Ended(op, report) && report.done == []
  }

  /** Operation `i` of the run sends BEGIN, and BEGIN succeeds. */
  predicate Begins(ops: seq<Op>, replies: seq<Replies>, i: nat)
    requires |ops| == |replies| && i < |ops|
  {
    NeedsBegin(Steps(OPENED, ops[..i], replies[..i]).0, ops[i]) && replies[i].begin
  }

  predicate OpenSince(ops: seq<Op>, replies: seq<Replies>, reports: seq<Report>, i: nat)
    requires |ops| == |replies| == |reports|
  {
    i < |ops| && Begins(ops, replies, i) && forall m | i <= m < |ops| :: !Ended(ops[m], reports[m])
  }

  predicate IdleSince(ops: seq<Op>, replies: seq<Replies>, reports: seq<Report>, i: nat)
    requires |ops| == |replies| == |reports|
  {
    i < |ops| && Begins(ops, replies, i) && forall m | i <= m < |ops| :: Quiet(ops[m], reports[m])
  }

  lemma OpenStep(c: Conn, h: History, op: Op, r: Replies)
    requires Faithful(c, h)
    ensures var (c1, report) := Step(c, op, r);
            var begins := NeedsBegin(c, op) && r.begin;
            && (c1.server.pending.Some? <==> !Ended(op, report) && (begins || c.server.pending.Some?))
            && (c1.server.pending == Some([]) <==> Quiet(op, report) && (begins || c.server.pending == Some([])))
  {
    var began := BeginTxIfNeeded(c, r.begin).0;
    match op {
      case Query(_, _, works) => RunAllDone(began.server, works, r.works);
      case Update(_, works) => RunAllDone(began.server, works, r.works);
      case _ =>
    }
  }

  /** A run is its last operation after all the others. */
  lemma {:induction false} StepsLast(c: Conn, ops: seq<Op>, replies: seq<Replies>)
    requires |ops| == |replies| > 0
    decreases |ops|
    ensures var n := |ops| - 1;
            var (c1, reports) := Steps(c, ops[..n], replies[..n]);
            var (c2, report) := Step(c1, ops[n], replies[n]);
            |reports| == n && Steps(c, ops, replies) == (c2, reports + [report])
  {
    var n := |ops| - 1;
    if n > 0 {
      var (c1, report) := Step(c, ops[0], replies[0]);
      StepsLast(c1, ops[1..], replies[1..]);
      assert ops[1..][..n - 1] == ops[..n][1..] && replies[1..][..n - 1] == replies[..n][1..];
      var (_, reports) := Steps(c1, ops[..n][1..], replies[..n][1..]);
      var last := Step(Steps(c1, ops[..n][1..], replies[..n][1..]).0, ops[n], replies[n]).1;
      assert [report] + (reports + [last]) == [report] + reports + [last];
    } else {
      assert ops[1..] == [] && replies[1..] == [];
      var report := Step(c, ops[0], replies[0]).1;
      assert [] + [report] == [report] + [];
    }
  }

  /**
   On every run a transaction is open exactly when some operation began one and none since has ended it, and it is idle,
   with nothing waiting in it, exactly when moreover no statement since has taken effect.
   */
  lemma {:induction false} OpenExactly(ops: seq<Op>, replies: seq<Replies>)
    requires |ops| == |replies|
    decreases |ops|
    ensures var (c, reports) := Steps(OPENED, ops, replies);
            |reports| == |ops|
            && (c.server.pending.Some? <==> exists i: nat :: OpenSince(ops, replies, reports, i))
            && (c.server.pending == Some([]) <==> exists i: nat :: IdleSince(ops, replies, reports, i))
  {
    hide Ended, Quiet, NeedsBegin, Step, Steps, Faithful;
    var (c, reports) := Steps(OPENED, ops, replies);
    if ops == [] {
      FreshRun();
    } else {
      var n := |ops| - 1;
      var before, answered := ops[..n], replies[..n];
      var (c1, earlier) := Steps(OPENED, before, answered);
      OpenExactly(before, answered);
      StepsLast(OPENED, ops, replies);
      RunFaithful(OPENED, BLANK, before, answered);
      OpenStep(c1, Records(BLANK, before, earlier), ops[n], replies[n]);
      forall i: nat | i < n ensures Begins(ops, replies, i) == Begins(before, answered, i) {
        assert before[..i] == ops[..i] && answered[..i] == replies[..i];
      }
      assert reports[..n] == earlier;
      SinceLast(ops, replies, reports);
    }
  }

  /** The last operation either begins the transaction itself, or keeps one that was open before it. */
  lemma SinceLast(ops: seq<Op>, replies: seq<Replies>, reports: seq<Report>)
    requires |ops| == |replies| == |reports| > 0
    requires var n := |ops| - 1;
             forall i: nat | i < n :: Begins(ops, replies, i) == Begins(ops[..n], replies[..n], i)
    ensures var n := |ops| - 1;
            && ((exists i: nat :: OpenSince(ops, replies, reports, i))
                <==> !Ended(ops[n], reports[n])
                     && (Begins(ops, replies, n)
                         || exists i: nat :: OpenSince(ops[..n], replies[..n], reports[..n], i)))
            && ((exists i: nat :: IdleSince(ops, replies, reports, i))
                <==> Quiet(ops[n], reports[n])
                     && (Begins(ops, replies, n)
                         || exists i: nat :: IdleSince(ops[..n], replies[..n], reports[..n], i)))
  {
    hide Ended, Quiet, Begins;
    var n := |ops| - 1;
    forall i: nat | i < n
      ensures OpenSince(ops, replies, reports, i)
              <==> !Ended(ops[n], reports[n]) && OpenSince(ops[..n], replies[..n], reports[..n], i)
      ensures IdleSince(ops, replies, reports, i)
              <==> Quiet(ops[n], reports[n]) && IdleSince(ops[..n], replies[..n], reports[..n], i)
    {
    }
    assert OpenSince(ops, replies, reports, n) <==> Begins(ops, replies, n) && !Ended(ops[n], reports[n]);
    assert IdleSince(ops, replies, reports, n) <==> Begins(ops, replies, n) && Quiet(ops[n], reports[n]);
  }

  lemma FreshRun()
    ensures Steps(OPENED, [], []) == (OPENED, [])
  {
  }

  /** An update without SQL begins a transaction before it is refused, and the transaction stays, with nothing in it. */
  lemma UpdateWithoutSqlIsIdle(r: Replies)
    requires r.begin
    ensures var (c, reports) := Steps(OPENED, [SetAutoCommit(false), Update(false, [])], [r, r]);
            c.server.pending == Some([]) && c.txOpen && !reports[1].ok
  {
    var c1 := Step(OPENED, SetAutoCommit(false), r).0;
    var (c2, report) := Step(c1, Update(false, []), r);
    var ops, replies := [SetAutoCommit(false), Update(false, [])], [r, r];
    assert ops[1..] == [Update(false, [])] && replies[1..] == [r];
    assert Steps(c1, [Update(false, [])], [r]) == (c2, [report] + []) by {
      assert [Update(false, [])][1..] == [] && [r][1..] == [];
    }
  }
}
