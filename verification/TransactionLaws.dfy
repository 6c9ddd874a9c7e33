/** What one operation reports and does to the server, told by its outcome: which requests were granted. */
module TransactionLaws {
  import opened Numbers
  import opened Transactions

  /** The flags agree with the server, as they do on every run. */
  predicate Aligned(c: Conn) {
    (c.txOpen <==> c.server.pending.Some?) && (c.autoCommit ==> !c.txOpen) && !c.server.violated
  }

  lemma FaithfulIsAligned(c: Conn, h: History)
    requires Faithful(c, h)
    ensures Aligned(c)
  {
  }

  // ---- statements ----

  /** Every one of the statements is answered, and granted. */
  predicate AllGranted(works: seq<Work>, replies: seq<bool>) {
    |works| <= |replies| && forall i | 0 <= i < |works| :: replies[i]
  }

  /** Statement i is the first that is not granted. */
  predicate StopsAt(works: seq<Work>, replies: seq<bool>, i: nat) {
    i <= |works| && i <= |replies| && (forall j | 0 <= j < i :: replies[j])
    && (i < |works| ==> i == |replies| || !replies[i])
  }

  /** The statements that take effect are those before the first that is not granted. */
  lemma {:induction false} DoneExactly(works: seq<Work>, replies: seq<bool>)
    ensures StopsAt(works, replies, |Done(works, replies)|)
    ensures |Done(works, replies)| == |works| <==> AllGranted(works, replies)
  {
    if works != [] && replies != [] && replies[0] {
      DoneExactly(works[1..], replies[1..]);
      var n := |Done(works[1..], replies[1..])|;
      assert forall j | 0 < j < n + 1 :: replies[j] == replies[1..][j - 1];
      assert AllGranted(works, replies) <==> AllGranted(works[1..], replies[1..]) by {
        assert forall j | 0 < j < |works| && j < |replies| :: replies[j] == replies[1..][j - 1];
        assert forall j | 0 <= j < |works| - 1 && j < |replies| - 1 :: replies[1..][j] == replies[j + 1];
      }
    }
  }

  /** SQL is missing where it is looked for first: nothing is sent at all. */
  predicate RefusedAtOnce(op: Op) {
    op.Query? && !op.sqlSet
  }

  predicate BeginRefused(c: Conn, op: Op, r: Replies) {
    !c.autoCommit && !c.txOpen && !r.begin
  }

  /** The history that statements go into: at once to the committed ones, or to those of the open transaction. */
  function Grown(s: Server, works: seq<Work>): Server {
    match s.pending
    case Some(waiting) => s.(pending := Some(waiting + works))
    case None => s.(committed := s.committed + works)
  }

  /** The server after the BEGIN that a statement needs. */
  function Begun(c: Conn): Server {
    if c.autoCommit || c.txOpen then c.server else c.server.(pending := Some([]))
  }

  /**
   A query or an update succeeds exactly when its SQL is set where that is checked, it is sound, the BEGIN that it needs
   is granted and every statement is. What takes effect is a front part of its statements, all of them on success, and
   the server's history grows by exactly that part.
   */
  lemma StatementLaw(c: Conn, op: Op, r: Replies)
    requires Aligned(c) && (op.Query? || op.Update?)
    ensures var (c1, report) := Step(c, op, r);
            (report.ok <==> !RefusedAtOnce(op) && op.sound && !BeginRefused(c, op, r) && AllGranted(op.works, r.works))
            && (report.ok ==> report.done == op.works)
            && c1.autoCommit == c.autoCommit
            && if RefusedAtOnce(op) || BeginRefused(c, op, r) then report.done == [] && c1 == c
               else
                 StopsAt(op.works, r.works, |report.done|) && report.done == op.works[..|report.done|]
                 && c1.txOpen == !c.autoCommit && c1.server == Grown(Begun(c), report.done)
  {
    hide RunAll, Done;
    DoneExactly(op.works, r.works);
    RunAllDone(Begun(c), op.works, r.works);
    assert op.works[..|op.works|] == op.works;
  }

  // ---- control ----

  /** With autocommit an error, without a transaction nothing; else it stands or falls with COMMIT. */
  lemma CommitLaw(c: Conn, r: Replies)
    requires Aligned(c)
    ensures var (c1, report) := Step(c, CommitOp, r);
            (report.ok <==> !c.autoCommit && (c.txOpen ==> r.control)) && report.done == []
            && if report.ok && c.txOpen
               then c1 == Conn(false, false, Server(c.server.committed + c.server.pending.value, None, false))
               else c1 == c
  {
  }

  lemma RollbackLaw(c: Conn, r: Replies)
    requires Aligned(c)
    ensures var (c1, report) := Step(c, RollbackOp, r);
            (report.ok <==> !c.autoCommit && (c.txOpen ==> r.control)) && report.done == []
            && if report.ok && c.txOpen then c1 == Conn(false, false, Server(c.server.committed, None, false))
               else c1 == c
  {
  }

  /** Switching autocommit on commits what is open, and fails with that; switching it off sends nothing. */
  lemma AutoCommitLaw(c: Conn, on: bool, r: Replies)
    requires Aligned(c)
    ensures var (c1, report) := Step(c, SetAutoCommit(on), r);
            (report.ok <==> (on && c.txOpen ==> r.control)) && report.done == []
            && if !report.ok then c1 == c
               else
                 c1.autoCommit == on
                 && (!on ==> c1.txOpen == c.txOpen && c1.server == c.server)
                 && (on ==> !c1.txOpen && c1.server == if c.txOpen
                       then Server(c.server.committed + c.server.pending.value, None, false) else c.server)
  {
  }

  lemma UnknownValueLaw(c: Conn, r: Replies)
    ensures Step(c, SetUnknownValue, r) == (c, Report(false, []))
  {
  }

  /** Every state that a run reaches is aligned, so that the laws above hold along every run. */
  lemma {:induction false} RunsAreAligned(ops: seq<Op>, replies: seq<Replies>)
    requires |ops| == |replies|
    ensures Aligned(Steps(OPENED, ops, replies).0)
  {
    RunFaithful(OPENED, BLANK, ops, replies);
    var (c, reports) := Steps(OPENED, ops, replies);
    FaithfulIsAligned(c, Records(BLANK, ops, reports));
  }
}
