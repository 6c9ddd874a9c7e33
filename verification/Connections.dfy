/** The connection object: two flags, updated around the requests it sends to a server. */
module Connections {
  import opened Numbers
  import opened Transactions

  /** The server as an object of its own. */
  class ServerState {
    var state: Server
    /** Every request so far, and whether it was granted. */
    ghost var log: seq<(Command, bool)>

    constructor ()
      ensures state == FRESH && log == []
    {
      state := FRESH;
      log := [];
    }

    method Send(c: Command, ok: bool)
      modifies this
      ensures state == Answer(old(state), c, ok)
      ensures log == old(log) + [(c, ok)]
    {
      state := Answer(state, c, ok);
      log := log + [(c, ok)];
    }
  }

  /** The first n statements, all granted. */
  function Granted(works: seq<Work>, n: nat): (log: seq<(Command, bool)>)
    requires n <= |works|
    ensures |log| == n
  {
    seq(n, i requires 0 <= i < n => (Run(works[i]), true))
  }

  lemma {:induction false} NoneGranted(works: seq<Work>, replies: seq<bool>, s: Server)
    ensures Granted(works, 0) == []
    ensures works == [] ==> Done(works, replies) == [] && RunAll(s, works, replies) == s
  {
  }

  /** The next statement is sent: it is granted and the rest follows, or it is refused and nothing does. */
  lemma {:induction false} StatementNext(works: seq<Work>, replies: seq<bool>, s: Server, i: nat)
    requires i < |works| && i <= |replies|
    ensures Granted(works, i + 1) == Granted(works, i) + [(Run(works[i]), true)]
    ensures var ok := i < |replies| && replies[i];
            if ok then
              Done(works[i..], replies[i..]) == [works[i]] + Done(works[i + 1..], replies[i + 1..])
              && RunAll(s, works[i..], replies[i..])
                 == RunAll(Answer(s, Run(works[i]), true), works[i + 1..], replies[i + 1..])
            else Done(works[i..], replies[i..]) == [] && RunAll(s, works[i..], replies[i..]) == s
  {
    if i < |replies| {
      assert works[i..][1..] == works[i + 1..] && replies[i..][1..] == replies[i + 1..];
    }
  }

  /** They are followed by the first that is refused, if any is. */
  function Requests(works: seq<Work>, n: nat): seq<(Command, bool)>
    requires n <= |works|
  {
    Granted(works, n) + if n < |works| then [(Run(works[n]), false)] else []
  }

  /** What one execution sends: BEGIN where it is needed, and the statements unless that is refused. */
  function Requested(c: Conn, works: seq<Work>, r: Replies): seq<(Command, bool)> {
    var needed := !c.autoCommit && !c.txOpen;
    (if needed then [(Begin, r.begin)] else [])
    + if needed && !r.begin then [] else Requests(works, |Done(works, r.works)|)
  }

  datatype OptionValue = Enabled | Disabled | Unknown

  class Connection {
    var autoCommit: bool
    var txOpen: bool
    const sess: ServerState

    ghost function View(): Conn
      reads this, sess
    {
      Conn(autoCommit, txOpen, sess.state)
    }

    constructor (server: ServerState)
      requires server.state == FRESH
      ensures sess == server && View() == OPENED
    {
      autoCommit := true;
      txOpen := false;
      sess := server;
    }

    method BeginTxIfNeeded(ok: bool) returns (began: bool)
      modifies this`txOpen, sess
      ensures (View(), began) == Transactions.BeginTxIfNeeded(old(View()), ok)
      ensures sess.log == old(sess.log) + if old(autoCommit || txOpen) then [] else [(Begin, ok)]
    {
      if autoCommit || txOpen {
        return true;
      }
      sess.Send(Begin, ok);
      if !ok {
        return false;
      }
      txOpen := true;
      return true;
    }

    method CommitTx(ok: bool) returns (report: Report)
      modifies this`txOpen, sess
      ensures forall r: Replies | r.control == ok :: (View(), report) == Step(old(View()), CommitOp, r)
      ensures sess.log == old(sess.log) + if old(!autoCommit && txOpen) then [(Commit, ok)] else []
    {
      if autoCommit {
        return Report(false, []);
      }
      if !txOpen {
        return Report(true, []);
      }
      sess.Send(Commit, ok);
      if !ok {
        return Report(false, []);
      }
      txOpen := false;
      return Report(true, []);
    }

    method RollbackTx(ok: bool) returns (report: Report)
      modifies this`txOpen, sess
      ensures forall r: Replies | r.control == ok :: (View(), report) == Step(old(View()), RollbackOp, r)
      ensures sess.log == old(sess.log) + if old(!autoCommit && txOpen) then [(Rollback, ok)] else []
    {
      if autoCommit {
        return Report(false, []);
      }
      if !txOpen {
        return Report(true, []);
      }
      sess.Send(Rollback, ok);
      if !ok {
        return Report(false, []);
      }
      txOpen := false;
      return Report(true, []);
    }

    method SetAutoCommitOption(value: OptionValue, ok: bool) returns (report: Report)
      modifies this, sess
      ensures forall r: Replies | r.control == ok ::
                (View(), report) == Step(old(View()),
                  if value.Unknown? then SetUnknownValue else SetAutoCommit(value.Enabled?), r)
      ensures sess.log == old(sess.log)
                          + if value.Enabled? && old(!autoCommit && txOpen) then [(Commit, ok)] else []
    {
      match value {
        case Enabled =>
          if autoCommit {
            return Report(true, []);
          }
          if txOpen {
            sess.Send(Commit, ok);
            if !ok {
              return Report(false, []);
            }
            txOpen := false;
          }
          autoCommit := true;
          return Report(true, []);
        case Disabled =>
          if !autoCommit {
            return Report(true, []);
          }
          autoCommit := false;
          return Report(true, []);
        case Unknown =>
          return Report(false, []);
      }
    }

    method Close(ok: bool)
      modifies this, sess
      ensures View() == CloseConn(old(View()), ok)
      ensures sess.log == old(sess.log) + (if old(txOpen) then [(Rollback, ok)] else []) + [(Disconnect, true)]
    {
      if txOpen {
        sess.Send(Rollback, ok);
        txOpen := false;
      }
      sess.Send(Disconnect, true);
    }

    /** The statements of one execution, one request each, up to the first that fails. */
    method RunStatements(works: seq<Work>, replies: seq<bool>) returns (done: seq<Work>)
      modifies sess
      ensures done == Done(works, replies)
      ensures sess.state == RunAll(old(sess.state), works, replies)
      ensures sess.log == old(sess.log) + Requests(works, |done|)
    {
      hide Granted, RunAll, Done;
      done := [];
      assert works[0..] == works && replies[0..] == replies;
      NoneGranted(works, replies, sess.state);
      for i := 0 to |works|
        invariant i <= |replies|
        invariant done + Done(works[i..], replies[i..]) == Done(works, replies)
        invariant RunAll(sess.state, works[i..], replies[i..]) == RunAll(old(sess.state), works, replies)
        invariant |done| == i && sess.log == old(sess.log) + Granted(works, i)
      {
        var ok := i < |replies| && replies[i];
        StatementNext(works, replies, sess.state, i);
        sess.Send(Run(works[i]), ok);
        if !ok {
          return;
        }
        done := done + [works[i]];
      }
      NoneGranted(works[|works|..], replies[|works|..], sess.state);
    }

    method RunInTransaction(sound: bool, works: seq<Work>, r: Replies) returns (report: Report)
      modifies this`txOpen, sess
      ensures (View(), report) == Execute(old(View()), sound, works, r)
      ensures sess.log == old(sess.log) + Requested(old(View()), works, r)
    {
      var began := BeginTxIfNeeded(r.begin);
      if !began {
        return Report(false, []);
      }
      var done := RunStatements(works, r.works);
      return Report(sound && |done| == |works|, done);
    }

    method ExecuteQuery(sqlSet: bool, sound: bool, works: seq<Work>, r: Replies) returns (report: Report)
      modifies this`txOpen, sess
      ensures (View(), report) == Step(old(View()), Query(sqlSet, sound, works), r)
      ensures sess.log == old(sess.log) + if sqlSet then Requested(old(View()), works, r) else []
    {
      if !sqlSet {
        return Report(false, []);
      }
      report := RunInTransaction(sound, works, r);
    }

    method ExecuteUpdate(sound: bool, works: seq<Work>, r: Replies) returns (report: Report)
      modifies this`txOpen, sess
      ensures (View(), report) == Step(old(View()), Update(sound, works), r)
      ensures sess.log == old(sess.log) + Requested(old(View()), works, r)
    {
      report := RunInTransaction(sound, works, r);
    }
  }
}
