/** One statement per bound row: substitution feeding the requests of a connection. */
module BoundStatements {
  import opened Numbers
  import opened Params
  import opened Literals
  import opened ParamBinding
  import opened Transactions
  import opened Connections

  predicate Binds(sql: Bytes, row: seq<Scalar>) {
    Substitute(Normal, sql, Rendered(row)).Text?
  }

  /** The statements of the rows before the first one whose values do not fit the markers. */
  function BoundWorks(sql: Bytes, rows: seq<seq<Scalar>>): (works: seq<Work>)
    ensures |works| <= |rows|
  {
    if rows == [] || !Binds(sql, rows[0]) then []
    else [Sql(Substitute(Normal, sql, Rendered(rows[0])).sql)] + BoundWorks(sql, rows[1..])
  }

  predicate AllBind(sql: Bytes, rows: seq<seq<Scalar>>) {
    forall i | 0 <= i < |rows| :: Binds(sql, rows[i])
  }

  /**
   Every statement that is sent is the SQL text with its own row's literals in place of the markers, and all rows bind
   exactly when each has as many values as the text has markers.
   */
  lemma {:induction false} BoundWorksAre(sql: Bytes, rows: seq<seq<Scalar>>)
    ensures AllBind(sql, rows) <==> forall i | 0 <= i < |rows| :: |rows[i]| == Markers(Normal, sql)
    ensures AllBind(sql, rows) <==> |BoundWorks(sql, rows)| == |rows|
    ensures forall i | 0 <= i < |BoundWorks(sql, rows)| ::
              |rows[i]| == Markers(Normal, sql)
              && BoundWorks(sql, rows)[i] == Sql(Filled(Normal, sql, Rendered(rows[i])))
  {
    hide Substitute, Pieces, Join;
    if rows != [] {
      SubstituteIs(Normal, sql, Rendered(rows[0]));
      BoundWorksAre(sql, rows[1..]);
      var works := BoundWorks(sql, rows);
      assert forall i | 0 < i < |rows| :: rows[i] == rows[1..][i - 1];
      assert AllBind(sql, rows) <==> Binds(sql, rows[0]) && AllBind(sql, rows[1..]);
      forall i | 0 <= i < |works|
        ensures |rows[i]| == Markers(Normal, sql) && works[i] == Sql(Filled(Normal, sql, Rendered(rows[i])))
      {
        if i > 0 {
          assert works[i] == BoundWorks(sql, rows[1..])[i - 1] && rows[i] == rows[1..][i - 1];
        }
      }
    }
  }

  /** The answer to a drained statement: the row counts of its chunks, or a failure. */
  datatype Drained = Drained(chunkRows: seq<nat>) | Refused

  function Oks(replies: seq<Drained>): (oks: seq<bool>)
    ensures |oks| == |replies|
  {
    seq(|replies|, i requires 0 <= i < |replies| => replies[i].Drained?)
  }

  function Sum(numbers: seq<nat>): nat {
    if numbers == [] then 0 else numbers[0] + Sum(numbers[1..])
  }

  /** The rows of the first n answers. */
  function Affected(replies: seq<Drained>, n: nat): nat
    requires n <= |replies|
  {
    if n == 0 then 0
    else Affected(replies, n - 1) + if replies[n - 1].Drained? then Sum(replies[n - 1].chunkRows) else 0
  }

  method SumChunks(chunkRows: seq<nat>) returns (total: nat)
    ensures total == Sum(chunkRows)
  {
    total := 0;
    assert chunkRows[0..] == chunkRows;
    for i := 0 to |chunkRows|
      invariant total + Sum(chunkRows[i..]) == Sum(chunkRows)
    {
      assert chunkRows[i..][1..] == chunkRows[i + 1..];
      total := total + chunkRows[i];
    }
  }

  /** One more statement sent, out of those that remain. */
  lemma {:induction false} SentOne(s: Server, sql: Bytes, rows: seq<seq<Scalar>>, replies: seq<Drained>, i: nat)
    requires i < |rows| <= |replies| && Binds(sql, rows[i])
    ensures var work := Sql(Substitute(Normal, sql, Rendered(rows[i])).sql);
            var left := RunAll(s, BoundWorks(sql, rows[i..]), Oks(replies)[i..]);
            if replies[i].Drained?
            then left == RunAll(Answer(s, Run(work), true), BoundWorks(sql, rows[i + 1..]), Oks(replies)[i + 1..])
            else left == s
  {
    hide Substitute;
    assert rows[i..][1..] == rows[i + 1..] && Oks(replies)[i..][1..] == Oks(replies)[i + 1..];
  }

  /**
   The statements go out in row order up to the first row that does not bind or is refused; the total counts the rows
   of every answer.
   */
  method ExecuteBoundUpdate(sess: ServerState, sql: Bytes, rows: seq<seq<Scalar>>, replies: seq<Drained>)
    returns (total: Option<nat>)
    requires |replies| == |rows|
    modifies sess
    ensures sess.state == RunAll(old(sess.state), BoundWorks(sql, rows), Oks(replies))
    ensures total.Some? <==> AllBind(sql, rows) && forall i | 0 <= i < |replies| :: replies[i].Drained?
    ensures total.Some? ==> total.value == Affected(replies, |replies|)
  {
    hide Substitute, Answer, BoundWorks;
    var sum := 0;
    assert rows[0..] == rows && Oks(replies)[0..] == Oks(replies);
    for i := 0 to |rows|
      invariant sum == Affected(replies, i)
      invariant forall j | 0 <= j < i :: Binds(sql, rows[j]) && replies[j].Drained?
      invariant RunAll(sess.state, BoundWorks(sql, rows[i..]), Oks(replies)[i..])
                == RunAll(old(sess.state), BoundWorks(sql, rows), Oks(replies))
    {
      var text := SubstituteParams(sql, rows[i]);
      if !text.Text? {
        NothingSent(sess.state, sql, rows[i..], Oks(replies)[i..]);
        return None;
      }
      SentOne(sess.state, sql, rows, replies, i);
      sess.Send(Run(Sql(text.sql)), replies[i].Drained?);
      if replies[i].Refused? {
        Unchanged(old(sess.state), Run(Sql(text.sql)));
        return None;
      }
      var n := SumChunks(replies[i].chunkRows);
      sum := sum + n;
    }
    NothingSent(sess.state, sql, rows[|rows|..], Oks(replies)[|rows|..]);
    return Some(sum);
  }

  lemma {:induction false} NothingSent(s: Server, sql: Bytes, rows: seq<seq<Scalar>>, oks: seq<bool>)
    requires rows == [] || !Binds(sql, rows[0])
    ensures RunAll(s, BoundWorks(sql, rows), oks) == s
  {
  }

  lemma Unchanged(s: Server, c: Command)
    requires !c.Disconnect?
    ensures forall x: Server :: Answer(x, c, false) == x
  {
  }
}
