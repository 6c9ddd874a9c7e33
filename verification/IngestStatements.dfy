/** Bulk ingest as the loops and the statement object that run it. */
module IngestStatements {
  import opened Numbers
  import opened QuackTypes
  import opened Validity
  import opened ValidityArrays
  import opened Vectors
  import opened BulkIngest

  // ---- one column ----

  /** No bitmap when the array counts no null; otherwise all rows start valid and the null ones are cleared. */
  method BuildValidity(values: seq<Option<Datum>>, nullCount: nat) returns (validity: Validity)
    requires nullCount == 0 <==> true !in Nulls(values)
    ensures validity == FromNulls(Nulls(values))
  {
    if nullCount == 0 {
      return None;
    }
    var bitmap := BuildAllValid(|values|);
    for i := 0 to |values|
      invariant fresh(bitmap) && bitmap[..] == NullMask(Nulls(values), i)
    {
      if values[i].None? {
        SetNullAt(bitmap, i);
      }
    }
    return Some(bitmap[..]);
  }

  method DecodedVectorForArrow(t: LogicalType, c: ArrowColumn, nullCount: nat) returns (vec: Option<Vec>)
    requires WellTyped(c) && (nullCount == 0 <==> true !in Nulls(c.values))
    ensures vec == if HasCase(c.typ) then Some(VectorFor(t, c)) else None
  {
    var validity := BuildValidity(c.values, nullCount);
    if !HasCase(c.typ) {
      return None;
    }
    if Boxed(c.typ) {
      var cells := BoxRows(c);
      return Some(Obj(t, cells));
    }
    var numbers := NumberRows(c);
    return Some(Prim(t, KindFor(c.typ), numbers, validity));
  }

  /** Null rows stay nil. */
  method BoxRows(c: ArrowColumn) returns (cells: seq<Cell>)
    requires WellTyped(c) && HasCase(c.typ)
    ensures cells == seq(|c.values|, i requires 0 <= i < |c.values| => CellFor(c.typ, c.values[i]))
  {
    var vs := new Cell[|c.values|](_ => None);
    for i := 0 to |c.values|
      invariant forall j | 0 <= j < i :: vs[j] == CellFor(c.typ, c.values[j])
      invariant forall j | i <= j < |c.values| :: vs[j] == None
    {
      if c.values[i].Some? {
        vs[i] := Some(ValueOf(c.typ, c.values[i].value));
      }
    }
    return vs[..];
  }

  /** Null rows stay zero. */
  method NumberRows(c: ArrowColumn) returns (numbers: seq<int>)
    requires WellTyped(c) && HasCase(c.typ) && !Boxed(c.typ)
    ensures numbers == VectorFor(NO_TYPE, c).numbers
  {
    var vs := new int[|c.values|](_ => 0);
    for i := 0 to |c.values|
      invariant forall j | 0 <= j < i ::
                  vs[j] == if c.values[j].None? then 0 else ValueOf(c.typ, c.values[j].value).n
      invariant forall j | i <= j < |c.values| :: vs[j] == 0
    {
      if c.values[i].Some? {
        vs[i] := ValueOf(c.typ, c.values[i].value).n;
      }
    }
    assert vs[..] == VectorFor(NO_TYPE, c).numbers;
    return vs[..];
  }

  /** Each row is appended as a null or as the number, text or bytes read out of the column. */
  method BuildColumn(t: LogicalType, vec: Vec) returns (c: ArrowColumn)
    requires vec.WellSized() && forall row | row in vec.Rows() :: Readable(ArrowTypeFor(t), row)
    ensures c == ColumnOf(t, vec)
  {
    var typ := ArrowTypeFor(t);
    var values: seq<Option<Datum>> := [];
    for i := 0 to vec.Size()
      invariant |values| == i && forall j | 0 <= j < i :: values[j] == ColumnOf(t, vec).values[j]
    {
      assert vec.GetObject(i) == vec.Rows()[i];
      values := values + [DatumOf(typ, vec.GetObject(i))];
    }
    return ArrowColumn(typ, values);
  }

  // ---- records ----

  /** The first column that cannot be converted stops the whole record. */
  method ChunkFromRecord(r: ArrowRecord) returns (chunk: Option<DataChunk>)
    requires WellFormedRecord(r)
    ensures chunk == ChunkFor(r)
  {
    var types: seq<LogicalType> := [];
    var columns: seq<Option<Vec>> := [];
    for i := 0 to |r.columns|
      invariant |types| == |columns| == i
      invariant forall j | 0 <= j < i :: HasCase(r.columns[j].typ) && types[j] == TypeFor(r.columns[j])
      invariant forall j | 0 <= j < i :: columns[j] == Some(VectorFor(types[j], r.columns[j]))
    {
      var c := r.columns[i];
      var t := LogicalTypeFor(c.typ);
      if t.None? {
        return None;
      }
      var vec := DecodedVectorForArrow(t.value, c, CountNulls(c.values));
      if vec.None? {
        return None;
      }
      types := types + [t.value];
      columns := columns + [vec];
    }
    assert types == seq(|r.columns|, i requires 0 <= i < |r.columns| => TypeFor(r.columns[i]));
    assert columns == seq(|r.columns|, i requires 0 <= i < |r.columns| => Some(VectorFor(types[i], r.columns[i])));
    return Some(DataChunk(r.rowCount, types, columns));
  }

  /** The array's own null count. */
  function CountNulls(values: seq<Option<Datum>>): (n: nat)
    ensures n == 0 <==> true !in Nulls(values)
  {
    if values == [] then 0
    else
      assert Nulls(values) == [values[0].None?] + Nulls(values[1..]);
      (if values[0].None? then 1 else 0) + CountNulls(values[1..])
  }

  function ChunksFor(records: seq<ArrowRecord>): (chunks: seq<DataChunk>)
    requires forall r | r in records :: WellFormedRecord(r) && Ingestable(r)
    ensures |chunks| == |records|
  {
    seq(|records|, i requires 0 <= i < |records| => ChunkFor(records[i]).value)
  }

  function RowTotal(records: seq<ArrowRecord>): nat {
    if records == [] then 0 else records[0].rowCount + RowTotal(records[1..])
  }

  lemma {:induction false} RowTotalAppend(records: seq<ArrowRecord>, r: ArrowRecord)
    ensures RowTotal(records + [r]) == RowTotal(records) + r.rowCount
  {
    if records == [] {
      assert records + [r] == [r];
    } else {
      RowTotalAppend(records[1..], r);
      assert (records + [r])[1..] == records[1..] + [r];
    }
  }

  function ChunkRows(chunks: seq<DataChunk>): nat {
    if chunks == [] then 0 else chunks[0].rowCount + ChunkRows(chunks[1..])
  }

  /** The rows reported are the rows of the chunks that were sent. */
  lemma {:induction false} RowsConserved(records: seq<ArrowRecord>)
    requires forall r | r in records :: WellFormedRecord(r) && Ingestable(r)
    ensures ChunkRows(ChunksFor(records)) == RowTotal(records)
  {
    if records != [] {
      RowsConserved(records[1..]);
      assert ChunksFor(records)[1..] == ChunksFor(records[1..]);
    }
  }

  /** A bound stream: its batches and whether it ends in an error. */
  datatype RecordStream = RecordStream(records: seq<ArrowRecord>, failed: bool)

  datatype Outcome = Rows(total: nat) | InvalidState | Failed

  class IngestStatement {
    var targetTable: Text
    var bound: Option<ArrowRecord>
    var boundStream: Option<RecordStream>
    /** The chunks that the server has accepted. */
    var accepted: seq<DataChunk>

    constructor (table: Text, batch: Option<ArrowRecord>, batches: Option<RecordStream>)
      ensures targetTable == table && bound == batch && boundStream == batches && accepted == []
    {
      targetTable := table;
      bound := batch;
      boundStream := batches;
      accepted := [];
    }

    /** The bound batch first, then the batches of the stream. */
    ghost function Pending(): seq<ArrowRecord>
      reads this
    {
      (if bound.Some? then [bound.value] else []) + (if boundStream.Some? then boundStream.value.records else [])
    }

    /** Sends one record; nothing is sent for a record that cannot be converted. */
    method Pump(r: ArrowRecord, reply: bool) returns (ok: bool)
      requires WellFormedRecord(r)
      modifies this`accepted
      ensures ok <==> Ingestable(r) && reply
      ensures accepted == if ok then old(accepted) + [ChunkFor(r).value] else old(accepted)
    {
      var chunk := ChunkFromRecord(r);
      if chunk.None? || !reply {
        return false;
      }
      accepted := accepted + [chunk.value];
      return true;
    }

    /**
     Success means that every pending record was converted and accepted, in order, and that the total counts their
     rows. Without its table nothing is sent; else the server has accepted exactly the records before the first that
     cannot be converted or is refused. Either way nothing stays bound.
     */
    method ExecuteIngest(ddlOk: bool, replies: seq<bool>) returns (outcome: Outcome)
      requires forall r | r in Pending() :: WellFormedRecord(r)
      requires |replies| == |Pending()|
      modifies this
      ensures targetTable == old(targetTable)
      ensures outcome.InvalidState? <==> old(targetTable == [] || (bound.None? && boundStream.None?))
      ensures outcome.InvalidState? ==>
                bound == old(bound) && boundStream == old(boundStream) && accepted == old(accepted)
      ensures !outcome.InvalidState? ==> bound.None? && boundStream.None?
      ensures outcome.Rows? <==>
                !outcome.InvalidState? && ddlOk && old(Ready(Pending(), replies))
                && !old(boundStream.Some? && boundStream.value.failed)
      ensures outcome.Rows? ==> accepted == old(accepted) + ChunksFor(old(Pending()))
                                && outcome.total == RowTotal(old(Pending()))
      ensures !outcome.InvalidState? && !ddlOk ==> accepted == old(accepted)
      ensures !outcome.InvalidState? && ddlOk ==>
                exists n :: StopsAt(old(Pending()), replies, n)
                            && accepted == old(accepted) + ChunksFor(old(Pending())[..n])
    {
      ghost var records := Pending();
      assert records[..0] == [] && accepted + ChunksFor(records[..0]) == accepted;
      if targetTable == [] || (bound.None? && boundStream.None?) {
        return InvalidState;
      }
      var batch, stream := bound, boundStream;
      bound, boundStream := None, None;
      if !ddlOk {
        return Failed;
      }
      var pending := (if batch.Some? then [batch.value] else []) + (if stream.Some? then stream.value.records else []);
      var ok, total, n := PumpAll(pending, replies);
      assert pending[..|pending|] == pending && replies[..|pending|] == replies;
      if !ok || (stream.Some? && stream.value.failed) {
        return Failed;
      }
      return Rows(total);
    }

    /** One record after the other, up to the first that fails; n of them are accepted. */
    method PumpAll(records: seq<ArrowRecord>, replies: seq<bool>) returns (ok: bool, total: nat, ghost n: nat)
      requires |replies| == |records| && forall r | r in records :: WellFormedRecord(r)
      modifies this`accepted
      ensures ok <==> Ready(records, replies)
      ensures StopsAt(records, replies, n)
      ensures accepted == old(accepted) + ChunksFor(records[..n])
      ensures ok ==> n == |records| && total == RowTotal(records)
    {
      total := 0;
      assert accepted + ChunksFor(records[..0]) == accepted;
      for i := 0 to |records|
        invariant Ready(records[..i], replies[..i])
        invariant accepted == old(accepted) + ChunksFor(records[..i]) && total == RowTotal(records[..i])
      {
        hide ChunksFor, RowTotal, WellFormedRecord, Ingestable, ChunkFor;
        assert records[..i + 1] == records[..i] + [records[i]] && replies[..i + 1] == replies[..i] + [replies[i]];
        var done := Pump(records[i], replies[i]);
        if !done {
          return false, 0, i;
        }
        ChunksForAppend(records[..i], records[i]);
        RowTotalAppend(records[..i], records[i]);
        total := total + records[i].rowCount;
      }
      assert records[..|records|] == records && replies[..|records|] == replies;
      return true, total, |records|;
    }
  }

  /** Every record can be converted and every append is accepted. */
  predicate Ready(records: seq<ArrowRecord>, replies: seq<bool>)
    requires |replies| == |records|
  {
    forall i | 0 <= i < |records| :: WellFormedRecord(records[i]) && Ingestable(records[i]) && replies[i]
  }

  /** Record n is the first that cannot be converted or is refused. */
  predicate StopsAt(records: seq<ArrowRecord>, replies: seq<bool>, n: int)
    requires |replies| == |records|
  {
    0 <= n <= |records| && Ready(records[..n], replies[..n])
    && (n < |records| ==> !Ingestable(records[n]) || !replies[n])
  }

  lemma ChunksForAppend(records: seq<ArrowRecord>, r: ArrowRecord)
    requires forall x | x in records :: WellFormedRecord(x) && Ingestable(x)
    requires WellFormedRecord(r) && Ingestable(r)
    ensures ChunksFor(records + [r]) == ChunksFor(records) + [ChunkFor(r).value]
  {
  }
}
