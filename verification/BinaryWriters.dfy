/** The byte writer: a growing buffer and a sticky error. */
module BinaryWriters {
  import opened Numbers
  import opened Wire
  import opened HugeInts

  datatype WriteError = WriteError(op: string, offset: nat)

  /** The library routine that fills a small array, least significant byte first. */
  method PutLittleEndian(width: nat, v: int) returns (b: array<Byte>)
    ensures fresh(b) && forall rest: Bytes :: b[..] + rest == Le(width, v, rest)
  {
    b := new Byte[width](_ => 0);
    var low := v;
    for i := 0 to width
      invariant forall rest: Bytes :: b[..i] + Le(width - i, low, rest) == Le(width, v, rest)
    {
      ghost var front := b[..i];
      b[i] := low % 256;
      assert b[..i + 1] == front + [low % 256];
      forall rest: Bytes
        ensures front + [low % 256] + Le(width - i - 1, low / 256, rest) == Le(width, v, rest)
      {
        assert Le(width - i, low, rest) == [low % 256] + Le(width - i - 1, low / 256, rest);
        assert front + Le(width - i, low, rest) == front + [low % 256] + Le(width - i - 1, low / 256, rest);
      }
      low := low / 256;
    }
    assert b[..width] == b[..];
  }

  lemma Prefixed(before: Bytes, piece: Bytes, after: Bytes)
    requires after == before + piece
    ensures forall rest: Bytes :: after + rest == before + (piece + rest)
  {
  }

  lemma {:induction false} SlebStep(v: int)
    ensures forall rest: Bytes ::
              Sleb(v, rest) == if SlebLast(v) then [v % 128] + rest else [v % 128 + 128] + Sleb(v / 128, rest)
  {
  }

  /**
   Every write is stated in prefix form: with any bytes `rest` after it, the buffer is the old buffer followed by the
   wire form before `rest`. A writer in error changes nothing.
   */
  class BinaryWriter {
    var buf: Bytes
    var err: Option<WriteError>

    constructor ()
      ensures buf == [] && err.None?
    {
      buf := [];
      err := None;
    }

    /** The first error stays. */
    method Invalidate(op: string)
      modifies this`err
      ensures err == if old(err).Some? then old(err) else Some(WriteError(op, |buf|))
    {
      if err.None? {
        err := Some(WriteError(op, |buf|));
      }
    }

    method WriteByte(b: Byte)
      modifies this`buf
      ensures err.Some? ==> buf == old(buf)
      ensures err.None? ==> buf == old(buf) + [b]
    {
      if err.Some? {
        return;
      }
      buf := buf + [b];
    }

    method WriteBytes(b: Bytes)
      modifies this`buf
      ensures err.Some? ==> buf == old(buf)
      ensures err.None? ==> buf == old(buf) + b
    {
      if err.Some? {
        return;
      }
      buf := buf + b;
    }

    method WriteBool(v: bool)
      modifies this`buf
      ensures err.Some? ==> buf == old(buf)
      ensures err.None? ==> forall rest: Bytes {:trigger buf + rest} :: buf + rest == old(buf) + Bool(v, rest)
    {
      WriteByte(if v then 1 else 0);
    }

    /** The fixed-width writes, which differ only in their width; the low `width` bytes of v are written. */
    method WriteFixed(width: nat, v: int)
      modifies this`buf
      ensures err.Some? ==> buf == old(buf)
      ensures err.None? ==> forall rest: Bytes {:trigger buf + rest} :: buf + rest == old(buf) + Le(width, v, rest)
    {
      if err.Some? {
        return;
      }
      var b := PutLittleEndian(width, v);
      buf := buf + b[..];
      Prefixed(old(buf), b[..], buf);
    }

    method WriteFieldID(id: nat)
      modifies this`buf
      ensures err.Some? ==> buf == old(buf)
      ensures err.None? ==> forall rest: Bytes {:trigger buf + rest} :: buf + rest == old(buf) + Field(id, rest)
    {
      WriteFixed(2, id);
    }

    /** The marker that WriteObject writes after the body. */
    method WriteEnd()
      modifies this`buf
      ensures err.Some? ==> buf == old(buf)
      ensures err.None? ==> forall rest: Bytes {:trigger buf + rest} :: buf + rest == old(buf) + End(rest)
    {
      WriteFieldID(FIELD_END);
    }

    method WriteULEB128(v: Uint64)
      modifies this`buf
      ensures err.Some? ==> buf == old(buf)
      ensures err.None? ==> forall rest: Bytes {:trigger buf + rest} :: buf + rest == old(buf) + Uleb(v, rest)
    {
      if err.Some? {
        return;
      }
      var value: nat := v;
      while value / 128 != 0
        invariant err.None? && forall rest: Bytes :: buf + Uleb(value, rest) == old(buf) + Uleb(v, rest)
      {
        buf := buf + [value % 128 + 128];
        value := value / 128;
      }
      buf := buf + [value % 128];
    }

    method WriteSLEB128(v: Int64)
      modifies this`buf
      ensures err.Some? ==> buf == old(buf)
      ensures err.None? ==> forall rest: Bytes {:trigger buf + rest} :: buf + rest == old(buf) + Sleb(v, rest)
    {
      hide Sleb;
      if err.Some? {
        return;
      }
      var value: int := v;
      while true
        invariant err.None? && forall rest: Bytes :: buf + Sleb(value, rest) == old(buf) + Sleb(v, rest)
        decreases if value < 0 then -value else value
      {
        var b: Byte := value % 128;
        var signBitSet := b >= 64;
        ghost var was, front := value, buf;
        SlebStep(was);
        value := value / 128;
        if (value == 0 && !signBitSet) || (value == -1 && signBitSet) {
          buf := buf + [b];
          Prefixed(front, [b], buf);
          return;
        }
        buf := buf + [b + 128];
        Prefixed(front, [b + 128], buf);
      }
    }

    /** WriteString, WriteStringBytes and WriteBlob. */
    method WriteBlob(b: Text)
      modifies this`buf
      ensures err.Some? ==> buf == old(buf)
      ensures err.None? ==> forall rest: Bytes {:trigger buf + rest} :: buf + rest == old(buf) + Blob(b, rest)
    {
      WriteULEB128(|b|);
      ghost var mid := buf;
      WriteBytes(b);
      assert err.None? ==> forall rest: Bytes :: buf + rest == mid + (b + rest);
    }

    method WriteHugeInt(p: HugeIntParts)
      modifies this`buf
      ensures err.Some? ==> buf == old(buf)
      ensures err.None? ==> forall rest: Bytes {:trigger buf + rest} :: buf + rest == old(buf) + HugeInt(p, rest)
    {
      WriteSLEB128(p.upper);
      WriteULEB128(p.lower);
    }
  }
}
