/**
 The byte-level grammar of the Quack wire: what each primitive writes and what reading it back yields.

 Every encoder takes the bytes that follow as its last argument, so that a composite encoding is plain
 nesting and every round trip is a statement in prefix form: reading gives the value back and leaves
 exactly the bytes that follow.
 */
module Wire {
  import opened Numbers

  /** Marks the end of an object. */
  const FIELD_END: nat := 0xFFFF

  /**
   The outcome of reading. `Fail` is the sticky reader error. `Panic` is a Go run-time panic on a reader
   that has no error yet.
   */
  datatype Read<+T> = Ok(value: T, rest: Bytes) | Fail | Panic {
    predicate IsFailure() {
      !Ok?
    }

    function PropagateFailure<U>(): Read<U>
      requires IsFailure()
    {
      if Fail? then Fail else Panic
    }

    function Extract(): (T, Bytes)
      requires !IsFailure()
    {
      (value, rest)
    }
  }

  // ---- fixed-width little-endian integers ----

  /** The low n bytes of v, least significant first; negative v gives its two's complement. */
  function Le(n: nat, v: int, tail: Bytes): (s: Bytes)
    ensures |s| == n + |tail|
  {
    if n == 0 then tail else [v % 256] + Le(n - 1, v / 256, tail)
  }

  function ReadLe(n: nat, s: Bytes): (r: Read<nat>)
    ensures r.Ok? <==> n <= |s|
    ensures !r.Panic?
    ensures r.Ok? ==> |r.rest| == |s| - n && r.value < Pow256(n)
  {
    if n == 0 then Ok(0, s)
    else if |s| == 0 then Fail
    else
      var (high, rest) :- ReadLe(n - 1, s[1..]);
      Ok(s[0] + 256 * high, rest)
  }

  lemma {:induction false} LeRoundTrip(n: nat, v: int, tail: Bytes)
    ensures ReadLe(n, Le(n, v, tail)) == Ok(v % Pow256(n), tail)
  {
    if n > 0 {
      var s := Le(n, v, tail);
      assert s[1..] == Le(n - 1, v / 256, tail);
      LeRoundTrip(n - 1, v / 256, tail);
      SplitLow(v, Pow256(n - 1));
    }
  }

  /** Only the low n bytes of the value matter. */
  lemma {:induction false} LeCongruent(n: nat, v: int, w: int, tail: Bytes)
    requires v % Pow256(n) == w % Pow256(n)
    ensures Le(n, v, tail) == Le(n, w, tail)
  {
    if n > 0 {
      var m := Pow256(n - 1);
      SplitLow(v, m);
      SplitLow(w, m);
      assert v % 256 + 256 * ((v / 256) % m) == w % 256 + 256 * ((w / 256) % m);
      assert v % 256 == w % 256 && (v / 256) % m == (w / 256) % m;
      LeCongruent(n - 1, v / 256, w / 256, tail);
    }
  }

  /** Bytes read as a number and written again are the same bytes. */
  lemma {:induction false} LeInverse(n: nat, s: Bytes)
    requires n <= |s|
    ensures Le(n, ReadLe(n, s).value, ReadLe(n, s).rest) == s
  {
    if n > 0 {
      var r := ReadLe(n - 1, s[1..]);
      var v := s[0] + 256 * r.value;
      assert v % 256 == s[0] && v / 256 == r.value;
      LeInverse(n - 1, s[1..]);
      assert [s[0]] + s[1..] == s;
    }
  }

  /** A wide integer is its low part followed by its high part. */
  lemma {:induction false} LeSplit(n: nat, m: nat, low: int, high: int, tail: Bytes)
    requires 0 <= low < Pow256(n)
    ensures Le(n + m, low + Pow256(n) * high, tail) == Le(n, low, Le(m, high, tail))
  {
    if n > 0 {
      var p := Pow256(n - 1);
      var v := low + Pow256(n) * high;
      Regroup(256, p, high);
      assert v == 256 * (low / 256 + p * high) + low % 256;
      ModUnique(v, 256, low / 256 + p * high, low % 256);
      assert 0 <= low / 256 < p;
      LeSplit(n - 1, m, low / 256, high, tail);
      assert Le(n + m, v, tail) == [v % 256] + Le(n + m - 1, v / 256, tail);
    }
  }

  // ---- unsigned LEB128 (section 7.6 of DWARF Version 5) ----

  function Uleb(v: nat, tail: Bytes): (s: Bytes)
    ensures |s| > |tail|
  {
    if v < 128 then [v] + tail else [v % 128 + 128] + Uleb(v / 128, tail)
  }

  /** The unbounded value of at most `limit` seven-bit groups. */
  function RawUleb(limit: nat, s: Bytes): (r: Read<nat>)
    ensures !r.Panic?
    ensures r.Ok? ==> |s| - limit <= |r.rest| < |s|
  {
    if limit == 0 || |s| == 0 then Fail
    else if s[0] < 128 then Ok(s[0], s[1..])
    else
      var (high, rest) :- RawUleb(limit - 1, s[1..]);
      Ok(s[0] % 128 + 128 * high, rest)
  }

  /** At most ten groups are read, and bits shifted past the 64th are lost. */
  function ReadUleb(s: Bytes): (r: Read<Uint64>)
    ensures !r.Panic?
    ensures r.Ok? ==> |s| - 10 <= |r.rest| < |s|
  {
    var (raw, rest) :- RawUleb(10, s);
    Ok(raw % TWO_64, rest)
  }

  function ReadUlebInt(s: Bytes): (r: Read<nat>)
    ensures !r.Panic?
    ensures r.Ok? ==> |r.rest| < |s| && r.value <= MAX_INT
  {
    var (v, rest) :- ReadUleb(s);
    if v > MAX_INT then Fail else Ok(v, rest)
  }

  lemma {:induction false} RawUlebRoundTrip(limit: nat, v: nat, tail: Bytes)
    requires limit >= 1 && v < Pow128(limit)
    ensures RawUleb(limit, Uleb(v, tail)) == Ok(v, tail)
  {
    var s := Uleb(v, tail);
    if v < 128 {
      assert s[1..] == tail;
    } else {
      assert s[1..] == Uleb(v / 128, tail);
      assert v / 128 < Pow128(limit - 1);
      assert limit > 1;
      RawUlebRoundTrip(limit - 1, v / 128, tail);
    }
  }

  lemma Pow128Ten()
    ensures Pow128(9) == TWO_63 && Pow128(10) == 128 * TWO_63
  {
    assert Pow128(3) == 128 * 128 * 128 by { assert Pow128(2) == 128 * Pow128(1); }
    assert Pow128(5) == 128 * Pow128(4) == 128 * 128 * Pow128(3);
    assert Pow128(7) == 128 * Pow128(6) == 128 * 128 * Pow128(5);
    assert Pow128(9) == 128 * Pow128(8) == 128 * 128 * Pow128(7);
  }

  lemma {:induction false} UlebRoundTrip(v: Uint64, tail: Bytes)
    ensures ReadUleb(Uleb(v, tail)) == Ok(v, tail)
  {
    assert v < Pow128(10) by { Pow128Ten(); }
    RawUlebRoundTrip(10, v, tail);
    assert v % TWO_64 == v;
  }

  /** A length or count survives exactly when it fits a Go int. */
  lemma {:induction false} UlebIntRoundTrip(v: Uint64, tail: Bytes)
    ensures ReadUlebInt(Uleb(v, tail)) == if v <= MAX_INT then Ok(v, tail) else Fail
  {
    UlebRoundTrip(v, tail);
  }

  /** n groups are needed exactly for values below 128^n. */
  lemma {:induction false} UlebLength(n: nat, v: nat, tail: Bytes)
    requires n >= 1
    ensures |Uleb(v, tail)| <= |tail| + n <==> v < Pow128(n)
  {
    if v >= 128 {
      if n == 1 {
        assert |Uleb(v / 128, tail)| > |tail|;
      } else {
        UlebLength(n - 1, v / 128, tail);
      }
    }
  }

  lemma {:induction false} RawUlebBound(limit: nat, s: Bytes)
    requires RawUleb(limit, s).Ok?
    ensures RawUleb(limit, s).value < Pow128(|s| - |RawUleb(limit, s).rest|)
  {
    if s[0] >= 128 {
      var r := RawUleb(limit - 1, s[1..]);
      RawUlebBound(limit - 1, s[1..]);
      var n := |s| - |r.rest|;
      assert Pow128(n) == 128 * Pow128(n - 1);
    }
  }

  /** What WriteULEB128 writes is the shortest byte string that reads back as the value, at most ten bytes. */
  lemma {:induction false} UlebShortest(s: Bytes, tail: Bytes)
    requires ReadUleb(s).Ok?
    ensures var r := ReadUleb(s); |Uleb(r.value, tail)| - |tail| <= |s| - |r.rest| <= 10
  {
    var raw := RawUleb(10, s);
    var n := |s| - |raw.rest|;
    RawUlebBound(10, s);
    assert raw.value % TWO_64 <= raw.value;
    UlebLength(n, raw.value % TWO_64, tail);
  }

  // ---- signed LEB128 ----

  /** No further group is needed once the rest is the sign extension of bit 6. */
  predicate SlebLast(v: int) {
    (v / 128 == 0 && v % 128 < 64) || (v / 128 == -1 && v % 128 >= 64)
  }

  function Sleb(v: int, tail: Bytes): (s: Bytes)
    ensures |s| > |tail|
    decreases if v < 0 then -v else v
  {
    if SlebLast(v) then [v % 128] + tail else [v % 128 + 128] + Sleb(v / 128, tail)
  }

  function RawSleb(limit: nat, s: Bytes): (r: Read<int>)
    ensures !r.Panic?
    ensures r.Ok? ==> |s| - limit <= |r.rest| < |s|
  {
    if limit == 0 || |s| == 0 then Fail
    else if s[0] < 128 then
      var last: int := if s[0] < 64 then s[0] as int else s[0] as int - 128;
      Ok(last, s[1..])
    else
      var (high, rest) :- RawSleb(limit - 1, s[1..]);
      Ok(s[0] % 128 + 128 * high, rest)
  }

  function ReadSleb(s: Bytes): (r: Read<Int64>)
    ensures !r.Panic?
    ensures r.Ok? ==> |s| - 10 <= |r.rest| < |s|
  {
    var (raw, rest) :- RawSleb(10, s);
    Ok(ToInt64(raw), rest)
  }

  /** The values that n groups can hold. */
  predicate FitsSleb(n: nat, v: int)
    requires n >= 1
  {
    -64 * Pow128(n - 1) <= v < 64 * Pow128(n - 1)
  }

  lemma {:induction false} RawSlebRoundTrip(limit: nat, v: int, tail: Bytes)
    requires limit >= 1 && FitsSleb(limit, v)
    ensures RawSleb(limit, Sleb(v, tail)) == Ok(v, tail)
    decreases limit
  {
    var s := Sleb(v, tail);
    if SlebLast(v) {
      assert s[1..] == tail;
    } else {
      assert s[1..] == Sleb(v / 128, tail);
      assert FitsSleb(limit - 1, v / 128);
      RawSlebRoundTrip(limit - 1, v / 128, tail);
    }
  }

  lemma Int64FitsSleb(v: Int64)
    ensures FitsSleb(10, v)
  {
    Pow128Ten();
  }

  lemma {:induction false} SlebRoundTrip(v: Int64, tail: Bytes)
    ensures ReadSleb(Sleb(v, tail)) == Ok(v, tail)
  {
    Int64FitsSleb(v);
    RawSlebRoundTrip(10, v, tail);
    SignedOfMod(v, TWO_64);
  }

  lemma {:induction false} SlebLength(n: nat, v: int, tail: Bytes)
    requires n >= 1
    ensures |Sleb(v, tail)| <= |tail| + n <==> FitsSleb(n, v)
    decreases n
  {
    if n == 1 {
      if !SlebLast(v) {
        assert |Sleb(v / 128, tail)| > |tail|;
      }
    } else {
      assert Pow128(n - 1) == 128 * Pow128(n - 2);
      if SlebLast(v) {
        assert -64 <= v < 64;
      } else {
        SlebLength(n - 1, v / 128, tail);
      }
    }
  }

  lemma {:induction false} RawSlebBound(limit: nat, s: Bytes)
    requires RawSleb(limit, s).Ok?
    ensures FitsSleb(|s| - |RawSleb(limit, s).rest|, RawSleb(limit, s).value)
  {
    if s[0] >= 128 {
      var r := RawSleb(limit - 1, s[1..]);
      RawSlebBound(limit - 1, s[1..]);
      var n := |s| - |r.rest|;
      assert Pow128(n - 1) == 128 * Pow128(n - 2);
    }
  }

  lemma {:induction false} Pow128Monotone(a: nat, b: nat)
    requires a <= b
    ensures Pow128(a) <= Pow128(b)
  {
    if a < b {
      Pow128Monotone(a, b - 1);
    }
  }

  /** What WriteSLEB128 writes is the shortest byte string that reads back as the value, at most ten bytes. */
  lemma {:induction false} SlebShortest(s: Bytes, tail: Bytes)
    requires ReadSleb(s).Ok?
    ensures var r := ReadSleb(s); |Sleb(r.value, tail)| - |tail| <= |s| - |r.rest| <= 10
  {
    var raw := RawSleb(10, s);
    var n := |s| - |raw.rest|;
    var v := ToInt64(raw.value);
    RawSlebBound(10, s);
    Pow128Ten();
    if n <= 9 {
      assert Pow128(9) == 128 * Pow128(8);
      Pow128Monotone(n - 1, 8);
      SignedOfMod(raw.value, TWO_64);
      SlebLength(n, v, tail);
    } else {
      Int64FitsSleb(v);
      SlebLength(10, v, tail);
    }
  }

  // ---- bytes, booleans, strings ----

  function ReadBytes(n: nat, s: Bytes): (r: Read<Bytes>)
    ensures !r.Panic?
    ensures r.Ok? ==> |r.rest| <= |s| && |r.value| == n
  {
    if n > |s| then Fail else Ok(s[..n], s[n..])
  }

  function Bool(b: bool, tail: Bytes): Bytes {
    [if b then 1 else 0] + tail
  }

  function ReadBool(s: Bytes): (r: Read<bool>)
    ensures !r.Panic?
    ensures r.Ok? ==> |r.rest| < |s|
  {
    if |s| == 0 || s[0] > 1 then Fail else Ok(s[0] == 1, s[1..])
  }

  /** A length-prefixed string or blob. */
  function Blob(b: Bytes, tail: Bytes): Bytes {
    Uleb(|b| % TWO_64, b + tail)
  }

  function ReadBlob(s: Bytes): (r: Read<Bytes>)
    ensures !r.Panic?
    ensures r.Ok? ==> |r.rest| < |s| && |r.value| <= MAX_INT
  {
    var (n, s1) :- ReadUlebInt(s);
    ReadBytes(n, s1)
  }

  lemma BoolRoundTrip(b: bool, tail: Bytes)
    ensures ReadBool(Bool(b, tail)) == Ok(b, tail)
  {
    assert Bool(b, tail)[1..] == tail;
  }

  lemma BlobRoundTrip(b: Bytes, tail: Bytes)
    requires |b| <= MAX_INT
    ensures ReadBlob(Blob(b, tail)) == Ok(b, tail)
  {
    UlebIntRoundTrip(|b|, b + tail);
    assert (b + tail)[..|b|] == b && (b + tail)[|b|..] == tail;
  }

  // ---- objects and fields ----

  /** A field id. */
  function Field(id: nat, tail: Bytes): (s: Bytes)
    ensures |s| == |tail| + 2
  {
    Le(2, id, tail)
  }

  function End(tail: Bytes): Bytes {
    Field(FIELD_END, tail)
  }

  function ReadFieldId(s: Bytes): (r: Read<nat>)
    ensures !r.Panic?
    ensures r.Ok? ==> |r.rest| == |s| - 2
  {
    ReadLe(2, s)
  }

  /** The id of a required field; anything else is an error. */
  function Require(id: nat, s: Bytes): (r: Read<()>)
    ensures !r.Panic?
    ensures r.Ok? ==> |r.rest| == |s| - 2
  {
    var (actual, rest) :- ReadFieldId(s);
    if actual == id then Ok((), rest) else Fail
  }

  function ReadEnd(s: Bytes): (r: Read<()>)
    ensures !r.Panic?
    ensures r.Ok? ==> |r.rest| == |s| - 2
  {
    Require(FIELD_END, s)
  }

  /** Whether the next field is `id`; its id is consumed only then. A single trailing byte is an error. */
  function Optional(id: nat, s: Bytes): (r: Read<bool>)
    ensures !r.Panic?
    ensures r.Ok? ==> |r.rest| == if r.value then |s| - 2 else |s|
  {
    if |s| == 0 then Ok(false, s)
    else
      var (actual, rest) :- ReadFieldId(s);
      if actual == id then Ok(true, rest) else Ok(false, s)
  }

  /** Used by the decoders to force an error: it does so only while bytes remain. */
  function AssertEof(s: Bytes): (r: Read<()>)
    ensures !r.Panic?
    ensures r.Ok? <==> s == []
    ensures r.Ok? ==> r.rest == []
  {
    if |s| > 0 then Fail else Ok((), s)
  }

  lemma FieldRoundTrip(id: nat, tail: Bytes)
    requires id < 0x1_0000
    ensures ReadFieldId(Field(id, tail)) == Ok(id, tail)
  {
    Pow256Values();
    LeRoundTrip(2, id, tail);
  }

  lemma RequireField(id: nat, tail: Bytes)
    requires id < 0x1_0000
    ensures Require(id, Field(id, tail)) == Ok((), tail)
  {
    FieldRoundTrip(id, tail);
  }

  lemma EndRoundTrip(tail: Bytes)
    ensures ReadEnd(End(tail)) == Ok((), tail)
  {
    FieldRoundTrip(FIELD_END, tail);
  }

  lemma OptionalField(id: nat, next: nat, tail: Bytes)
    requires id < 0x1_0000 && next < 0x1_0000
    ensures Optional(id, Field(next, tail)) == if id == next then Ok(true, tail) else Ok(false, Field(next, tail))
  {
    FieldRoundTrip(next, tail);
  }
}
