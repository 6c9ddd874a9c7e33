/** The byte reader: an offset that moves forward over a fixed slice, and a sticky error. */
module BinaryReaders {
  import opened Numbers
  import opened Wire
  import opened HugeInts

  datatype ReadError = ReadError(op: string, offset: int)

  /** What a read may change. */
  datatype Mark = Mark(offset: nat, err: Option<ReadError>)

  class BinaryReader {
    const bytes: Bytes
    var offset: nat
    var err: Option<ReadError>

    ghost predicate Valid()
      reads this
    {
      offset <= |bytes|
    }

    constructor (b: Bytes)
      ensures Valid() && bytes == b && offset == 0 && err.None?
    {
      bytes := b;
      offset := 0;
      err := None;
    }

    ghost function Now(): Mark
      reads this
    {
      Mark(offset, err)
    }

    /** The unread bytes. */
    ghost function Rest(): Bytes
      requires Valid()
      reads this
    {
      bytes[offset..]
    }

    /**
     What every read promises. On a reader already in error neither offset nor error changes. Otherwise it succeeds
     exactly when the wire grammar does, with the same value, and stops where the grammar stops; or it sets the error.
     */
    ghost predicate After<T>(was: Mark, spec: Read<T>, value: T)
      reads this
    {
      Valid() && was.offset <= offset
      && (was.err.Some? ==> Now() == was)
      && (was.err.None? && spec.Ok? ==> err.None? && Rest() == spec.rest && value == spec.value)
      && (was.err.None? && spec.Fail? ==> err.Some?)
    }

    predicate AtEof()
      requires Valid()
      ensures AtEof() <==> Rest() == []
      reads this
    {
      offset >= |bytes|
    }

    method ForceEof()
      requires Valid()
      modifies this`err
      ensures After(old(Now()), AssertEof(old(Rest())), ())
    {
      if err.None? && !AtEof() {
        err := Some(ReadError("AssertEOF", offset));
      }
    }

    method Ensure(n: nat) returns (ok: bool)
      requires Valid()
      modifies this`err
      ensures ok <==> old(err.None?) && n <= |old(Rest())|
      ensures ok || old(err.Some?) ==> err == old(err)
      ensures !ok && old(err.None?) ==> err == Some(ReadError("ensure", offset))
    {
      if err.Some? {
        return false;
      }
      if offset + n > |bytes| {
        err := Some(ReadError("ensure", offset));
        return false;
      }
      return true;
    }

    // ---- fixed-width integers ----

    method ReadByte() returns (b: Byte)
      requires Valid()
      modifies this
      ensures Valid() && (err.Some? ==> b == 0 && offset == old(offset))
      ensures old(err.Some?) || old(Rest()) == [] ==> err.Some?
      ensures old(err.Some?) ==> err == old(err)
      ensures old(err.None?) && old(Rest()) != [] ==>
                err.None? && offset == old(offset) + 1 && [b] + Rest() == old(Rest())
    {
      var ok := Ensure(1);
      if !ok {
        return 0;
      }
      b := bytes[offset];
      offset := offset + 1;
    }

    /** The unsigned fixed-width reads, which differ only in their width. */
    method ReadFixedUint(width: nat) returns (v: nat)
      requires Valid()
      modifies this
      ensures After(old(Now()), ReadLe(width, old(Rest())), v)
      ensures err.Some? ==> v == 0
    {
      var ok := Ensure(width);
      if !ok {
        return 0;
      }
      v := GetLittleEndian(width, bytes[offset..]);
      ReadLeRest(width, bytes[offset..]);
      offset := offset + width;
    }

    /** The signed fixed-width reads: the same bytes as a two's complement. */
    method ReadFixedInt(width: nat) returns (v: int)
      requires Valid() && width > 0
      modifies this
      ensures After(old(Now()), ReadSigned(width, old(Rest())), v)
    {
      var raw := ReadFixedUint(width);
      v := SignedOf(raw, width);
    }

    // ---- objects and fields ----

    method ReadFieldID() returns (id: nat)
      requires Valid()
      modifies this
      ensures After(old(Now()), ReadFieldId(old(Rest())), id)
      ensures err.Some? ==> id == 0
    {
      id := ReadFixedUint(2);
    }

    /** The next field id without consuming it. */
    method PeekFieldID() returns (id: nat)
      requires Valid()
      modifies this`err
      ensures old(err.Some?) ==> err == old(err)
      ensures old(err.None?) ==> if |old(Rest())| < 2 then err.Some? else err.None?
      ensures err.None? ==> ReadFieldId(Rest()).Ok? && ReadFieldId(Rest()).value == id
      ensures err.Some? ==> id == 0
    {
      var ok := Ensure(2);
      if !ok {
        return 0;
      }
      id := GetLittleEndian(2, bytes[offset..]);
    }

    /** ReadRequiredField up to the call that reads the value; the value is read when the result is true. */
    method RequireField(id: nat) returns (ok: bool)
      requires Valid()
      modifies this
      ensures After(old(Now()), Require(id, old(Rest())), ())
      ensures ok <==> err.None?
    {
      var actual := ReadFieldID();
      if err.Some? {
        return false;
      }
      if actual != id {
        err := Some(ReadError("ReadRequiredField", offset - 2));
        return false;
      }
      return true;
    }

    /** ReadOptionalField up to the call that reads the value; the value is read when the result is true. */
    method OptionalField(id: nat) returns (present: bool)
      requires Valid()
      modifies this
      ensures After(old(Now()), Optional(id, old(Rest())), present)
      ensures id > 0 && err.Some? ==> !present
    {
      if err.Some? || AtEof() {
        return false;
      }
      var next := PeekFieldID();
      if next != id {
        return false;
      }
      var _ := ReadFieldID();
      return true;
    }

    method ReadEndObject()
      requires Valid()
      modifies this
      ensures After(old(Now()), ReadEnd(old(Rest())), ())
    {
      var id := ReadFieldID();
      if err.Some? {
        return;
      }
      if id != FIELD_END {
        err := Some(ReadError("ReadEndObject", offset - 2));
      }
    }

    /** The end of ReadObject: its value counts only when the result is true. */
    method EndObject() returns (ok: bool)
      requires Valid()
      modifies this
      ensures After(old(Now()), ReadEnd(old(Rest())), ())
      ensures ok <==> err.None?
    {
      if err.Some? {
        return false;
      }
      ReadEndObject();
      ok := err.None?;
    }

    // ---- bytes ----

    /** A negative length is an error even on a reader already in error; no caller passes one. */
    method ReadBytes(n: int) returns (out: Bytes)
      requires Valid()
      modifies this
      ensures n >= 0 ==> After(old(Now()), Wire.ReadBytes(n, old(Rest())), out)
      ensures n < 0 ==> Valid() && offset == old(offset) && err == Some(ReadError("ReadBytes", offset))
      ensures err.Some? ==> out == []
    {
      if n < 0 {
        err := Some(ReadError("ReadBytes", offset));
        return [];
      }
      var ok := Ensure(n);
      if !ok {
        return [];
      }
      out := bytes[offset..offset + n];
      assert bytes[offset..][..n] == out && bytes[offset..][n..] == bytes[offset + n..];
      offset := offset + n;
    }

    method ReadBool() returns (b: bool)
      requires Valid()
      modifies this
      ensures After(old(Now()), Wire.ReadBool(old(Rest())), b)
      ensures err.Some? ==> !b
    {
      var byte := ReadByte();
      if err.Some? {
        return false;
      }
      if byte != 0 && byte != 1 {
        err := Some(ReadError("ReadBool", offset - 1));
        return false;
      }
      return byte == 1;
    }

    // ---- LEB128 ----

    /**
     At most ten groups. The low groups read so far are `result`; only the tenth can lose bits, since its upper six
     are shifted out of the 64-bit word.
     */
    method ReadULEB128() returns (v: Uint64)
      requires Valid()
      modifies this
      ensures After(old(Now()), ReadUleb(old(Rest())), v)
      ensures err.Some? ==> v == 0
    {
      hide RawUleb, Pow128, Shifted;
      NoGroups();
      var result: Uint64 := 0;
      ghost var start, low: nat := Rest(), 0;
      for i := 0 to 10
        invariant Valid() && offset >= old(offset) && (old(err.Some?) ==> i == 0 && Now() == old(Now()))
        invariant old(err.None?) ==> err.None?
        invariant low < Pow128(i) && result == low % TWO_64
        invariant Groups(RawUleb(10, start), low, i, RawUleb(10 - i, Rest()))
      {
        ghost var before := Rest();
        RawUlebStep(10 - i, before);
        var b := ReadByte();
        if err.Some? {
          return 0;
        }
        assert before[1..] == Rest() && before[0] == b;
        AddGroup(low, b % 128, i);
        result := result + (Shifted(b % 128, i)) % TWO_64;
        if b / 128 == 0 {
          return result;
        }
        GroupsStep(RawUleb(10, start), low, i, b % 128, RawUleb(10 - i, before), RawUleb(10 - i - 1, Rest()));
        low := low + Shifted(b % 128, i);
      }
      RawUlebStep(0, Rest());
      err := Some(ReadError("ReadULEB128", offset));
      return 0;
    }

    /** As above, and the sign bit of the last group is extended unless the groups already fill the word. */
    method ReadSLEB128() returns (v: Int64)
      requires Valid()
      modifies this
      ensures After(old(Now()), ReadSleb(old(Rest())), v)
      ensures err.Some? ==> v == 0
    {
      hide RawSleb, Pow128, Shifted, ToInt64, Signed, Groups;
      NoGroups();
      var result: Uint64 := 0;
      ghost var start, low: nat := Rest(), 0;
      FirstGroup(RawSleb(10, start));
      for i := 0 to 10
        invariant Valid() && offset >= old(offset) && (old(err.Some?) ==> i == 0 && Now() == old(Now()))
        invariant old(err.None?) ==> err.None?
        invariant low < Pow128(i) && result == low % TWO_64
        invariant Groups(RawSleb(10, start), low, i, RawSleb(10 - i, Rest()))
      {
        ghost var before := Rest();
        RawSlebStep(10 - i, before);
        GroupsEnd(RawSleb(10, start), low, i, RawSleb(10 - i, before));
        var b := ReadByte();
        if err.Some? {
          return 0;
        }
        assert before[1..] == Rest() && before[0] == b;
        AddGroup(low, b % 128, i);
        result := result + (Shifted(b % 128, i)) % TWO_64;
        if b / 128 == 0 {
          SignLastGroup(low, b, i);
          if i + 1 < 10 && b >= 64 {
            result := result + (TWO_64 - Pow128(i + 1));
          }
          return ToInt64(result);
        }
        GroupsStep(RawSleb(10, start), low, i, b % 128, RawSleb(10 - i, before), RawSleb(10 - i - 1, Rest()));
        low := low + Shifted(b % 128, i);
      }
      RawSlebStep(0, Rest());
      GroupsEnd(RawSleb(10, start), low, 10, RawSleb(0, Rest()));
      err := Some(ReadError("ReadSLEB128", offset));
      return 0;
    }

    method ReadULEB128Int() returns (v: nat)
      requires Valid()
      modifies this
      ensures After(old(Now()), ReadUlebInt(old(Rest())), v)
      ensures err.Some? ==> v == 0
      ensures v <= MAX_INT
    {
      var u := ReadULEB128();
      if err.Some? {
        return 0;
      }
      if u > MAX_INT {
        err := Some(ReadError("ReadULEB128Int", offset));
        return 0;
      }
      return u;
    }

    // ---- length-prefixed ----

    /** ReadString, ReadStringBytes and ReadBlob. */
    method ReadText() returns (out: Text)
      requires Valid()
      modifies this
      ensures After(old(Now()), ReadBlob(old(Rest())), out)
      ensures err.Some? ==> out == []
    {
      var length := ReadULEB128Int();
      if err.Some? {
        return [];
      }
      out := ReadBytes(length);
    }

    method ReadHugeInt() returns (p: HugeIntParts)
      requires Valid()
      modifies this
      ensures After(old(Now()), HugeInts.ReadHugeInt(old(Rest())), p)
    {
      var upper := ReadSLEB128();
      if err.Some? {
        return ZERO;
      }
      var lower := ReadULEB128();
      if err.Some? {
        return ZERO;
      }
      return HugeIntParts(upper, lower);
    }
  }

  // ---- what the loops rely on ----

  function SignedOf(raw: nat, width: nat): int
    requires width > 0
  {
    assert Pow256(width) == 256 * Pow256(width - 1);
    Signed(raw, Pow256(width))
  }

  function ReadSigned(width: nat, s: Bytes): (r: Read<int>)
    requires width > 0
    ensures !r.Panic?
  {
    var (raw, rest) :- ReadLe(width, s);
    Ok(SignedOf(raw, width), rest)
  }

  /** What a list loop keeps: the items read so far, then those the rest of the list gives, are the whole list. */
  ghost predicate Listed<T>(whole: Read<seq<T>>, done: seq<T>, left: Read<seq<T>>) {
    match left
    case Ok(items, rest) => whole == Ok(done + items, rest)
    case Fail => whole == Fail
    case Panic => whole == Panic
  }

  lemma ListedNone<T>(whole: Read<seq<T>>)
    ensures Listed(whole, [], whole)
  {
    if whole.Ok? {
      assert [] + whole.value == whole.value;
    }
  }

  lemma ListedStep<T>(whole: Read<seq<T>>, done: seq<T>, head: T, left: Read<seq<T>>, next: Read<seq<T>>)
    requires Listed(whole, done, left)
    requires left == match next
                     case Ok(items, rest) => Ok([head] + items, rest)
                     case Fail => Fail
                     case Panic => Panic
    ensures Listed(whole, done + [head], next)
  {
    if next.Ok? {
      assert done + ([head] + next.value) == done + [head] + next.value;
    }
  }

  lemma ListedAll<T>(whole: Read<seq<T>>, done: seq<T>, rest: Bytes)
    requires Listed(whole, done, Ok([], rest))
    ensures whole == Ok(done, rest)
  {
    assert done + [] == done;
  }

  /** The library routine that reads a small integer, least significant byte first. */
  method GetLittleEndian(width: nat, s: Bytes) returns (v: nat)
    requires width <= |s|
    ensures v == ReadLe(width, s).value
  {
    v := 0;
    for i := width downto 0
      invariant v == ReadLe(width - i, s[i..]).value
    {
      assert s[i..][1..] == s[i + 1..];
      v := s[i] + 256 * v;
    }
    assert s[0..] == s;
  }

  lemma {:induction false} ReadLeRest(width: nat, s: Bytes)
    requires width <= |s|
    ensures ReadLe(width, s).rest == s[width..]
  {
    if width > 0 {
      ReadLeRest(width - 1, s[1..]);
      assert s[1..][width - 1..] == s[width..];
    }
  }

  /** `x << 7*i`, before the word cuts it off */
  function Shifted(x: int, i: nat): int {
    Pow128(i) * x
  }

  /** After i groups worth `low`, the whole number is known from the number that is still to be read. */
  ghost predicate Groups(whole: Read<int>, low: nat, i: nat, left: Read<int>) {
    match left
    case Ok(high, rest) => whole == Ok(low + Shifted(high, i), rest)
    case Fail => whole == Fail
    case Panic => false
  }

  lemma FirstGroup(whole: Read<int>)
    requires !whole.Panic?
    ensures Groups(whole, 0, 0, whole)
  {
    NoGroups();
  }

  /** Where the groups end, or break off, so does the whole number. */
  lemma GroupsEnd(whole: Read<int>, low: nat, i: nat, left: Read<int>)
    requires Groups(whole, low, i, left)
    ensures whole == match left
                     case Ok(high, rest) => Ok(low + Shifted(high, i), rest)
                     case _ => Fail
  {
  }

  /** One group more: x is the group, `left` the number that starts with it. */
  lemma GroupsStep(whole: Read<int>, low: nat, i: nat, x: nat, left: Read<int>, next: Read<int>)
    requires Groups(whole, low, i, left) && !next.Panic?
    requires left == if next.Ok? then Ok(x + 128 * next.value, next.rest) else Fail
    ensures Groups(whole, low + Shifted(x, i), i + 1, next)
  {
    if next.Ok? {
      assert Pow128(i) * (x + 128 * next.value) == Pow128(i) * x + Pow128(i + 1) * next.value;
    }
  }

  /** Below the tenth group nothing is lost; of the tenth only the lowest bit stays in the word. */
  lemma AddGroup(low: nat, x: nat, i: nat)
    requires i < 10 && low < Pow128(i) && x < 128
    ensures 0 <= low + Shifted(x, i) < Pow128(i + 1)
    ensures low % TWO_64 + Shifted(x, i) % TWO_64 == (low + Shifted(x, i)) % TWO_64
  {
    var p, y := Pow128(i), Shifted(x, i);
    Pow128Ten();
    MulRange(p, x, 127);
    Pow128Monotone(i, 9);
    ModUnique(low, TWO_64, 0, low);
    if i < 9 {
      Pow128Monotone(i + 1, 9);
      ModUnique(y, TWO_64, 0, y);
      ModUnique(low + y, TWO_64, 0, low + y);
    } else {
      var q, r := x / 2, x % 2;
      assert y == TWO_64 * q + TWO_63 * r;
      ModUnique(y, TWO_64, q, TWO_63 * r);
      ModUnique(low + y, TWO_64, q, low + TWO_63 * r);
    }
  }

  /** The last group b with the sign extension of the 64-bit word reads as the signed number. */
  lemma SignLastGroup(low: nat, b: nat, i: nat)
    requires i < 10 && low < Pow128(i) && b < 128
    ensures var word := (low + Shifted(b, i)) % TWO_64;
            var last: int := if b < 64 then b else b - 128;
            var extended := if i + 1 < 10 && b >= 64 then word + (TWO_64 - Pow128(i + 1)) else word;
            0 <= extended < TWO_64 && ToInt64(extended) == ToInt64(low + Shifted(last, i))
  {
    Pow128Ten();
    if i < 9 {
      Pow128Monotone(i + 1, 9);
      SignEarlyGroup(low, b, Pow128(i));
    } else {
      SignTenthGroup(low, b);
    }
  }

  /** Below the tenth group the sign bit is extended over the groups that are not there. */
  lemma SignEarlyGroup(low: nat, b: nat, p: nat)
    requires 0 < p && 128 * p <= TWO_63 && low < p && b < 128
    ensures var word := (low + p * b) % TWO_64;
            var last: int := if b < 64 then b else b - 128;
            var extended := if b >= 64 then word + (TWO_64 - 128 * p) else word;
            0 <= extended < TWO_64 && ToInt64(extended) == ToInt64(low + p * last)
  {
    MulRange(p, b, 127);
    var x := low + p * b;
    ModUnique(x, TWO_64, 0, x);
    if b >= 64 {
      MulRange(p, 64, b);
      assert p * (b - 128) == p * b - 128 * p;
      ModShift(x - 128 * p, TWO_64, 1);
    }
  }

  /** The tenth group fills the word, so its sign bit is in place. */
  lemma SignTenthGroup(low: nat, b: nat)
    requires b < 128
    ensures var word := (low + TWO_63 * b) % TWO_64;
            ToInt64(word) == ToInt64(low + TWO_63 * (if b < 64 then b else b - 128))
  {
    var x := low + TWO_63 * b;
    ModShift(x - TWO_64 * 64, TWO_64, 64);
    ModUnique(x % TWO_64, TWO_64, 0, x % TWO_64);
  }

  lemma NoGroups()
    ensures Pow128(0) == 1 && forall x :: Shifted(x, 0) == x
  {
  }

  lemma RawUlebStep(limit: nat, s: Bytes)
    ensures RawUleb(limit, s)
            == if limit == 0 || s == [] then Fail
               else if s[0] / 128 == 0 then Ok(s[0] % 128, s[1..])
               else match RawUleb(limit - 1, s[1..])
                 case Ok(high, rest) => Ok(s[0] % 128 + 128 * high, rest)
                 case _ => Fail
  {
  }

  lemma RawSlebStep(limit: nat, s: Bytes)
    ensures RawSleb(limit, s)
            == if limit == 0 || s == [] then Fail
               else if s[0] / 128 == 0 then Ok(if s[0] < 64 then s[0] as int else s[0] as int - 128, s[1..])
               else match RawSleb(limit - 1, s[1..])
                 case Ok(high, rest) => Ok(s[0] % 128 + 128 * high, rest)
                 case _ => Fail
  {
  }
}
