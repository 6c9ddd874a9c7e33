/** Validity bitmaps as the arrays that the program allocates, fills and changes in place. A nil bitmap is null. */
module ValidityArrays {
  import opened Numbers
  import opened Wire
  import opened Validity

  ghost function View(bitmap: array?<Word>): Validity
    reads bitmap
  {
    if bitmap == null then None else Some(bitmap[..])
  }

  method BuildAllValid(count: nat) returns (out: array<Word>)
    ensures fresh(out) && out[..] == AllValid(count)
  {
    hide AllValid, OnesWord;
    out := new Word[WordCount(count)](_ => 0);
    var full := count / 64;
    for i := 0 to full
      invariant forall j | 0 <= j < i :: out[j] == TWO_64 - 1
    {
      out[i] := TWO_64 - 1;
    }
    var rem := count % 64;
    if rem > 0 && full < out.Length {
      out[full] := OnesWord(rem);
    }
    AllValidWords(count);
    assert out[..] == AllValid(count);
  }

  /** Full words first, then one with the remaining rows. */
  lemma AllValidWords(count: nat)
    ensures var words := AllValid(count);
            |words| == count / 64 + (if count % 64 > 0 then 1 else 0)
            && (forall j | 0 <= j < count / 64 :: words[j] == TWO_64 - 1)
            && (count % 64 > 0 ==> words[count / 64] == OnesWord(count % 64))
  {
    hide Ones, Pow2;
    assert Ones(64) == TWO_64 - 1 by {
      Pow2Values();
      OnesValue(64);
    }
  }

  method SetNullAt(bitmap: array<Word>, row: nat)
    requires row / 64 < bitmap.Length
    modifies bitmap
    ensures bitmap[..] == SetNull(old(bitmap[..]), row)
  {
    bitmap[row / 64] := ClearBit(bitmap[row / 64], row % 64);
  }

  method SetValidAt(bitmap: array<Word>, row: nat)
    requires row / 64 < bitmap.Length
    modifies bitmap
    ensures bitmap[..] == SetValid(old(bitmap[..]), row)
  {
    Pow2Values();
    SetBitBound(bitmap[row / 64], row % 64, 64);
    bitmap[row / 64] := SetBit(bitmap[row / 64], row % 64);
  }

  /** One more byte of a little-endian number: the old value and the shifted byte share no bit. */
  lemma {:induction false} LeValueNext(n: nat, s: Bytes)
    requires n < |s|
    ensures LeValue(n + 1, s) == LeValue(n, s) + Pow256(n) * s[n]
  {
    if n > 0 {
      LeValueNext(n - 1, s[1..]);
      assert LeValue(n + 1, s) == s[0] + 256 * LeValue(n, s[1..]);
      assert LeValue(n, s) == s[0] + 256 * LeValue(n - 1, s[1..]);
      Regroup(256, Pow256(n - 1), s[n]);
    } else {
      assert LeValue(1, s) == s[0] + 256 * LeValue(0, s[1..]);
    }
  }

  lemma {:induction false} LeValueShort(n: nat, m: nat, s: Bytes)
    requires |s| <= n <= m
    ensures LeValue(m, s) == LeValue(n, s)
  {
    if s != [] {
      LeValueShort(n - 1, m - 1, s[1..]);
    }
  }

  /** One word from at most eight bytes; missing bytes count as zero. */
  method WordAt(bytes: Bytes, base: nat) returns (v: Word)
    ensures v == LeValue(8, if base <= |bytes| then bytes[base..] else [])
  {
    ghost var s := if base <= |bytes| then bytes[base..] else [];
    var w: nat := 0;
    var b := 0;
    while b < 8 && base + b < |bytes|
      invariant 0 <= b <= 8 && (b > 0 ==> b <= |s|)
      invariant w == LeValue(b, s)
      decreases 8 - b
    {
      LeValueNext(b, s);
      assert s[b] == bytes[base + b];
      w := w + Pow256(b) * bytes[base + b];
      b := b + 1;
    }
    if b < 8 {
      LeValueShort(b, 8, s);
    }
    Pow256Values();
    v := w;
  }

  lemma {:induction false} WordsOfAt(n: nat, s: Bytes, i: nat)
    requires i < n
    ensures WordsOf(n, s)[i] == LeValue(8, if 8 * i <= |s| then s[8 * i..] else [])
  {
    if i == 0 {
      assert s[0..] == s;
    } else {
      var rest := if |s| < 8 then [] else s[8..];
      WordsOfAt(n - 1, rest, i - 1);
      if 8 * i <= |s| {
        assert rest[8 * (i - 1)..] == s[8 * i..];
      }
    }
  }

  method BitmapFromBytes(bytes: Bytes, count: nat) returns (out: array<Word>)
    ensures fresh(out) && out[..] == FromBytes(bytes, count)
  {
    out := new Word[WordCount(count)](_ => 0);
    for i := 0 to out.Length
      invariant forall j | 0 <= j < i :: out[j] == FromBytes(bytes, count)[j]
    {
      WordsOfAt(out.Length, bytes, i);
      out[i] := WordAt(bytes, 8 * i);
    }
    assert out[..] == FromBytes(bytes, count);
  }

  /** Setting the next bit of a run of ones lengthens the run. */
  lemma {:induction false} SetNextBit(k: nat)
    ensures SetBit(Ones(k), k) == Ones(k + 1)
  {
    if k > 0 {
      SetNextBit(k - 1);
    }
  }

  lemma OnesByteNext(i: nat, j: nat)
    ensures Clamp(i + 1 - 8 * j, 8) == if j == i / 8 then i % 8 + 1 else Clamp(i - 8 * j, 8)
    ensures j == i / 8 ==> Clamp(i - 8 * j, 8) == i % 8
  {
  }

  /** The nil fast path: one bit after the other. */
  method OnesToBytes(count: nat) returns (out: array<Byte>)
    ensures fresh(out) && out[..] == OnesBytes(count, WireByteCount(count))
  {
    out := new Byte[WireByteCount(count)](_ => 0);
    for i := 0 to count
      invariant forall j | 0 <= j < out.Length :: out[j] == Ones(Clamp(i - 8 * j, 8))
    {
      forall j | 0 <= j < out.Length
        ensures Clamp(i + 1 - 8 * j, 8) == if j == i / 8 then i % 8 + 1 else Clamp(i - 8 * j, 8)
        ensures j == i / 8 ==> Clamp(i - 8 * j, 8) == i % 8
      {
        OnesByteNext(i, j);
      }
      assert out[i / 8] == Ones(i % 8);
      SetNextBit(i % 8);
      ghost var whole := OnesByte(i % 8 + 1);
      out[i / 8] := SetBit(out[i / 8], i % 8);
    }
  }

  lemma {:induction false} LeByteAt(n: nat, v: int, tail: Bytes, b: nat)
    requires b < n
    ensures Le(n, v, tail)[b] == (v / Pow256(b)) % 256
  {
    if b > 0 {
      LeByteAt(n - 1, v / 256, tail, b - 1);
      DivDiv(v, Pow256(b - 1));
      assert Le(n, v, tail)[b] == Le(n - 1, v / 256, tail)[b - 1];
    }
  }

  lemma DivDiv(v: int, p: int)
    requires p > 0
    ensures (v / 256) / p == v / (256 * p)
  {
    var u, c := v / 256, v % 256;
    var q, r := u / p, u % p;
    assert u == p * q + r;
    assert v == (256 * p) * q + (256 * r + c) by {
      assert 256 * (p * q) == (256 * p) * q;
    }
    ModUnique(v, 256 * p, q, 256 * r + c);
  }

  lemma {:induction false} WordsByteAt(words: seq<Word>, tail: Bytes, i: nat, b: nat)
    requires i < |words| && b < 8
    ensures Words(words, tail)[8 * i + b] == (words[i] / Pow256(b)) % 256
  {
    if i == 0 {
      LeByteAt(8, words[0], Words(words[1..], tail), b);
    } else {
      WordsByteAt(words[1..], tail, i - 1, b);
      LeDrop(8, words[0], Words(words[1..], tail));
      assert Words(words, tail)[8..][8 * (i - 1) + b] == Words(words, tail)[8 * i + b];
    }
  }

  lemma {:induction false} WordsTail(words: seq<Word>, tail: Bytes)
    ensures Words(words, tail)[8 * |words|..] == tail
  {
    if words != [] {
      WordsTail(words[1..], tail);
      LeDrop(8, words[0], Words(words[1..], tail));
      assert Words(words, tail)[8 * |words|..] == Words(words, tail)[8..][8 * (|words| - 1)..];
    }
  }

  method WordsToBytes(words: array<Word>, count: nat) returns (out: array<Byte>)
    requires words.Length <= WordCount(count)
    ensures fresh(out) && out[..] == ToBytes(Some(words[..]), count)
  {
    hide Words, Pow256, WordCount;
    out := new Byte[WireByteCount(count)](_ => 0);
    ghost var all := ToBytes(Some(words[..]), count);
    WordsTail(words[..], Zeros(WireByteCount(count) - 8 * words.Length));
    for i := 0 to words.Length
      invariant forall j | 0 <= j < 8 * i :: out[j] == all[j]
      invariant forall j | 8 * i <= j < out.Length :: out[j] == 0
    {
      for b := 0 to 8
        invariant forall j | 0 <= j < 8 * i + b :: out[j] == all[j]
        invariant forall j | 8 * i + b <= j < out.Length :: out[j] == 0
      {
        WordsByteAt(words[..], Zeros(WireByteCount(count) - 8 * words.Length), i, b);
        out[8 * i + b] := (words[i] / Pow256(b)) % 256;
      }
    }
    forall j | 8 * words.Length <= j < out.Length ensures all[j] == 0 {
      assert all[j] == all[8 * words.Length..][j - 8 * words.Length];
    }
    assert out[..] == all;
  }

  method BitmapToBytes(bitmap: array?<Word>, count: nat) returns (out: array<Byte>)
    requires bitmap != null ==> bitmap.Length <= WordCount(count)
    ensures fresh(out) && out[..] == ToBytes(View(bitmap), count)
  {
    if bitmap == null {
      out := OnesToBytes(count);
    } else {
      out := WordsToBytes(bitmap, count);
    }
  }

  /** The bitmap after the first n rows: still nil while none of them is null. */
  ghost function Partial(nulls: seq<bool>, n: nat): Validity
    requires n <= |nulls|
  {
    if true in nulls[..n] then Some(NullMask(nulls, n)) else None
  }

  /** One more null row; the first one allocates the bitmap. */
  method MarkNull(bitmap: array?<Word>, count: nat, i: nat, ghost nulls: seq<bool>) returns (next: array<Word>)
    requires count == |nulls| && i < count && nulls[i] && View(bitmap) == Partial(nulls, i)
    modifies bitmap
    ensures next == bitmap || fresh(next)
    ensures View(next) == Partial(nulls, i + 1)
  {
    if bitmap == null {
      next := BuildAllValid(count);
      NoNullsYet(nulls, i);
    } else {
      next := bitmap;
    }
    SetNullAt(next, i);
    assert nulls[..i + 1][i];
  }

  lemma NotNull(nulls: seq<bool>, i: nat)
    requires i < |nulls| && !nulls[i]
    ensures Partial(nulls, i + 1) == Partial(nulls, i)
  {
    assert nulls[..i + 1] == nulls[..i] + [false];
  }

  lemma PartialAll(nulls: seq<bool>)
    ensures Partial(nulls, |nulls|) == FromNulls(nulls)
    ensures Partial(nulls, 0) == None
  {
    assert nulls[..|nulls|] == nulls;
  }

  /** A bitmap that is allocated at the first null row and loses one bit for each of them. */
  method BitmapOfNulls(nulls: seq<bool>) returns (bitmap: array?<Word>)
    ensures bitmap != null ==> fresh(bitmap)
    ensures View(bitmap) == FromNulls(nulls)
  {
    bitmap := null;
    PartialAll(nulls);
    for i := 0 to |nulls|
      invariant bitmap != null ==> fresh(bitmap)
      invariant View(bitmap) == Partial(nulls, i)
    {
      if nulls[i] {
        bitmap := MarkNull(bitmap, |nulls|, i, nulls);
      } else {
        NotNull(nulls, i);
      }
    }
  }

  lemma {:induction false} NoNullsYet(nulls: seq<bool>, n: nat)
    requires n <= |nulls| && true !in nulls[..n]
    ensures NullMask(nulls, n) == AllValid(|nulls|)
  {
    if n > 0 {
      assert nulls[..n][n - 1] == nulls[n - 1];
      assert forall b | b in nulls[..n - 1] :: b in nulls[..n];
      NoNullsYet(nulls, n - 1);
    }
  }
}
