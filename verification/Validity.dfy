/**
 Validity bitmaps: one bit per row in 64-bit words, 1 for a valid row. No bitmap means every row is valid.
 */
module Validity {
  import opened Numbers
  import opened Wire

  type Word = Uint64

  /** A nil bitmap is None. */
  type Validity = Option<seq<Word>>

  function WordCount(count: nat): nat {
    (count + 63) / 64
  }

  function WireByteCount(count: nat): nat {
    WordCount(count) * 8
  }

  // ---- bits of a word ----

  /** Whether bit k of w is set: `w & (1<<k) != 0`. */
  predicate Bit(w: nat, k: nat) {
    if k == 0 then w % 2 == 1 else Bit(w / 2, k - 1)
  }

  /** `w &^ (1<<k)` */
  function ClearBit(w: nat, k: nat): (r: nat)
    ensures r <= w
    ensures !Bit(r, k)
  {
    if k == 0 then w - w % 2 else w % 2 + 2 * ClearBit(w / 2, k - 1)
  }

  /** `w | (1<<k)` */
  function SetBit(w: nat, k: nat): (r: nat)
    ensures r >= w
    ensures Bit(r, k)
  {
    if k == 0 then w - w % 2 + 1 else w % 2 + 2 * SetBit(w / 2, k - 1)
  }

  /** `(1<<n) - 1` */
  function Ones(n: nat): nat {
    if n == 0 then 0 else 1 + 2 * Ones(n - 1)
  }

  lemma {:induction false} ClearBitOther(w: nat, k: nat, j: nat)
    requires j != k
    ensures Bit(ClearBit(w, k), j) == Bit(w, j)
  {
    if k == 0 {
      assert (w - w % 2) / 2 == w / 2;
    } else if j > 0 {
      ClearBitOther(w / 2, k - 1, j - 1);
      assert ClearBit(w, k) / 2 == ClearBit(w / 2, k - 1);
    }
  }

  lemma {:induction false} SetBitOther(w: nat, k: nat, j: nat)
    requires j != k
    ensures Bit(SetBit(w, k), j) == Bit(w, j)
  {
    if k == 0 {
      assert (w - w % 2 + 1) / 2 == w / 2;
    } else if j > 0 {
      SetBitOther(w / 2, k - 1, j - 1);
      assert SetBit(w, k) / 2 == SetBit(w / 2, k - 1);
    }
  }

  lemma {:induction false} SetBitBound(w: nat, k: nat, n: nat)
    requires k < n && w < Pow2(n)
    ensures SetBit(w, k) < Pow2(n)
  {
    if k > 0 {
      SetBitBound(w / 2, k - 1, n - 1);
    }
  }

  lemma {:induction false} OnesBits(n: nat, k: nat)
    ensures Bit(Ones(n), k) <==> k < n
  {
    if n == 0 {
      ZeroBits(k);
    } else if k > 0 {
      OnesBits(n - 1, k - 1);
    }
  }

  lemma {:induction false} ZeroBits(k: nat)
    ensures !Bit(0, k)
  {
    if k > 0 {
      ZeroBits(k - 1);
    }
  }

  lemma {:induction false} OnesValue(n: nat)
    ensures Ones(n) == Pow2(n) - 1
  {
    if n > 0 {
      OnesValue(n - 1);
    }
  }

  lemma {:induction false} OnesMonotone(m: nat, n: nat)
    requires m <= n
    ensures Ones(m) <= Ones(n)
  {
    if m > 0 {
      OnesMonotone(m - 1, n - 1);
    }
  }

  // ---- rows of a bitmap ----

  /** Reading the row does not index past the bitmap. */
  predicate Covers(validity: Validity, row: nat) {
    validity.None? || row / 64 < |validity.value|
  }

  predicate IsValid(validity: Validity, row: nat)
    requires Covers(validity, row)
  {
    validity.None? || Bit(validity.value[row / 64], row % 64)
  }

  function OnesWord(n: nat): (w: Word)
    requires n <= 64
    ensures w == Ones(n)
  {
    Pow2Values();
    OnesValue(64);
    OnesMonotone(n, 64);
    Ones(n)
  }

  function OnesByte(n: nat): (b: Byte)
    requires n <= 8
    ensures b == Ones(n)
  {
    Pow2Values();
    OnesValue(8);
    OnesMonotone(n, 8);
    Ones(n)
  }

  /** The number of rows from `from` on that fit in a group of `width`. */
  function Clamp(n: int, width: nat): (r: nat)
    ensures r <= width
  {
    if n < 0 then 0 else if n > width then width else n
  }

  function AllValid(count: nat): (words: seq<Word>)
    ensures |words| == WordCount(count)
  {
    seq(WordCount(count), i requires 0 <= i < WordCount(count) => OnesWord(Clamp(count - 64 * i, 64)))
  }

  function SetNull(words: seq<Word>, row: nat): seq<Word>
    requires row / 64 < |words|
  {
    words[row / 64 := ClearBit(words[row / 64], row % 64)]
  }

  function SetValid(words: seq<Word>, row: nat): seq<Word>
    requires row / 64 < |words|
  {
    Pow2Values();
    SetBitBound(words[row / 64], row % 64, 64);
    words[row / 64 := SetBit(words[row / 64], row % 64)]
  }

  /** Exactly the first `count` rows are valid. */
  lemma AllValidRows(count: nat, row: nat)
    requires row / 64 < WordCount(count)
    ensures IsValid(Some(AllValid(count)), row) <==> row < count
  {
    OnesBits(Clamp(count - 64 * (row / 64), 64), row % 64);
  }

  /** Clearing a row's bit makes that row null and changes no other row. */
  lemma SetNullRows(words: seq<Word>, row: nat, other: nat)
    requires row / 64 < |words| && other / 64 < |words|
    ensures IsValid(Some(SetNull(words, row)), other) == (other != row && IsValid(Some(words), other))
  {
    if other / 64 == row / 64 && other != row {
      ClearBitOther(words[row / 64], row % 64, other % 64);
    }
  }

  lemma SetValidRows(words: seq<Word>, row: nat, other: nat)
    requires row / 64 < |words| && other / 64 < |words|
    ensures IsValid(Some(SetValid(words, row)), other) == (other == row || IsValid(Some(words), other))
  {
    if other / 64 == row / 64 && other != row {
      SetBitOther(words[row / 64], row % 64, other % 64);
    }
  }

  /** An all-valid bitmap with the marked rows among the first n cleared one by one. */
  function NullMask(nulls: seq<bool>, n: nat): (words: seq<Word>)
    requires n <= |nulls|
    ensures |words| == WordCount(|nulls|)
  {
    if n == 0 then AllValid(|nulls|)
    else if nulls[n - 1] then SetNull(NullMask(nulls, n - 1), n - 1)
    else NullMask(nulls, n - 1)
  }

  /** A bitmap is allocated only when some row is null. */
  function FromNulls(nulls: seq<bool>): (validity: Validity)
    ensures validity.Some? ==> |validity.value| == WordCount(|nulls|)
  {
    if true in nulls then Some(NullMask(nulls, |nulls|)) else None
  }

  lemma {:induction false} NullMaskRows(nulls: seq<bool>, n: nat, row: nat)
    requires n <= |nulls| && row < |nulls|
    ensures IsValid(Some(NullMask(nulls, n)), row) <==> !(row < n && nulls[row])
  {
    if n == 0 {
      AllValidRows(|nulls|, row);
    } else {
      NullMaskRows(nulls, n - 1, row);
      if nulls[n - 1] {
        SetNullRows(NullMask(nulls, n - 1), n - 1, row);
      }
    }
  }

  /** Row by row, the bitmap marks exactly the rows that are not null. */
  lemma FromNullsRows(nulls: seq<bool>, row: nat)
    requires row < |nulls|
    ensures Covers(FromNulls(nulls), row) && IsValid(FromNulls(nulls), row) == !nulls[row]
  {
    if true in nulls {
      NullMaskRows(nulls, |nulls|, row);
    }
  }

  // ---- bytes ----

  /** The words, least significant byte first. */
  function Words(words: seq<Word>, tail: Bytes): (s: Bytes)
    ensures |s| == 8 * |words| + |tail|
  {
    if words == [] then tail else Le(8, words[0], Words(words[1..], tail))
  }

  /** The value of at most n leading bytes; missing bytes count as zero. */
  function LeValue(n: nat, s: Bytes): (v: nat)
    ensures v < Pow256(n)
  {
    if n == 0 || s == [] then 0 else s[0] + 256 * LeValue(n - 1, s[1..])
  }

  function WordsOf(n: nat, s: Bytes): (words: seq<Word>)
    ensures |words| == n
  {
    Pow256Values();
    if n == 0 then [] else [LeValue(8, s)] + WordsOf(n - 1, if |s| < 8 then [] else s[8..])
  }

  function FromBytes(bytes: Bytes, count: nat): (words: seq<Word>)
    ensures |words| == WordCount(count)
  {
    WordsOf(WordCount(count), bytes)
  }

  /** A nil bitmap is written as ones for the first `count` rows. A bitmap with too many words makes Go panic. */
  function ToBytes(validity: Validity, count: nat): (s: Bytes)
    requires validity.Some? ==> |validity.value| <= WordCount(count)
    ensures |s| == WireByteCount(count)
  {
    match validity
    case None => OnesBytes(count, WireByteCount(count))
    case Some(words) => Words(words, Zeros(WireByteCount(count) - 8 * |words|))
  }

  function Zeros(n: nat): (s: Bytes)
    ensures |s| == n
  {
    seq(n, _ => 0)
  }

  /** Byte j holds the ones for rows 8j .. 8j+7. */
  function OnesBytes(count: nat, length: nat): (s: Bytes)
    ensures |s| == length
  {
    seq(length, j requires 0 <= j < length => OnesByte(Clamp(count - 8 * j, 8)))
  }

  lemma {:induction false} LeValueOfLe(n: nat, v: int, tail: Bytes)
    ensures LeValue(n, Le(n, v, tail)) == v % Pow256(n)
  {
    if n > 0 {
      assert Le(n, v, tail)[1..] == Le(n - 1, v / 256, tail);
      LeValueOfLe(n - 1, v / 256, tail);
      SplitLow(v, Pow256(n - 1));
    }
  }

  lemma {:induction false} LeDrop(n: nat, v: int, tail: Bytes)
    ensures Le(n, v, tail)[n..] == tail
  {
    if n > 0 {
      LeDrop(n - 1, v / 256, tail);
      assert Le(n, v, tail)[n..] == Le(n - 1, v / 256, tail)[n - 1..];
    }
  }

  lemma {:induction false} WordsRoundTrip(words: seq<Word>, tail: Bytes)
    ensures WordsOf(|words|, Words(words, tail)) == words
  {
    if words != [] {
      var s := Words(words[1..], tail);
      LeValueOfLe(8, words[0], s);
      Pow256Values();
      ModUnique(words[0], TWO_64, 0, words[0]);
      LeDrop(8, words[0], s);
      WordsRoundTrip(words[1..], tail);
      assert words == [words[0]] + words[1..];
    }
  }

  /** A bitmap of the right size survives the wire word for word. */
  lemma FromBytesOfToBytes(words: seq<Word>, count: nat)
    requires |words| == WordCount(count)
    ensures FromBytes(ToBytes(Some(words), count), count) == words
  {
    WordsRoundTrip(words, Zeros(0));
  }

  lemma OnesSplit(n: nat)
    ensures Ones(n) % 256 == Ones(Clamp(n, 8))
    ensures Ones(n) / 256 == Ones(Clamp(n - 8, n))
  {
    if n >= 8 {
      OnesAdd(8, n - 8);
      assert Ones(8) == 255 by { Pow2Values(); OnesValue(8); }
      ModUnique(Ones(n), 256, Ones(n - 8), 255);
    } else {
      OnesMonotone(n, 7);
      assert Ones(7) == 127 by { assert Ones(4) == 15; assert Ones(6) == 63; }
    }
  }

  lemma {:induction false} OnesAdd(k: nat, n: nat)
    ensures Ones(k + n) == Ones(k) + Pow2(k) * Ones(n)
  {
    if k == 0 {
      assert Pow2(0) * Ones(n) == Ones(n);
    } else {
      OnesAdd(k - 1, n);
      Regroup(2, Pow2(k - 1), Ones(n));
    }
  }

  lemma OnesBytesHead(n: nat, m: nat, length: nat)
    requires length > 0 && m == Clamp(n - 8, n)
    ensures OnesBytes(n, length) == [OnesByte(Clamp(n, 8))] + OnesBytes(m, length - 1)
  {
  }

  lemma OnesBytesWord(count: nat, m: nat, length: nat)
    requires m == Clamp(count - 64, count)
    ensures OnesBytes(count, 8 + length) == OnesBytes(Clamp(count, 64), 8) + OnesBytes(m, length)
  {
  }

  /** One word of ones is eight bytes of ones. */
  lemma {:induction false} OnesLe(length: nat, n: nat, tail: Bytes)
    ensures Le(length, Ones(n), tail) == OnesBytes(n, length) + tail
  {
    if length > 0 {
      OnesSplit(n);
      var m := Clamp(n - 8, n);
      OnesLe(length - 1, m, tail);
      OnesBytesHead(n, m, length);
      assert Le(length, Ones(n), tail) == [Ones(Clamp(n, 8))] + Le(length - 1, Ones(m), tail);
    }
  }

  /** The nil fast path writes the same bytes as an explicit all-valid bitmap. */
  lemma NilIsAllValid(count: nat)
    ensures ToBytes(None, count) == ToBytes(Some(AllValid(count)), count)
  {
    AllValidBytes(count, AllValid(count));
  }

  lemma {:induction false} AllValidBytes(count: nat, words: seq<Word>)
    requires words == AllValid(count)
    ensures Words(words, Zeros(0)) == OnesBytes(count, 8 * |words|)
    decreases count
  {
    hide Le, Ones;
    if words == [] {
    } else {
      var n := Clamp(count, 64);
      var others := words[1..];
      var m := Clamp(count - 64, count);
      assert others == AllValid(m);
      AllValidBytes(m, others);
      OnesLe(8, n, Words(others, Zeros(0)));
      OnesBytesWord(count, m, 8 * |others|);
    }
  }
}
