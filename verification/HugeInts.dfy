/** 128-bit integers as two 64-bit halves. */
module HugeInts {
  import opened Numbers
  import opened Wire

  datatype HugeIntParts = HugeIntParts(upper: Int64, lower: Uint64)

  const ZERO: HugeIntParts := HugeIntParts(0, 0)

  function FromSigned(v: int): HugeIntParts {
    var normalized := v % TWO_128;
    HugeIntParts(ToInt64(normalized / TWO_64), normalized % TWO_64)
  }

  /** The halves as one signed number: `upper<<64 | lower`. */
  function SignedBig(p: HugeIntParts): int {
    p.upper * TWO_64 + p.lower
  }

  function UnsignedBig(p: HugeIntParts): int {
    (p.upper % TWO_64) * TWO_64 + p.lower
  }

  /** The identity on [-2^127, 2^127), and congruent modulo 2^128 elsewhere. */
  lemma SignedOfParts(v: int)
    ensures SignedBig(FromSigned(v)) == Signed(v, TWO_128)
    ensures -TWO_127 <= v < TWO_127 ==> SignedBig(FromSigned(v)) == v
    ensures (v - SignedBig(FromSigned(v))) % TWO_128 == 0
    ensures UnsignedBig(FromSigned(v)) == v % TWO_128
  {
    var n := v % TWO_128;
    assert n == TWO_64 * (n / TWO_64) + n % TWO_64;
    assert 0 <= n / TWO_64 < TWO_64;
    assert (n / TWO_64) % TWO_64 == n / TWO_64;
    if -TWO_127 <= v < TWO_127 {
      SignedOfMod(v, TWO_128);
    }
  }

  /** Every pair of halves is the split of the number it denotes. */
  lemma PartsOfSigned(p: HugeIntParts)
    ensures FromSigned(SignedBig(p)) == p
    ensures FromSigned(UnsignedBig(p)) == p
    ensures SignedBig(p) % TWO_128 == UnsignedBig(p)
  {
    var u := p.upper % TWO_64;
    var n := u * TWO_64 + p.lower;
    ModUnique(n, TWO_128, 0, n);
    ModUnique(n, TWO_64, u, p.lower);
    SignedOfMod(p.upper, TWO_64);
    if p.upper < 0 {
      assert u == p.upper + TWO_64 by { ModUnique(p.upper, TWO_64, -1, p.upper + TWO_64); }
      ModUnique(SignedBig(p), TWO_128, -1, n);
    } else {
      assert u == p.upper;
    }
  }

  // ---- the wire form: the upper half as SLEB128, the lower as ULEB128 ----

  function HugeInt(p: HugeIntParts, tail: Bytes): Bytes {
    Sleb(p.upper, Uleb(p.lower, tail))
  }

  function ReadHugeInt(s: Bytes): (r: Read<HugeIntParts>)
    ensures !r.Panic?
    ensures r.Ok? ==> |r.rest| < |s|
  {
    var (upper, s1) :- ReadSleb(s);
    var (lower, s2) :- ReadUleb(s1);
    Ok(HugeIntParts(upper, lower), s2)
  }
}
