/** Machine integers of the original program, written out over unbounded integers. */
module Numbers {

  type Byte = b: int | 0 <= b < 256
  type Bytes = seq<Byte>

  const TWO_31: int := 0x8000_0000
  const TWO_32: int := 0x1_0000_0000
  const TWO_63: int := 0x8000_0000_0000_0000
  const TWO_64: int := 0x1_0000_0000_0000_0000
  const TWO_127: int := TWO_63 * TWO_64
  const TWO_128: int := TWO_64 * TWO_64

  /** The largest Go `int` on a 64-bit platform. */
  const MAX_INT: int := TWO_63 - 1

  type Int64 = x: int | -TWO_63 <= x < TWO_63
  type Uint64 = x: int | 0 <= x < TWO_64

  /** A Go slice or string: its length is an int. A nil slice and an empty one are identified. */
  type Slice<+T> = s: seq<T> | |s| <= MAX_INT witness []
  type Text = Slice<Byte>

  datatype Option<+T> = None | Some(value: T)

  function Repeat<T>(x: T, n: nat): (r: seq<T>)
    ensures |r| == n
  {
    seq(n, _ => x)
  }

  /** Two's-complement reading of the low bits of x, for a modulus of 2^bits. */
  function Signed(x: int, modulus: int): (r: int)
    requires modulus > 0 && modulus % 2 == 0
    ensures -(modulus / 2) <= r < modulus / 2
    ensures (x - r) % modulus == 0
  {
    var u := x % modulus;
    SubMod(x, modulus);
    if u < modulus / 2 then u else u - modulus
  }

  function ToInt64(x: int): (r: Int64)
    ensures (x - r) % TWO_64 == 0
  {
    Signed(x, TWO_64)
  }

  lemma SubMod(x: int, m: int)
    requires m > 0
    ensures (x - x % m) % m == 0
    ensures (x - (x % m - m)) % m == 0
  {
    var q := x / m;
    assert x - x % m == m * q + 0;
    ModUnique(x - x % m, m, q, 0);
    assert x - (x % m - m) == m * (q + 1) + 0 by {
      assert m * (q + 1) == m * q + m;
    }
    ModUnique(x - (x % m - m), m, q + 1, 0);
  }

  /** Euclidean quotient and remainder are the only pair that fits. */
  lemma ModUnique(x: int, m: int, q: int, r: int)
    requires m > 0 && 0 <= r < m
    requires x == m * q + r
    ensures x / m == q && x % m == r
  {
    var q', r' := x / m, x % m;
    assert x == m * q' + r';
    assert m * (q - q') == r' - r;
    assert m * (q' - q) == -(m * (q - q'));
    if q > q' {
      MulGe(m, q - q');
      assert false;
    } else if q < q' {
      MulGe(m, q' - q);
      assert false;
    }
  }

  lemma MulGe(m: int, k: int)
    requires m > 0 && k >= 1
    ensures m * k >= m
  {
  }

  lemma Regroup(a: int, b: int, c: int)
    ensures a * (b * c) == (a * b) * c
  {
  }

  lemma MulRange(m: nat, x: nat, k: nat)
    requires x <= k
    ensures 0 <= m * x <= m * k
  {
    assert m * (k - x) == m * k - m * x;
  }

  /** Splitting off the low byte commutes with taking remainders. */
  lemma SplitLow(v: int, m: int)
    requires m > 0
    ensures v % 256 + 256 * ((v / 256) % m) == v % (256 * m)
  {
    var r, q := v % 256, v / 256;
    var j, k := q % m, q / m;
    assert q == m * k + j;
    assert (256 * m) * k == 256 * (m * k);
    ModUnique(v, 256 * m, k, 256 * j + r);
  }

  /** Two's-complement reading undoes reduction modulo 2^bits, on the signed range. */
  lemma SignedOfMod(v: int, modulus: int)
    requires modulus > 0 && modulus % 2 == 0
    requires -(modulus / 2) <= v < modulus / 2
    ensures Signed(v % modulus, modulus) == v
    ensures Signed(v, modulus) == v
  {
    if v >= 0 {
      ModUnique(v, modulus, 0, v);
    } else {
      assert v == modulus * (-1) + (v + modulus);
      ModUnique(v, modulus, -1, v + modulus);
    }
    assert (v % modulus) % modulus == v % modulus by { ModUnique(v % modulus, modulus, 0, v % modulus); }
  }

  /** Numbers a multiple of the modulus apart have one remainder. */
  lemma ModShift(x: int, m: int, k: int)
    requires m > 0
    ensures (x + m * k) % m == x % m
  {
    var q := x / m;
    assert x + m * k == m * (q + k) + x % m by {
      assert m * (q + k) == m * q + m * k;
    }
    ModUnique(x + m * k, m, q + k, x % m);
  }

  lemma ModEqual(x: int, y: int, m: int)
    requires m > 0 && (x - y) % m == 0
    ensures x % m == y % m
  {
    var k := (x - y) / m;
    assert x == y + m * k;
    ModShift(y, m, k);
  }

  function Pow2(n: nat): (p: int)
    ensures p >= 1
  {
    if n == 0 then 1 else 2 * Pow2(n - 1)
  }

  function Pow128(n: nat): (p: int)
    ensures p >= 1
  {
    if n == 0 then 1 else 128 * Pow128(n - 1)
  }

  function Pow256(n: nat): (p: int)
    ensures p >= 1
  {
    if n == 0 then 1 else 256 * Pow256(n - 1)
  }

  function Pow10(n: nat): (p: int)
    ensures p >= 1
  {
    if n == 0 then 1 else 10 * Pow10(n - 1)
  }

  lemma Pow256Values()
    ensures Pow256(1) == 256 && Pow256(2) == 0x1_0000 && Pow256(4) == TWO_32
    ensures Pow256(8) == TWO_64 && Pow256(16) == TWO_128
  {
    assert Pow256(2) == 256 * Pow256(1) == 0x1_0000;
    assert Pow256(3) == 256 * Pow256(2) == 0x100_0000;
    assert Pow256(4) == 256 * Pow256(3) == TWO_32;
    Pow256Add(4, 4);
    Pow256Add(8, 8);
  }

  lemma {:induction false} Pow256Add(a: nat, b: nat)
    ensures Pow256(a + b) == Pow256(a) * Pow256(b)
  {
    if a > 0 {
      Pow256Add(a - 1, b);
      assert Pow256(a + b) == 256 * Pow256(a - 1 + b);
      assert (256 * Pow256(a - 1)) * Pow256(b) == 256 * (Pow256(a - 1) * Pow256(b));
    }
  }

  lemma Pow2Values()
    ensures Pow2(4) == 16 && Pow2(8) == 256 && Pow2(64) == TWO_64
  {
    assert Pow2(8) == 256;
    assert Pow2(16) == 0x1_0000 by { Pow2Add(8, 8); }
    assert Pow2(32) == TWO_32 by { Pow2Add(16, 16); }
    assert Pow2(64) == TWO_64 by { Pow2Add(32, 32); }
  }

  lemma {:induction false} Pow2Add(a: nat, b: nat)
    ensures Pow2(a + b) == Pow2(a) * Pow2(b)
  {
    if a > 0 {
      Pow2Add(a - 1, b);
      assert Pow2(a + b) == 2 * Pow2(a - 1 + b);
      assert (2 * Pow2(a - 1)) * Pow2(b) == 2 * (Pow2(a - 1) * Pow2(b));
    }
  }
}
