/** Exact decimal values: fractions in lowest terms, scaled by powers of ten. */
module Decimals {
  import opened Numbers

  /** num/den in lowest terms with den > 0. */
  datatype Fraction = Fraction(num: int, den: int)

  function Abs(v: int): nat {
    if v < 0 then -v else v
  }

  function Gcd(a: nat, b: nat): (g: nat)
    ensures a > 0 || b > 0 ==> g > 0
    decreases b
  {
    if b == 0 then a else Gcd(b, a % b)
  }

  lemma {:induction false} GcdDivides(a: nat, b: nat)
    requires a > 0 || b > 0
    ensures a % Gcd(a, b) == 0 && b % Gcd(a, b) == 0
    decreases b
  {
    if b == 0 {
      ModUnique(a, a, 1, 0);
    } else {
      var g, r, q := Gcd(a, b), a % b, a / b;
      GcdDivides(b, r);
      var i, j := b / g, r / g;
      assert b == g * i && r == g * j;
      assert a == g * (i * q + j) by {
        assert (g * i) * q == g * (i * q);
      }
      ModUnique(a, g, i * q + j, 0);
    }
  }

  /** big.Rat.SetFrac: divides out the greatest common divisor. */
  function MakeFraction(num: int, den: int): (f: Fraction)
    requires den > 0
    ensures f.den > 0
  {
    var g := Gcd(Abs(num), den);
    GcdDivides(Abs(num), den);
    assert den / g > 0 by {
      assert den == g * (den / g);
    }
    Fraction(if num < 0 then -(Abs(num) / g) else num / g, den / g)
  }

  /** Division that truncates toward zero. */
  function Quo(a: int, b: int): int
    requires b > 0
  {
    if a < 0 then -((-a) / b) else a / b
  }

  lemma QuoExact(v: int, b: int)
    requires b > 0
    ensures Quo(v * b, b) == v
  {
    if v < 0 {
      assert -(v * b) == b * (-v) + 0;
      MulGe(b, -v);
      ModUnique(-(v * b), b, -v, 0);
    } else {
      assert v * b >= 0;
      ModUnique(v * b, b, v, 0);
    }
  }

  /** big.Int.Exp(10, scale): one when the scale is not positive. */
  function Factor(scale: int): (f: int)
    ensures f > 0
  {
    if scale <= 0 then 1 else Pow10(scale)
  }

  function FromUnscaled(v: int, scale: int): (f: Fraction)
    ensures f.den > 0
  {
    MakeFraction(v, Factor(scale))
  }

  function Unscaled(f: Fraction, scale: int): int
    requires f.den > 0
  {
    Quo(f.num * Factor(scale), f.den)
  }

  /** Scaling the reduced fraction v/10^s back by 10^s divides exactly and gives v. */
  lemma UnscaledOfFraction(v: int, scale: int)
    ensures var f := FromUnscaled(v, scale);
            (f.num * Factor(scale)) % f.den == 0 && Unscaled(f, scale) == v
  {
    hide Factor, Quo;
    var den, f := Factor(scale), FromUnscaled(v, scale);
    Reduced(v, den);
    QuoExact(v, f.den);
    ModUnique(v * f.den, f.den, v, 0);
  }

  /** A reduced fraction is the same quotient. */
  lemma Reduced(v: int, den: int)
    requires den > 0
    ensures MakeFraction(v, den).num * den == v * MakeFraction(v, den).den
  {
    hide Gcd;
    var g, f := Gcd(Abs(v), den), MakeFraction(v, den);
    GcdDivides(Abs(v), den);
    assert den == g * f.den;
    assert v == g * f.num by {
      assert Abs(v) == g * (Abs(v) / g);
      if v < 0 {
        assert g * (-(Abs(v) / g)) == -(g * (Abs(v) / g));
      }
    }
    assert f.num * (g * f.den) == (g * f.num) * f.den;
  }

  // ---- the fractions of a scale ----

  predicate LowestTerms(f: Fraction) {
    f.den > 0 && Gcd(Abs(f.num), f.den) == 1
  }

  /** In lowest terms with a denominator that divides 10^scale: a number with at most `scale` decimal places. */
  predicate OnGrid(f: Fraction, scale: int) {
    LowestTerms(f) && Factor(scale) % f.den == 0
  }

  lemma {:induction false} GcdScaled(a: nat, b: nat, k: nat)
    requires k > 0
    ensures a * k >= 0 && b * k >= 0 && Gcd(a * k, b * k) == k * Gcd(a, b)
    decreases b
  {
    assert a * k >= 0 && b * k >= 0;
    if b == 0 {
      assert b * k == 0;
    } else {
      var q, r := a / b, a % b;
      assert a * k == (b * k) * q + r * k by {
        assert (b * q + r) * k == (b * q) * k + r * k;
        assert (b * q) * k == (b * k) * q;
      }
      assert r * k < b * k by {
        assert (b - r) * k == b * k - r * k;
        MulGe(k, b - r);
      }
      assert r * k >= 0;
      ModUnique(a * k, b * k, q, r * k);
      GcdScaled(b, r, k);
    }
  }

  /** Dividing out the greatest common divisor gives lowest terms and a divisor of the denominator. */
  lemma MakeFractionIsLowest(num: int, den: int)
    requires den > 0
    ensures LowestTerms(MakeFraction(num, den)) && den % MakeFraction(num, den).den == 0
  {
    hide Gcd;
    var g, f := Gcd(Abs(num), den), MakeFraction(num, den);
    GcdDivides(Abs(num), den);
    var a, b := Abs(num) / g, den / g;
    assert Abs(num) == a * g && den == b * g;
    NonNegativeQuotient(Abs(num), g);
    assert Abs(f.num) == a && f.den == b;
    GcdScaled(a, b, g);
    assert g * Gcd(a, b) == g * 1;
    Cancel(g, Gcd(a, b), 1);
    ModUnique(den, b, g, 0);
  }

  lemma NonNegativeQuotient(a: nat, g: nat)
    requires g > 0
    ensures a / g >= 0
  {
  }

  lemma Cancel(g: nat, a: int, b: int)
    requires g > 0 && g * a == g * b
    ensures a == b
  {
    ModUnique(g * a, g, a, 0);
    ModUnique(g * b, g, b, 0);
  }

  /** Multiplying numerator and denominator by the same factor is undone. */
  lemma MakeFractionScaled(f: Fraction, k: nat)
    requires k > 0 && LowestTerms(f)
    ensures f.den * k > 0 && MakeFraction(f.num * k, f.den * k) == f
  {
    hide Gcd;
    MulGe(k, f.den);
    GcdScaled(Abs(f.num), f.den, k);
    assert Abs(f.num * k) == Abs(f.num) * k;
    ModUnique(f.den * k, k, f.den, 0);
    ModUnique(Abs(f.num) * k, k, Abs(f.num), 0);
    if f.num >= 0 {
      ModUnique(f.num * k, k, f.num, 0);
    } else {
      assert f.num * k < 0 by {
        MulGe(k, -f.num);
        assert k * -f.num == -(f.num * k);
      }
    }
  }

  /** Scaling a fraction up, truncating and reducing again gives it back exactly when it is on the grid. */
  lemma GridIs(f: Fraction, scale: int)
    requires f.den > 0
    ensures FromUnscaled(Unscaled(f, scale), scale) == f <==> OnGrid(f, scale)
    ensures OnGrid(f, scale) ==> Unscaled(f, scale) == f.num * (Factor(scale) / f.den)
  {
    hide Gcd, Factor, LowestTerms, MakeFraction, Quo;
    var ten := Factor(scale);
    MakeFractionIsLowest(Unscaled(f, scale), ten);
    if OnGrid(f, scale) {
      OnGridUnscaled(f, ten);
      LowestIsPositive(f);
      MakeFractionScaled(f, ten / f.den);
    }
  }

  lemma LowestIsPositive(f: Fraction)
    requires LowestTerms(f)
    ensures f.den > 0
  {
  }

  lemma OnGridUnscaled(f: Fraction, ten: int)
    requires f.den > 0 && ten > 0 && ten % f.den == 0
    ensures ten / f.den > 0 && ten == f.den * (ten / f.den)
    ensures Quo(f.num * ten, f.den) == f.num * (ten / f.den)
  {
    var k := ten / f.den;
    assert ten == f.den * k;
    assert k > 0 by {
      if k < 0 {
        MulGe(f.den, -k);
      }
    }
    assert f.num * ten == (f.num * k) * f.den;
    QuoExact(f.num * k, f.den);
  }

  /** Every DECIMAL of a width fits the storage that is picked for that width. */
  lemma {:induction false} WidthFits(width: nat, v: int)
    requires -Pow10(width) < v < Pow10(width)
    ensures width <= 4 ==> -0x8000 <= v < 0x8000
    ensures width <= 9 ==> -TWO_31 <= v < TWO_31
    ensures width <= 18 ==> -TWO_63 <= v < TWO_63
    ensures width <= 38 ==> -TWO_127 <= v < TWO_127
  {
    Pow10Values();
    if width <= 4 { Pow10Monotone(width, 4); }
    if width <= 9 { Pow10Monotone(width, 9); }
    if width <= 18 { Pow10Monotone(width, 18); }
    if width <= 38 { Pow10Monotone(width, 38); }
  }

  lemma {:induction false} Pow10Monotone(a: nat, b: nat)
    requires a <= b
    ensures Pow10(a) <= Pow10(b)
  {
    if a < b {
      Pow10Monotone(a, b - 1);
    }
  }

  lemma {:induction false} Pow10Add(a: nat, b: nat)
    ensures Pow10(a + b) == Pow10(a) * Pow10(b)
  {
    if a > 0 {
      Pow10Add(a - 1, b);
      assert Pow10(a + b) == 10 * Pow10(a - 1 + b);
      assert (10 * Pow10(a - 1)) * Pow10(b) == 10 * (Pow10(a - 1) * Pow10(b));
    }
  }

  lemma Pow10Values()
    ensures Pow10(4) == 10_000 && Pow10(9) == 1_000_000_000
    ensures Pow10(18) < TWO_63 && Pow10(38) < TWO_127
  {
    assert Pow10(4) == 10_000 by { assert Pow10(2) == 100; }
    assert Pow10(5) == 10 * Pow10(4);
    assert Pow10(9) == 1_000_000_000 by { Pow10Add(4, 5); }
    assert Pow10(18) == 1_000_000_000_000_000_000 by { Pow10Add(9, 9); }
    assert Pow10(36) == 1_000_000_000_000_000_000 * 1_000_000_000_000_000_000 by { Pow10Add(18, 18); }
    Pow10Add(2, 36);
    assert Pow10(2) == 100;
  }
}
