// The few facts about products and quotients of reals that the geometry needs.
// Where a caller's product contains a difference, it passes the product as a value of its own.
module RealArithmetic {
  lemma ProductNonnegative(a: real, b: real)
    requires 0.0 <= a && 0.0 <= b
    ensures 0.0 <= a * b
  {
  }

  lemma ProductPositive(a: real, b: real)
    requires 0.0 < a && 0.0 < b
    ensures 0.0 < a * b
  {
  }

  lemma QuotientTimes(v: real, d: real)
    requires d != 0.0
    ensures (v / d) * d == v
  {
  }

  lemma UnitFraction(v: real, d: real)
    requires 0.0 < d && 0.0 <= v <= d
    ensures 0.0 <= v / d <= 1.0
  {
  }

  lemma SameSign(v: real, d: real, product: real)
    requires 0.0 < v && product == v * d
    ensures product > 0.0 <==> d > 0.0
    ensures product < 0.0 <==> d < 0.0
  {
    if d > 0.0 {
      ProductPositive(v, d);
    } else if d < 0.0 {
      ProductPositive(v, -d);
      assert v * -d == -product;
    }
  }

  lemma Cancel(k: real, u: real, v: real)
    requires k != 0.0 && k * u == k * v
    ensures u == v
  {
    assert k * (u - v) == 0.0;
  }

  lemma ZeroFactor(k: real, u: real)
    requires k != 0.0 && k * u == 0.0
    ensures u == 0.0
  {
  }

  /** Two weights that balance put their values on opposite sides, or both at zero. */
  lemma Balance(s: real, f: real, g: real)
    requires 0.0 < s < 1.0 && f + s * (g - f) == 0.0
    ensures (f > 0.0 && g < 0.0) || (f < 0.0 && g > 0.0) || f == g == 0.0
  {
    var r := 1.0 - s;
    assert r * f + s * g == 0.0;
    if f > 0.0 && g >= 0.0 {
      ProductPositive(r, f);
      ProductNonnegative(s, g);
    } else if f < 0.0 && g <= 0.0 {
      ProductPositive(r, -f);
      ProductNonnegative(s, -g);
    } else if f == 0.0 {
      ZeroFactor(s, g);
    }
  }

  /** The fraction of a nonzero span d at which an offset v between 0 and d lies. */
  lemma Fraction(v: real, d: real) returns (t: real)
    requires (0.0 <= v <= d && 0.0 < d) || (d <= v <= 0.0 && d < 0.0)
    ensures 0.0 <= t <= 1.0 && t * d == v
  {
    if 0.0 < d {
      t := v / d;
      UnitFraction(v, d);
      QuotientTimes(v, d);
    } else {
      var n, m := -v, -d;
      t := n / m;
      UnitFraction(n, m);
      QuotientTimes(n, m);
      assert t * d == -(t * m);
    }
  }

  /** Part s of a span d, taken from its beginning, stays within it. */
  lemma ScaleSpan(t: real, d: real, s: real)
    requires 0.0 <= t <= 1.0 && s == t * d
    ensures 0.0 <= d ==> 0.0 <= s <= d
    ensures d <= 0.0 ==> d <= s <= 0.0
  {
    var r := (1.0 - t) * d;
    assert r == d - s;
    if 0.0 <= d {
      ProductNonnegative(t, d);
      ProductNonnegative(1.0 - t, d);
    } else {
      ProductNonnegative(t, -d);
      ProductNonnegative(1.0 - t, -d);
      assert t * -d == -s && (1.0 - t) * -d == -r;
    }
  }
}
