// Exact geometry of closed segments (zone-polygon-intersection.ts, lines 15-40).
//
// Coordinates are mathematical reals.  The code compares with a tolerance; on the multiples of a
// spacing every one of those comparisons is exact if the spacing is above 0.0001, and only then.
module SegmentGeometry {
  import opened RealArithmetic

  const EPSILON := 0.00000001

  datatype Point = Point(x: real, y: real)

  function Times(n: int, g: real): real {
    n as real * g
  }

  ghost predicate IsMultiple(r: real, g: real) {
    exists n: int :: r == Times(n, g)
  }

  ghost predicate OnLattice(p: Point, g: real) {
    IsMultiple(p.x, g) && IsMultiple(p.y, g)
  }

  /** The spacings that are wide enough for the tolerance. */
  predicate Resolved(g: real) {
    g > 0.0001
  }

  function Min(a: real, b: real): real {
    if a <= b then a else b
  }

  function Max(a: real, b: real): real {
    if a <= b then b else a
  }

  function Abs(a: real): real {
    if a < 0.0 then -a else a
  }

  /** Twice the signed area of the triangle a, b, c. */
  function Orientation(a: Point, b: Point, c: Point): real {
    (b.x - a.x) * (c.y - a.y) - (b.y - a.y) * (c.x - a.x)
  }

  predicate OnSegment(a: Point, b: Point, p: Point) {
    && Abs(Orientation(a, b, p)) <= EPSILON
    && p.x >= Min(a.x, b.x) - EPSILON
    && p.x <= Max(a.x, b.x) + EPSILON
    && p.y >= Min(a.y, b.y) - EPSILON
    && p.y <= Max(a.y, b.y) + EPSILON
  }

  predicate SegmentsIntersect(a: Point, b: Point, c: Point, d: Point) {
    var abC := Orientation(a, b, c);
    var abD := Orientation(a, b, d);
    var cdA := Orientation(c, d, a);
    var cdB := Orientation(c, d, b);
    if && ((abC > EPSILON && abD < -EPSILON) || (abC < -EPSILON && abD > EPSILON))
       && ((cdA > EPSILON && cdB < -EPSILON) || (cdA < -EPSILON && cdB > EPSILON))
    then true
    else OnSegment(a, b, c) || OnSegment(a, b, d) || OnSegment(c, d, a) || OnSegment(c, d, b)
  }

  // ---------- What the code is meant to decide ----------

  /** The point a fraction t of the way from a to b. */
  function Along(a: Point, b: Point, t: real): Point {
    Point(a.x + t * (b.x - a.x), a.y + t * (b.y - a.y))
  }

  /** p is a point of the closed segment from a to b. */
  ghost predicate Lies(p: Point, a: Point, b: Point) {
    exists t: real :: 0.0 <= t <= 1.0 && p == Along(a, b, t)
  }

  ghost predicate ShareAPoint(a: Point, b: Point, c: Point, d: Point) {
    exists p: Point :: Lies(p, a, b) && Lies(p, c, d)
  }

  // ---------- Tolerance is exact on a resolved lattice ----------

  /** The code's tests without tolerance. */
  predicate Between(v: real, a: real, b: real) {
    Min(a, b) <= v <= Max(a, b)
  }

  predicate OnSegmentExact(a: Point, b: Point, p: Point) {
    Orientation(a, b, p) == 0.0 && Between(p.x, a.x, b.x) && Between(p.y, a.y, b.y)
  }

  lemma MultipleDifference(a: real, b: real, g: real)
    requires IsMultiple(a, g) && IsMultiple(b, g)
    ensures IsMultiple(a - b, g)
  {
    var m: int :| a == Times(m, g);
    var n: int :| b == Times(n, g);
    DifferenceOfTimes(m, n, g);
    assert a - b == Times(m - n, g);
  }

  lemma DifferenceOfTimes(m: int, n: int, g: real)
    ensures Times(m - n, g) == Times(m, g) - Times(n, g)
  {
    assert (m - n) as real == m as real - n as real;
  }

  /** Products are multiples of the squared spacing h. */
  lemma MultipleProduct(a: real, b: real, p: real, g: real, h: real)
    requires IsMultiple(a, g) && IsMultiple(b, g) && p == a * b && h == g * g
    ensures IsMultiple(p, h)
  {
    var m: int :| a == Times(m, g);
    var n: int :| b == Times(n, g);
    ProductOfTimes(m, n, g, h);
    assert p == Times(m * n, h);
  }

  lemma ProductOfTimes(m: int, n: int, g: real, h: real)
    requires h == g * g
    ensures Times(m * n, h) == Times(m, g) * Times(n, g)
  {
    var x, y := m as real, n as real;
    assert (m * n) as real == x * y;
    Rearranged(x, y, g);
  }

  lemma Rearranged(x: real, y: real, g: real)
    ensures (x * y) * (g * g) == (x * g) * (y * g)
  {
    var u := x * g;
    assert u * (y * g) == (u * g) * y;
    assert u * g == x * (g * g);
    assert (x * (g * g)) * y == (x * y) * (g * g);
  }

  lemma LatticeOrientation(a: Point, b: Point, c: Point, g: real)
    requires OnLattice(a, g) && OnLattice(b, g) && OnLattice(c, g)
    ensures IsMultiple(Orientation(a, b, c), g * g)
  {
    hide IsMultiple;
    var u, v, e, f := b.x - a.x, b.y - a.y, c.x - a.x, c.y - a.y;
    MultipleDifference(b.x, a.x, g);
    MultipleDifference(b.y, a.y, g);
    MultipleDifference(c.x, a.x, g);
    MultipleDifference(c.y, a.y, g);
    MultipleProduct(u, f, u * f, g, g * g);
    MultipleProduct(v, e, v * e, g, g * g);
    MultipleDifference(u * f, v * e, g * g);
    assert Orientation(a, b, c) == u * f - v * e;
  }

  lemma ToleranceExact(v: real, m: real)
    requires IsMultiple(v, m) && m > EPSILON
    ensures v > EPSILON <==> v > 0.0
    ensures v < -EPSILON <==> v < 0.0
    ensures v >= -EPSILON <==> v >= 0.0
    ensures v <= EPSILON <==> v <= 0.0
  {
    var n: int :| v == Times(n, m);
    MultipleIsFar(n, m);
  }

  lemma MultipleIsFar(n: int, m: real)
    requires m > 0.0
    ensures n > 0 ==> Times(n, m) >= m
    ensures n < 0 ==> Times(n, m) <= -m
    ensures n == 0 ==> Times(n, m) == 0.0
  {
    if n > 0 {
      ProductNonnegative((n - 1) as real, m);
      assert (n - 1) as real * m == Times(n, m) - m;
    } else if n < 0 {
      ProductNonnegative((-n - 1) as real, m);
      assert (-n - 1) as real * m == -Times(n, m) - m;
    }
  }

  /** Areas are squares of the spacing apart, so it is the squares that have to exceed the tolerance. */
  lemma ResolvedMeans(g: real)
    requires g > 0.0
    ensures g > 0.0001 <==> g * g > EPSILON
    ensures g > 0.0001 ==> g > EPSILON
  {
    var u, v := g + 0.0001, g - 0.0001;
    assert u * v == g * g - 0.00000001;
    SameSign(u, v, u * v);
  }

  lemma OnSegmentIsExact(a: Point, b: Point, p: Point, g: real)
    requires Resolved(g) && OnLattice(a, g) && OnLattice(b, g) && OnLattice(p, g)
    ensures OnSegment(a, b, p) <==> OnSegmentExact(a, b, p)
  {
    hide IsMultiple, Orientation;
    ResolvedMeans(g);
    LatticeOrientation(a, b, p, g);
    ToleranceExact(Orientation(a, b, p), g * g);
    MultipleDifference(p.x, Min(a.x, b.x), g);
    MultipleDifference(p.x, Max(a.x, b.x), g);
    MultipleDifference(p.y, Min(a.y, b.y), g);
    MultipleDifference(p.y, Max(a.y, b.y), g);
    ToleranceExact(p.x - Min(a.x, b.x), g);
    ToleranceExact(p.x - Max(a.x, b.x), g);
    ToleranceExact(p.y - Min(a.y, b.y), g);
    ToleranceExact(p.y - Max(a.y, b.y), g);
  }

  // ---------- A segment is its collinear points inside its bounding box ----------

  lemma AlongStaysBetween(a: real, b: real, t: real)
    requires 0.0 <= t <= 1.0
    ensures Between(a + t * (b - a), a, b)
  {
    ScaleSpan(t, b - a, t * (b - a));
  }

  lemma AlongIsCollinear(a: Point, b: Point, t: real)
    ensures Orientation(a, b, Along(a, b, t)) == 0.0
  {
    var u, v := b.x - a.x, b.y - a.y;
    assert u * (t * v) == v * (t * u);
  }

  lemma LiesIsExact(a: Point, b: Point, p: Point)
    ensures Lies(p, a, b) <==> OnSegmentExact(a, b, p)
  {
    if Lies(p, a, b) {
      LiesOnSegment(a, b, p);
    }
    if OnSegmentExact(a, b, p) {
      CollinearPointLies(a, b, p);
    }
  }

  lemma LiesOnSegment(a: Point, b: Point, p: Point)
    requires Lies(p, a, b)
    ensures OnSegmentExact(a, b, p)
  {
    var t: real :| 0.0 <= t <= 1.0 && p == Along(a, b, t);
    AlongStaysBetween(a.x, b.x, t);
    AlongStaysBetween(a.y, b.y, t);
    AlongIsCollinear(a, b, t);
  }

  lemma CollinearPointLies(a: Point, b: Point, p: Point)
    requires OnSegmentExact(a, b, p)
    ensures Lies(p, a, b)
  {
    var u, v := b.x - a.x, b.y - a.y;
    if u != 0.0 {
      var t := Fraction(p.x - a.x, u);
      SameSlope(u, v, p.x - a.x, p.y - a.y, t);
      assert p == Along(a, b, t);
    } else if v != 0.0 {
      var t := Fraction(p.y - a.y, v);
      assert p == Along(a, b, t);
    } else {
      assert p == Along(a, b, 0.0);
    }
  }

  /** An offset (w, h) along the direction (u, v), as far along in y as in x. */
  lemma SameSlope(u: real, v: real, w: real, h: real, t: real)
    requires u != 0.0 && u * h - v * w == 0.0 && t * u == w
    ensures h == t * v
  {
    assert u * (t * v) == v * (t * u) == v * w;
    Cancel(u, h, t * v);
  }

  /** A segment along an axis is taken to reach 1e-8 beyond either end. */
  lemma ReachBeyondEnds(a: real, b: real, y: real, v: real)
    ensures OnSegment(Point(a, y), Point(b, y), Point(v, y)) <==> Min(a, b) - 0.00000001 <= v <= Max(a, b) + 0.00000001
    ensures OnSegment(Point(y, a), Point(y, b), Point(y, v)) <==> Min(a, b) - 0.00000001 <= v <= Max(a, b) + 0.00000001
  {
    assert Orientation(Point(a, y), Point(b, y), Point(v, y)) == 0.0;
    assert Orientation(Point(y, a), Point(y, b), Point(y, v)) == 0.0;
  }

  // ---------- Two segments ----------

  predicate Opposite(u: real, v: real) {
    (u > 0.0 && v < 0.0) || (u < 0.0 && v > 0.0)
  }

  predicate SegmentsIntersectExact(a: Point, b: Point, c: Point, d: Point) {
    || (Opposite(Orientation(a, b, c), Orientation(a, b, d)) && Opposite(Orientation(c, d, a), Orientation(c, d, b)))
    || OnSegmentExact(a, b, c)
    || OnSegmentExact(a, b, d)
    || OnSegmentExact(c, d, a)
    || OnSegmentExact(c, d, b)
  }

  lemma SegmentsIntersectIsExact(a: Point, b: Point, c: Point, d: Point, g: real)
    requires Resolved(g) && OnLattice(a, g) && OnLattice(b, g) && OnLattice(c, g) && OnLattice(d, g)
    ensures SegmentsIntersect(a, b, c, d) <==> SegmentsIntersectExact(a, b, c, d)
  {
    hide IsMultiple, Orientation, OnSegment, OnSegmentExact, OnLattice;
    ResolvedMeans(g);
    LatticeOrientation(a, b, c, g);
    LatticeOrientation(a, b, d, g);
    LatticeOrientation(c, d, a, g);
    LatticeOrientation(c, d, b, g);
    ToleranceExact(Orientation(a, b, c), g * g);
    ToleranceExact(Orientation(a, b, d), g * g);
    ToleranceExact(Orientation(c, d, a), g * g);
    ToleranceExact(Orientation(c, d, b), g * g);
    OnSegmentIsExact(a, b, c, g);
    OnSegmentIsExact(a, b, d, g);
    OnSegmentIsExact(c, d, a, g);
    OnSegmentIsExact(c, d, b, g);
  }

  /** Orientation is affine along a segment. */
  lemma OrientationAlong(a: Point, b: Point, c: Point, d: Point, s: real)
    ensures Orientation(a, b, Along(c, d, s)) ==
            Orientation(a, b, c) + s * (Orientation(a, b, d) - Orientation(a, b, c))
  {
    var u, v := b.x - a.x, b.y - a.y;
    var e, f := d.x - c.x, d.y - c.y;
    assert u * (c.y + s * f - a.y) == u * (c.y - a.y) + s * (u * f);
    assert v * (c.x + s * e - a.x) == v * (c.x - a.x) + s * (v * e);
    assert Orientation(a, b, d) - Orientation(a, b, c) == u * f - v * e;
    assert s * (u * f - v * e) == s * (u * f) - s * (v * e);
  }

  /** Strictly straddling lines meet, at the point that divides each segment in the ratio of its orientations. */
  lemma ProperCrossing(a: Point, b: Point, c: Point, d: Point)
    requires Opposite(Orientation(a, b, c), Orientation(a, b, d))
    requires Opposite(Orientation(c, d, a), Orientation(c, d, b))
    ensures ShareAPoint(a, b, c, d)
  {
    hide Orientation;
    var abC, abD := Orientation(a, b, c), Orientation(a, b, d);
    var cdA, cdB := Orientation(c, d, a), Orientation(c, d, b);
    var u, v, e, f := b.x - a.x, b.y - a.y, d.x - c.x, d.y - c.y;
    var w, z := c.x - a.x, c.y - a.y;
    var D := OrientationsOfFour(a, b, c, d, u, v, e, f, w, z);
    var s := Fraction(-abC, D);
    var t := Fraction(-cdA, -D);
    CrossingIdentity(u, v, e, f, w, z);
    MeetAtRatio(D, s, t, -abC, cdA, w, u, e);
    MeetAtRatio(D, s, t, -abC, cdA, z, v, f);
    assert Along(a, b, t) == Along(c, d, s);
    assert Lies(Along(a, b, t), a, b) && Lies(Along(a, b, t), c, d);
  }

  /** The four orientations, in terms of the spans of the segments and the offset between their starts. */
  lemma OrientationsOfFour(a: Point, b: Point, c: Point, d: Point, u: real, v: real, e: real, f: real, w: real, z: real)
    returns (D: real)
    requires u == b.x - a.x && v == b.y - a.y && e == d.x - c.x && f == d.y - c.y && w == c.x - a.x && z == c.y - a.y
    ensures D == u * f - v * e
    ensures Orientation(a, b, c) == u * z - v * w && Orientation(a, b, d) == Orientation(a, b, c) + D
    ensures Orientation(c, d, a) == f * w - e * z && Orientation(c, d, b) == Orientation(c, d, a) - D
  {
    D := u * f - v * e;
    assert d.x - a.x == w + e && d.y - a.y == z + f;
    assert u * (z + f) == u * z + u * f && v * (w + e) == v * w + v * e;
    assert b.x - c.x == u - w && b.y - c.y == v - z;
    assert e * (v - z) == v * e - e * z && f * (u - w) == u * f - f * w;
    assert e * (a.y - c.y) == -(e * z) && f * (a.x - c.x) == -(f * w);
  }

  /** In one coordinate: an offset w between the starts that D turns into q * u - p * e. */
  lemma MeetAtRatio(D: real, s: real, t: real, p: real, q: real, w: real, u: real, e: real)
    requires D != 0.0 && s * D == p && t * -D == -q
    requires D * w == q * u - p * e
    ensures t * u == w + s * e
  {
    assert t * D == -(t * -D) == q;
    assert D * (t * u) == (t * D) * u;
    assert D * (s * e) == (s * D) * e;
    assert D * (w + s * e) == D * w + D * (s * e);
    Cancel(D, t * u, w + s * e);
  }

  lemma CrossingIdentity(u: real, v: real, e: real, f: real, w: real, z: real)
    ensures (u * f - v * e) * w == (f * w - e * z) * u - -(u * z - v * w) * e
    ensures (u * f - v * e) * z == (f * w - e * z) * v - -(u * z - v * w) * f
  {
  }

  /** A common point of two segments puts the ends of each on both sides of the other, or an end on the other. */
  lemma SharedPointIsFound(a: Point, b: Point, c: Point, d: Point, p: Point)
    requires Lies(p, a, b) && Lies(p, c, d)
    ensures SegmentsIntersectExact(a, b, c, d)
  {
    LiesIsExact(a, b, p);
    LiesIsExact(c, d, p);
    EndsStraddleOrTouch(a, b, c, d, p);
    EndsStraddleOrTouch(c, d, a, b, p);
    if Orientation(a, b, c) == Orientation(a, b, d) == 0.0 || Orientation(c, d, a) == Orientation(c, d, b) == 0.0 {
      CollinearOverlap(a, b, c, d, p);
    }
  }

  lemma EndsStraddleOrTouch(a: Point, b: Point, c: Point, d: Point, p: Point)
    requires Lies(p, a, b) && Lies(p, c, d)
    ensures || Opposite(Orientation(a, b, c), Orientation(a, b, d))
            || Orientation(a, b, c) == Orientation(a, b, d) == 0.0
            || OnSegmentExact(a, b, c)
            || OnSegmentExact(a, b, d)
  {
    LiesIsExact(a, b, p);
    var s: real :| 0.0 <= s <= 1.0 && p == Along(c, d, s);
    var f, g := Orientation(a, b, c), Orientation(a, b, d);
    OrientationAlong(a, b, c, d, s);
    if s == 0.0 {
      assert p == c;
    } else if s == 1.0 {
      assert p == d;
    } else {
      Balance(s, f, g);
    }
  }

  /** Segments on one line that overlap at p: an end of one lies on the other. */
  lemma CollinearOverlap(a: Point, b: Point, c: Point, d: Point, p: Point)
    requires OnSegmentExact(a, b, p) && OnSegmentExact(c, d, p)
    requires Orientation(a, b, c) == Orientation(a, b, d) == 0.0 || Orientation(c, d, a) == Orientation(c, d, b) == 0.0
    ensures OnSegmentExact(a, b, c) || OnSegmentExact(a, b, d) || OnSegmentExact(c, d, a) || OnSegmentExact(c, d, b)
  {
    if a == b {
      assert p == a;
    } else if c == d {
      assert p == c;
    } else if Orientation(a, b, c) == Orientation(a, b, d) == 0.0 {
      OverlapOnLine(a, b, c, d, p);
    } else {
      OverlapOnLine(c, d, a, b, p);
    }
  }

  lemma OverlapOnLine(a: Point, b: Point, c: Point, d: Point, p: Point)
    requires a != b && c != d
    requires OnSegmentExact(a, b, p) && OnSegmentExact(c, d, p)
    requires Orientation(a, b, c) == Orientation(a, b, d) == 0.0
    ensures OnSegmentExact(a, b, c) || OnSegmentExact(a, b, d) || OnSegmentExact(c, d, a) || OnSegmentExact(c, d, b)
  {
    if a.x != b.x {
      if Between(c.x, a.x, b.x) {
        HeightBetween(a, b, c);
      } else if Between(d.x, a.x, b.x) {
        HeightBetween(a, b, d);
      } else {
        assert Between(a.x, c.x, d.x) && c.x != d.x;
        ParallelBack(a, b, c, d);
        HeightBetween(c, d, a);
      }
    } else {
      OnVerticalLine(a, b, c);
      OnVerticalLine(a, b, d);
      if !Between(c.y, a.y, b.y) && !Between(d.y, a.y, b.y) {
        assert Between(a.y, c.y, d.y);
        ParallelBack(a, b, c, d);
      }
    }
  }

  lemma OnVerticalLine(a: Point, b: Point, c: Point)
    requires a != b && a.x == b.x && Orientation(a, b, c) == 0.0
    ensures c.x == a.x
  {
    var u, v, e, f := b.x - a.x, b.y - a.y, c.x - a.x, c.y - a.y;
    assert u * f - v * e == 0.0;
    assert u == 0.0 && v * e == 0.0;
    ZeroFactor(v, e);
  }

  lemma ParallelBack(a: Point, b: Point, c: Point, d: Point)
    requires a != b
    requires Orientation(a, b, c) == Orientation(a, b, d) == 0.0
    ensures Orientation(c, d, a) == Orientation(c, d, b) == 0.0
  {
    var m, n := b.x - a.x, b.y - a.y;
    var e, f := c.x - a.x, c.y - a.y;
    var g, h := d.x - a.x, d.y - a.y;
    assert m * f == n * e && m * h == n * g;
    // Orientation(c, d, a) is e * h - f * g, which m and n both annihilate.
    assert m * (e * h) == e * (m * h) == e * (n * g) && m * (f * g) == g * (m * f) == g * (n * e);
    assert n * (e * h) == h * (n * e) == h * (m * f) && n * (f * g) == f * (n * g) == f * (m * h);
    assert m * (e * h - f * g) == 0.0 && n * (e * h - f * g) == 0.0;
    if m != 0.0 {
      ZeroFactor(m, e * h - f * g);
    } else {
      ZeroFactor(n, e * h - f * g);
    }
    assert Orientation(c, d, a) == (g - e) * (-f) - (h - f) * (-e) == e * h - f * g;
    assert Orientation(c, d, b) == (g - e) * (n - f) - (h - f) * (m - e) ==
      (g * n - h * m) + (f * m - e * n) + (e * h - f * g);
  }

  /** On a line that is not vertical, being between in x is being between in y. */
  lemma HeightBetween(a: Point, b: Point, p: Point)
    requires a.x != b.x && Orientation(a, b, p) == 0.0 && Between(p.x, a.x, b.x)
    ensures OnSegmentExact(a, b, p)
  {
    var u, v := b.x - a.x, b.y - a.y;
    var t := Fraction(p.x - a.x, u);
    SameSlope(u, v, p.x - a.x, p.y - a.y, t);
    AlongStaysBetween(a.y, b.y, t);
  }

  /** Without tolerance the test is right for all real coordinates. */
  lemma ExactTestCorrect(a: Point, b: Point, c: Point, d: Point)
    ensures SegmentsIntersectExact(a, b, c, d) <==> ShareAPoint(a, b, c, d)
  {
    if ShareAPoint(a, b, c, d) {
      var p: Point :| Lies(p, a, b) && Lies(p, c, d);
      SharedPointIsFound(a, b, c, d, p);
    }
    if SegmentsIntersectExact(a, b, c, d) {
      LiesIsExact(a, b, c);
      LiesIsExact(a, b, d);
      LiesIsExact(c, d, a);
      LiesIsExact(c, d, b);
      EndsLie(a, b);
      EndsLie(c, d);
      if OnSegmentExact(a, b, c) || OnSegmentExact(a, b, d) || OnSegmentExact(c, d, a) || OnSegmentExact(c, d, b) {
      } else {
        ProperCrossing(a, b, c, d);
      }
    }
  }

  /** On a resolved lattice the test says exactly whether the two closed segments share a real point. */
  lemma SegmentsIntersectCorrect(a: Point, b: Point, c: Point, d: Point, g: real)
    requires Resolved(g) && OnLattice(a, g) && OnLattice(b, g) && OnLattice(c, g) && OnLattice(d, g)
    ensures SegmentsIntersect(a, b, c, d) <==> ShareAPoint(a, b, c, d)
  {
    SegmentsIntersectIsExact(a, b, c, d, g);
    ExactTestCorrect(a, b, c, d);
  }

  lemma EndsLie(a: Point, b: Point)
    ensures Lies(a, a, b) && Lies(b, a, b)
  {
    assert a == Along(a, b, 0.0);
    assert b == Along(a, b, 1.0);
  }

  // ---------- Where the tolerance errs ----------

  ghost predicate TestIsExactOn(g: real) {
    forall a: Point, b: Point, c: Point, d: Point ::
      OnLattice(a, g) && OnLattice(b, g) && OnLattice(c, g) && OnLattice(d, g) ==>
        (SegmentsIntersect(a, b, c, d) <==> ShareAPoint(a, b, c, d))
  }

  ghost predicate ContactIsRealOn(g: real) {
    forall a: Point, b: Point, c: Point, d: Point ::
      OnLattice(a, g) && OnLattice(b, g) && OnLattice(c, g) && OnLattice(d, g) ==>
        (SegmentsIntersect(a, b, c, d) ==> ShareAPoint(a, b, c, d))
  }

  lemma SmallMultiples(g: real)
    ensures IsMultiple(0.0, g) && IsMultiple(g, g) && IsMultiple(2.0 * g, g) && IsMultiple(3.0 * g, g)
  {
    assert Times(0, g) == 0.0 && Times(1, g) == g && Times(2, g) == 2.0 * g && Times(3, g) == 3.0 * g;
  }

  /** On a finer lattice the tolerance reports contact where there is none. */
  lemma FalseContact(g: real)
    requires 0.0 < g <= 0.0001
    ensures var a, b, c, d := Point(0.0, 0.0), Point(g, g), Point(g, 0.0), Point(2.0 * g, 0.0);
            OnSegment(a, b, c) && SegmentsIntersect(a, b, c, d) && !ShareAPoint(a, b, c, d)
  {
    ResolvedMeans(g);
    var a, b, c, d := Point(0.0, 0.0), Point(g, g), Point(g, 0.0), Point(2.0 * g, 0.0);
    assert Orientation(a, b, c) == -(g * g);
    assert OnSegment(a, b, c);
    if ShareAPoint(a, b, c, d) {
      var p: Point :| Lies(p, a, b) && Lies(p, c, d);
      OnDiagonal(g, p);
      LiesIsExact(c, d, p);
    }
  }

  lemma OnDiagonal(g: real, p: Point)
    requires g > 0.0 && Lies(p, Point(0.0, 0.0), Point(g, g))
    ensures p.x == p.y
  {
    LiesIsExact(Point(0.0, 0.0), Point(g, g), p);
    assert Orientation(Point(0.0, 0.0), Point(g, g), p) == g * (p.y - p.x);
    ZeroFactor(g, p.y - p.x);
  }

  /**
   * The test is exact on the multiples of a spacing if and only if the spacing is above 0.0001, and already that it
   * never reports contact where there is none depends on it.
   */
  lemma ExactIffResolved(g: real)
    requires g > 0.0
    ensures TestIsExactOn(g) <==> g > 0.0001
    ensures ContactIsRealOn(g) <==> g > 0.0001
  {
    hide SegmentsIntersect, ShareAPoint;
    if g > 0.0001 {
      forall a: Point, b: Point, c: Point, d: Point |
        OnLattice(a, g) && OnLattice(b, g) && OnLattice(c, g) && OnLattice(d, g)
        ensures SegmentsIntersect(a, b, c, d) <==> ShareAPoint(a, b, c, d)
      {
        SegmentsIntersectCorrect(a, b, c, d, g);
      }
    } else {
      FalseContact(g);
      SmallMultiples(g);
      assert OnLattice(Point(0.0, 0.0), g) && OnLattice(Point(g, g), g);
      assert OnLattice(Point(g, 0.0), g) && OnLattice(Point(2.0 * g, 0.0), g);
    }
  }

  /** On whole thousandths the test is right for all segments. */
  lemma ExactOnThousandths(a: Point, b: Point, c: Point, d: Point)
    requires OnLattice(a, 0.001) && OnLattice(b, 0.001) && OnLattice(c, 0.001) && OnLattice(d, 0.001)
    ensures SegmentsIntersect(a, b, c, d) <==> ShareAPoint(a, b, c, d)
  {
    SegmentsIntersectCorrect(a, b, c, d, 0.001);
  }
}
