// What even-odd location and the rectangle relation mean: parity can change only across the boundary.
module PolygonParity {
  import opened RealArithmetic
  import opened SegmentGeometry
  import opened PolygonAcceptance
  import opened PolygonRegion

  // ---------- Crossing the ray, without division ----------

  /** An upward edge passes right of p if p is on its left, and a downward edge if p is on its right. */
  predicate CrossesExact(a: Point, b: Point, p: Point) {
    || (a.y <= p.y < b.y && Orientation(a, b, p) > 0.0)
    || (b.y <= p.y < a.y && Orientation(a, b, p) < 0.0)
  }

  lemma CrossesIsExact(a: Point, b: Point, p: Point)
    ensures Crosses(a, b, p) <==> CrossesExact(a, b, p)
  {
    if a.y != b.y {
      var u, v, h := b.x - a.x, b.y - a.y, p.y - a.y;
      var w := p.x - a.x;
      var q := (u * h) / v;
      QuotientTimes(u * h, v);
      assert p.x < q + a.x <==> w < q;
      assert Orientation(a, b, p) == u * h - v * w;
      SignOfDifference(q, v, u * h, w);
    }
  }

  lemma SignOfDifference(q: real, v: real, m: real, w: real)
    requires v != 0.0 && q * v == m
    ensures v > 0.0 ==> (w < q <==> m - v * w > 0.0)
    ensures v < 0.0 ==> (w < q <==> m - v * w < 0.0)
  {
    var d := q - w;
    if v > 0.0 {
      assert m - v * w == v * d;
      SameSign(v, d, m - v * w);
    } else {
      assert m - v * w == -v * -d;
      SameSign(-v, -d, m - v * w);
    }
  }

  lemma CrossesReversed(a: Point, b: Point, p: Point)
    ensures CrossesExact(a, b, p) <==> CrossesExact(b, a, p)
  {
    assert Orientation(b, a, p) == -Orientation(a, b, p);
  }

  // ---------- One edge, along a straight move ----------

  /** The edge from a to b has no point in the box [x0, x1] by [y0, y1]. */
  ghost predicate Avoids(a: Point, b: Point, x0: real, x1: real, y0: real, y1: real) {
    forall p :: Lies(p, a, b) ==> !(x0 <= p.x <= x1 && y0 <= p.y <= y1)
  }

  lemma AvoidsReversed(a: Point, b: Point, x0: real, x1: real, y0: real, y1: real)
    requires Avoids(a, b, x0, x1, y0, y1)
    ensures Avoids(b, a, x0, x1, y0, y1)
  {
    forall p | Lies(p, b, a) ensures !(x0 <= p.x <= x1 && y0 <= p.y <= y1) {
      LiesReversed(b, a, p);
    }
  }

  /** The point of an upward edge at height y, and on which side of it the point (x, y) is. */
  lemma AtHeight(a: Point, b: Point, x: real, y: real) returns (q: Point)
    requires a.y <= y < b.y || a.y < y <= b.y
    ensures Lies(q, a, b) && q.y == y
    ensures Orientation(a, b, Point(x, y)) > 0.0 <==> x < q.x
    ensures y == a.y ==> q == a
    ensures y == b.y ==> q == b
  {
    var u, v, h := b.x - a.x, b.y - a.y, y - a.y;
    var t := Fraction(h, v);
    q := Along(a, b, t);
    if y == a.y { ZeroFactor(v, t); }
    if y == b.y {
      assert h == v && v * 1.0 == v;
      Cancel(v, t, 1.0);
    }
    SideAtHeight(u, v, h, t, x - a.x, t * u - (x - a.x), Orientation(a, b, Point(x, y)));
  }

  lemma SideAtHeight(u: real, v: real, h: real, t: real, w: real, d: real, o: real)
    requires v > 0.0 && t * v == h && d == t * u - w && o == u * h - v * w
    ensures o > 0.0 <==> d > 0.0
  {
    assert u * h == u * (t * v) == v * (t * u);
    assert v * (t * u) - v * w == v * (t * u - w);
    SameSign(v, d, o);
  }

  /** Between two points of an edge on different sides of the vertical through x there is one on it. */
  lemma CrossesVertical(a: Point, b: Point, p: Point, q: Point, x: real)
    requires Lies(p, a, b) && Lies(q, a, b) && p.x <= x <= q.x
    ensures exists m :: Lies(m, a, b) && m.x == x && Between(m.y, p.y, q.y)
  {
    var m := CutAtX(p, q, x);
    SubSegment(a, b, p, q, m);
    LiesIsExact(p, q, m);
  }

  lemma CutAtX(p: Point, q: Point, x: real) returns (m: Point)
    requires p.x <= x <= q.x || q.x <= x <= p.x
    ensures Lies(m, p, q) && m.x == x
  {
    if p.x == q.x {
      m := p;
      EndsLie(p, q);
    } else {
      var u := q.x - p.x;
      var t := Fraction(x - p.x, u);
      m := Along(p, q, t);
    }
  }

  lemma CutAtY(p: Point, q: Point, y: real) returns (m: Point)
    requires p.y <= y <= q.y || q.y <= y <= p.y
    ensures Lies(m, p, q) && m.y == y
  {
    if p.y == q.y {
      m := p;
      EndsLie(p, q);
    } else {
      var v := q.y - p.y;
      var t := Fraction(y - p.y, v);
      m := Along(p, q, t);
    }
  }

  /** A segment between points of a segment is part of it. */
  lemma SubSegment(a: Point, b: Point, p: Point, q: Point, m: Point)
    requires Lies(p, a, b) && Lies(q, a, b) && Lies(m, p, q)
    ensures Lies(m, a, b)
  {
    LiesIsExact(a, b, p);
    LiesIsExact(a, b, q);
    LiesIsExact(p, q, m);
    var r: real :| 0.0 <= r <= 1.0 && m == Along(p, q, r);
    OrientationAlong(a, b, p, q, r);
    LiesIsExact(a, b, m);
  }

  /** A vertex that a ray swept from height y0 up to y1 at x would meet. */
  predicate Swept(v: Point, x: real, y0: real, y1: real) {
    y0 < v.y <= y1 && x < v.x
  }

  /** Points of an edge that avoids a vertical move, at heights of the move, are all on one side of it. */
  lemma SameSide(a: Point, b: Point, p: Point, q: Point, x: real, y0: real, y1: real)
    requires Avoids(a, b, x, x, y0, y1)
    requires Lies(p, a, b) && Lies(q, a, b)
    requires y0 <= p.y <= y1 && y0 <= q.y <= y1
    ensures x < p.x <==> x < q.x
  {
    if p.x <= x <= q.x {
      CrossesVertical(a, b, p, q, x);
    } else if q.x <= x <= p.x {
      CrossesVertical(a, b, q, p, x);
    }
  }

  /** The ends of an edge that a vertical move sweeps account for the change of its crossing. */
  lemma VerticalMove(a: Point, b: Point, x: real, y0: real, y1: real)
    requires y0 <= y1 && Avoids(a, b, x, x, y0, y1)
    ensures (Crosses(a, b, Point(x, y0)) != Crosses(a, b, Point(x, y1))) ==
            (Swept(a, x, y0, y1) != Swept(b, x, y0, y1))
  {
    CrossesIsExact(a, b, Point(x, y0));
    CrossesIsExact(a, b, Point(x, y1));
    if a.y <= b.y {
      UpwardMove(a, b, x, y0, y1);
    } else {
      AvoidsReversed(a, b, x, x, y0, y1);
      UpwardMove(b, a, x, y0, y1);
      CrossesReversed(a, b, Point(x, y0));
      CrossesReversed(a, b, Point(x, y1));
    }
  }

  lemma UpwardMove(a: Point, b: Point, x: real, y0: real, y1: real)
    requires y0 <= y1 && a.y <= b.y && Avoids(a, b, x, x, y0, y1)
    ensures (CrossesExact(a, b, Point(x, y0)) != CrossesExact(a, b, Point(x, y1))) ==
            (Swept(a, x, y0, y1) != Swept(b, x, y0, y1))
  {
    EndsLie(a, b);
    if b.y <= y0 || y1 < a.y {
    } else if a.y <= y0 {
      var p := AtHeight(a, b, x, y0);
      if b.y <= y1 {
        SameSide(a, b, p, b, x, y0, y1);
      } else {
        var q := AtHeight(a, b, x, y1);
        SameSide(a, b, p, q, x, y0, y1);
      }
    } else if b.y <= y1 {
      SameSide(a, b, a, b, x, y0, y1);
    } else {
      var q := AtHeight(a, b, x, y1);
      SameSide(a, b, a, q, x, y0, y1);
    }
  }

  lemma HorizontalMove(a: Point, b: Point, x0: real, x1: real, y: real)
    requires x0 <= x1 && Avoids(a, b, x0, x1, y, y)
    ensures Crosses(a, b, Point(x0, y)) == Crosses(a, b, Point(x1, y))
  {
    CrossesIsExact(a, b, Point(x0, y));
    CrossesIsExact(a, b, Point(x1, y));
    if a.y <= y < b.y {
      var p := AtHeight(a, b, x0, y);
      var q := AtHeight(a, b, x1, y);
      SameHeight(a, b, p, q);
    } else if b.y <= y < a.y {
      AvoidsReversed(a, b, x0, x1, y, y);
      CrossesReversed(a, b, Point(x0, y));
      CrossesReversed(a, b, Point(x1, y));
      var p := AtHeight(b, a, x0, y);
      var q := AtHeight(b, a, x1, y);
      SameHeight(b, a, p, q);
    }
  }

  lemma SameHeight(a: Point, b: Point, p: Point, q: Point)
    requires Lies(p, a, b) && Lies(q, a, b) && p.y == q.y && a.y != b.y
    ensures p == q
  {
    LiesIsExact(a, b, p);
    LiesIsExact(a, b, q);
    SameOffset(b.x - a.x, b.y - a.y, p.y - a.y, p.x - a.x, q.x - a.x);
  }

  lemma SameOffset(u: real, v: real, h: real, w: real, z: real)
    requires v != 0.0 && u * h - v * w == 0.0 && u * h - v * z == 0.0
    ensures w == z
  {
    Cancel(v, w, z);
  }

  // ---------- The whole boundary ----------

  ghost predicate OnBoundaryOf(p: Point, points: seq<Point>) {
    exists i: nat :: i < |points| && Lies(p, points[i], Next(points, i))
  }

  ghost predicate BoundaryAvoids(points: seq<Point>, x0: real, x1: real, y0: real, y1: real) {
    forall p :: OnBoundaryOf(p, points) ==> !(x0 <= p.x <= x1 && y0 <= p.y <= y1)
  }

  lemma EdgeAvoids(points: seq<Point>, i: nat, x0: real, x1: real, y0: real, y1: real)
    requires i < |points| && BoundaryAvoids(points, x0, x1, y0, y1)
    ensures Avoids(Before(points, i), points[i], x0, x1, y0, y1)
  {
    var k := Pred(i, |points|);
    assert Next(points, k) == points[i];
    forall p | Lies(p, Before(points, i), points[i]) ensures !(x0 <= p.x <= x1 && y0 <= p.y <= y1) {
      assert OnBoundaryOf(p, points);
    }
  }

  /** Every swept vertex ends one edge and starts the next, so the changes cancel round the polygon. */
  lemma {:induction false} SweptEndsTelescope(points: seq<Point>, x: real, y0: real, y1: real, k: nat)
    requires 1 <= k <= |points| && y0 <= y1 && BoundaryAvoids(points, x, x, y0, y1)
    ensures (OddCrossings(points, Point(x, y0), k) != OddCrossings(points, Point(x, y1), k)) ==
            (Swept(points[|points| - 1], x, y0, y1) != Swept(points[k - 1], x, y0, y1))
  {
    hide Crosses, Swept, Avoids, BoundaryAvoids;
    var p, q := Point(x, y0), Point(x, y1);
    EdgeAvoids(points, k - 1, x, x, y0, y1);
    VerticalMove(Before(points, k - 1), points[k - 1], x, y0, y1);
    if k == 1 {
      assert !OddCrossings(points, p, 0) && !OddCrossings(points, q, 0);
    } else {
      SweptEndsTelescope(points, x, y0, y1, k - 1);
    }
  }

  lemma {:induction false} HorizontalParity(points: seq<Point>, x0: real, x1: real, y: real, k: nat)
    requires k <= |points| && x0 <= x1 && BoundaryAvoids(points, x0, x1, y, y)
    ensures OddCrossings(points, Point(x0, y), k) == OddCrossings(points, Point(x1, y), k)
  {
    hide Crosses, Avoids, BoundaryAvoids;
    if k > 0 {
      EdgeAvoids(points, k - 1, x0, x1, y, y);
      HorizontalMove(Before(points, k - 1), points[k - 1], x0, x1, y);
      HorizontalParity(points, x0, x1, y, k - 1);
    }
  }

  /** The box spanned by two points. */
  ghost predicate BoxAvoided(points: seq<Point>, p: Point, q: Point) {
    BoundaryAvoids(points, Min(p.x, q.x), Max(p.x, q.x), Min(p.y, q.y), Max(p.y, q.y))
  }

  /** A move along an axis that does not touch the boundary keeps the parity. */
  lemma AxisMove(points: seq<Point>, p: Point, q: Point)
    requires p.x == q.x || p.y == q.y
    requires BoxAvoided(points, p, q)
    ensures EvenOdd(points, p) == EvenOdd(points, q)
  {
    hide Crosses, Swept, BoundaryAvoids;
    if p.y == q.y {
      HorizontalParity(points, Min(p.x, q.x), Max(p.x, q.x), p.y, |points|);
    } else if points != [] {
      SweptEndsTelescope(points, p.x, Min(p.y, q.y), Max(p.y, q.y), |points|);
    }
  }

  // ---------- Moves in any direction ----------

  /** Sliding every height by its own offset leaves rays to the right, and what they cross, as they were. */
  function Sheared(p: Point, k: real): Point {
    Point(p.x - k * p.y, p.y)
  }

  function AllSheared(points: seq<Point>, k: real): (sheared: seq<Point>)
    ensures |sheared| == |points| && forall i :: 0 <= i < |points| ==> sheared[i] == Sheared(points[i], k)
  {
    seq(|points|, i requires 0 <= i < |points| => Sheared(points[i], k))
  }

  lemma ShearKeepsOrientation(a: Point, b: Point, p: Point, k: real)
    ensures Orientation(Sheared(a, k), Sheared(b, k), Sheared(p, k)) == Orientation(a, b, p)
  {
    ShearCancels(b.x - a.x, b.y - a.y, p.x - a.x, p.y - a.y, k);
    SpanSheared(a, b, k);
    SpanSheared(a, p, k);
  }

  lemma SpanSheared(a: Point, b: Point, k: real)
    ensures Sheared(b, k).x - Sheared(a, k).x == b.x - a.x - k * (b.y - a.y)
  {
  }

  lemma ShearCancels(u: real, v: real, w: real, h: real, k: real)
    ensures (u - k * v) * h - v * (w - k * h) == u * h - v * w
  {
    assert (u - k * v) * h == u * h - k * v * h && v * (w - k * h) == v * w - v * k * h;
  }

  lemma {:induction false} ShearKeepsCrossings(points: seq<Point>, p: Point, k: real, n: nat)
    requires n <= |points|
    ensures OddCrossings(AllSheared(points, k), Sheared(p, k), n) == OddCrossings(points, p, n)
  {
    hide Orientation, Crosses;
    if n > 0 {
      ShearKeepsCrossings(points, p, k, n - 1);
      var a, b := Before(points, n - 1), points[n - 1];
      ShearKeepsOrientation(a, b, p, k);
      CrossesIsExact(a, b, p);
      CrossesIsExact(Sheared(a, k), Sheared(b, k), Sheared(p, k));
    }
  }

  lemma ShearedAlong(a: Point, b: Point, t: real, k: real)
    ensures Along(Sheared(a, k), Sheared(b, k), t) == Sheared(Along(a, b, t), k)
  {
    var u, v, w := b.x - a.x, b.y - a.y, Sheared(b, k).x - Sheared(a, k).x;
    SpanSheared(a, b, k);
    ShearedStep(u, v, w, k, k * v, t, t * u, t * v, a.y);
  }

  /** A part t of the sheared span w is that part of the span, sheared. */
  lemma ShearedStep(u: real, v: real, w: real, k: real, kv: real, t: real, tu: real, tv: real, y: real)
    requires kv == k * v && w == u - kv && tu == t * u && tv == t * v
    ensures t * w - k * y == tu - k * (y + tv)
  {
    assert t * w == tu - t * kv;
    assert t * kv == t * (k * v) == k * (t * v) == k * tv;
    assert k * (y + tv) == k * y + k * tv;
  }

  /** The boundary has no point on the segment from p to q. */
  ghost predicate SegmentAvoided(points: seq<Point>, p: Point, q: Point) {
    forall m :: OnBoundaryOf(m, points) ==> !Lies(m, p, q)
  }

  /** With the shear that makes a move vertical, its box has no boundary point either. */
  lemma ShearedBoxAvoided(points: seq<Point>, p: Point, q: Point, k: real)
    requires SegmentAvoided(points, p, q) && p.y != q.y && k * (q.y - p.y) == q.x - p.x
    ensures Sheared(p, k).x == Sheared(q, k).x
    ensures BoxAvoided(AllSheared(points, k), Sheared(p, k), Sheared(q, k))
  {
    hide Lies, Orientation;
    SpanSheared(p, q, k);
    var sheared, a, b := AllSheared(points, k), Sheared(p, k), Sheared(q, k);
    forall m | OnBoundaryOf(m, sheared)
      ensures !(Min(a.x, b.x) <= m.x <= Max(a.x, b.x) && Min(a.y, b.y) <= m.y <= Max(a.y, b.y))
    {
      if m.x == a.x && Between(m.y, a.y, b.y) {
        var on := BoundaryBeforeShear(points, m, k);
        OnVerticalBeforeShear(p, q, on, k);
      }
    }
  }

  lemma BoundaryBeforeShear(points: seq<Point>, m: Point, k: real) returns (on: Point)
    requires OnBoundaryOf(m, AllSheared(points, k))
    ensures OnBoundaryOf(on, points) && Sheared(on, k) == m
  {
    var sheared := AllSheared(points, k);
    var i: nat :| i < |points| && Lies(m, sheared[i], Next(sheared, i));
    var t: real :| 0.0 <= t <= 1.0 && m == Along(sheared[i], Next(sheared, i), t);
    on := Along(points[i], Next(points, i), t);
    ShearedAlong(points[i], Next(points, i), t, k);
    assert Lies(on, points[i], Next(points, i));
  }

  /** What the shear puts between the ends of the vertical move was on the segment. */
  lemma OnVerticalBeforeShear(p: Point, q: Point, on: Point, k: real)
    requires p.y != q.y && k * (q.y - p.y) == q.x - p.x
    requires Sheared(on, k).x == Sheared(p, k).x && Between(on.y, p.y, q.y)
    ensures Lies(on, p, q)
  {
    var v, h := q.y - p.y, on.y - p.y;
    SpanSheared(p, on, k);
    var t := Fraction(h, v);
    assert t * (k * v) == k * (t * v);
    assert on == Along(p, q, t);
  }

  /** A straight move in any direction that does not touch the boundary keeps the parity. */
  lemma StraightMove(points: seq<Point>, p: Point, q: Point)
    requires SegmentAvoided(points, p, q)
    ensures EvenOdd(points, p) == EvenOdd(points, q)
  {
    hide OddCrossings, BoundaryAvoids, Lies;
    if p.y == q.y {
      LevelBoxAvoided(points, p, q);
      AxisMove(points, p, q);
    } else {
      var v := q.y - p.y;
      var k := (q.x - p.x) / v;
      QuotientTimes(q.x - p.x, v);
      ShearedBoxAvoided(points, p, q, k);
      AxisMove(AllSheared(points, k), Sheared(p, k), Sheared(q, k));
      ShearKeepsCrossings(points, p, k, |points|);
      ShearKeepsCrossings(points, q, k, |points|);
    }
  }

  lemma LevelBoxAvoided(points: seq<Point>, p: Point, q: Point)
    requires SegmentAvoided(points, p, q) && p.y == q.y
    ensures BoxAvoided(points, p, q)
  {
    hide Lies;
    forall m | OnBoundaryOf(m, points)
      ensures !(Min(p.x, q.x) <= m.x <= Max(p.x, q.x) && Min(p.y, q.y) <= m.y <= Max(p.y, q.y))
    {
      if m.y == p.y && Between(m.x, p.x, q.x) {
        OnLevel(p, q, m);
      }
    }
  }

  lemma OnLevel(p: Point, q: Point, m: Point)
    requires p.y == q.y == m.y && Between(m.x, p.x, q.x)
    ensures Lies(m, p, q)
  {
    hide Orientation;
    var cut := CutAtX(p, q, m.x);
    LiesIsExact(p, q, cut);
    assert cut == m;
  }
}
