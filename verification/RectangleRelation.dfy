// The verdict of polygonRectangleRelation, in terms of real points of the rectangle and of the boundary.
module RectangleRelation {
  import opened SegmentGeometry
  import opened PolygonAcceptance
  import opened PolygonRegion
  import opened PolygonParity

  /** Some real point of the boundary is in the closed rectangle. */
  ghost predicate BoundaryInRectangle(polygon: seq<Point>, rectangle: Rectangle) {
    exists p :: OnBoundaryOf(p, polygon) && InRectangle(p, rectangle)
  }

  /** A rectangle with corners on the lattice that is not turned inside out. */
  ghost predicate LatticeRectangle(rectangle: Rectangle, g: real) {
    && rectangle.width >= 0.0
    && rectangle.height >= 0.0
    && AllOnLattice(Corners(rectangle), g)
  }

  ghost predicate OnSide(p: Point, rectangle: Rectangle) {
    exists j: nat :: j < 4 && Lies(p, Corners(rectangle)[j], Next(Corners(rectangle), j))
  }

  lemma SideIsInRectangle(p: Point, rectangle: Rectangle)
    requires rectangle.width >= 0.0 && rectangle.height >= 0.0 && OnSide(p, rectangle)
    ensures InRectangle(p, rectangle)
  {
    var corners := Corners(rectangle);
    var j: nat :| j < 4 && Lies(p, corners[j], Next(corners, j));
    LiesIsExact(corners[j], Next(corners, j), p);
  }

  /** A point of the rectangle with the coordinate of a side is on that side. */
  lemma RimIsSide(p: Point, rectangle: Rectangle)
    requires InRectangle(p, rectangle)
    requires || p.x == rectangle.x || p.x == rectangle.x + rectangle.width
             || p.y == rectangle.y || p.y == rectangle.y - rectangle.height
    ensures OnSide(p, rectangle)
  {
    var corners := Corners(rectangle);
    var j: nat := if p.y == rectangle.y - rectangle.height then 0
      else if p.x == rectangle.x + rectangle.width then 1
      else if p.y == rectangle.y then 2
      else 3;
    LiesIsExact(corners[j], Next(corners, j), p);
    assert Lies(p, corners[j], Next(corners, j));
  }

  /** A segment from inside the rectangle to outside passes a side. */
  lemma LeavesThroughSide(p: Point, a: Point, rectangle: Rectangle) returns (q: Point)
    requires InRectangle(p, rectangle) && !InRectangle(a, rectangle)
    ensures Lies(q, p, a) && OnSide(q, rectangle)
  {
    var x0, x1 := rectangle.x, rectangle.x + rectangle.width;
    var y0, y1 := rectangle.y - rectangle.height, rectangle.y;
    EndsLie(p, a);
    var m := a;
    if a.x < x0 {
      m := CutAtX(p, a, x0);
    } else if a.x > x1 {
      m := CutAtX(p, a, x1);
    }
    q := m;
    if m.y < y0 {
      q := CutAtY(p, m, y0);
    } else if m.y > y1 {
      q := CutAtY(p, m, y1);
    }
    EndsLie(p, m);
    LiesIsExact(p, m, q);
    SubSegment(p, a, p, m, q);
    RimIsSide(q, rectangle);
  }

  lemma ContactIsExact(polygon: seq<Point>, rectangle: Rectangle, g: real)
    requires Resolved(g) && AllOnLattice(polygon, g) && LatticeRectangle(rectangle, g)
    ensures Contact(polygon, rectangle) <==> BoundaryInRectangle(polygon, rectangle)
  {
    if Contact(polygon, rectangle) {
      ContactIsReal(polygon, rectangle, g);
    }
    if BoundaryInRectangle(polygon, rectangle) {
      ContactIsFound(polygon, rectangle, g);
    }
  }

  lemma ContactIsReal(polygon: seq<Point>, rectangle: Rectangle, g: real)
    requires Resolved(g) && AllOnLattice(polygon, g) && LatticeRectangle(rectangle, g) && Contact(polygon, rectangle)
    ensures BoundaryInRectangle(polygon, rectangle)
  {
    hide SegmentsIntersect;
    var corners := Corners(rectangle);
    if VertexInside(polygon, rectangle) {
      var i: nat :| i < |polygon| && InRectangle(polygon[i], rectangle);
      EndsLie(polygon[i], Next(polygon, i));
      assert OnBoundaryOf(polygon[i], polygon);
    } else {
      var i: nat :| i < |polygon| && MeetsSide(polygon[i], Next(polygon, i), corners);
      var a, b := polygon[i], Next(polygon, i);
      var j: nat :| j < 4 && SegmentsIntersect(a, b, corners[j], Next(corners, j));
      SegmentsIntersectCorrect(a, b, corners[j], Next(corners, j), g);
      var p: Point :| Lies(p, a, b) && Lies(p, corners[j], Next(corners, j));
      SideIsInRectangle(p, rectangle);
      assert OnBoundaryOf(p, polygon);
    }
  }

  lemma ContactIsFound(polygon: seq<Point>, rectangle: Rectangle, g: real)
    requires Resolved(g) && AllOnLattice(polygon, g) && LatticeRectangle(rectangle, g)
    requires BoundaryInRectangle(polygon, rectangle)
    ensures Contact(polygon, rectangle)
  {
    hide SegmentsIntersect;
    var corners := Corners(rectangle);
    var p: Point :| OnBoundaryOf(p, polygon) && InRectangle(p, rectangle);
    var i: nat :| i < |polygon| && Lies(p, polygon[i], Next(polygon, i));
    var a, b := polygon[i], Next(polygon, i);
    if !InRectangle(a, rectangle) {
      var q := LeavesThroughSide(p, a, rectangle);
      EndsLie(a, b);
      SubSegment(a, b, p, a, q);
      var j: nat :| j < 4 && Lies(q, corners[j], Next(corners, j));
      SegmentsIntersectCorrect(a, b, corners[j], Next(corners, j), g);
      assert MeetsSide(a, b, corners);
    }
  }

  lemma StateIsExact(polygon: seq<Point>, p: Point, g: real)
    requires Resolved(g) && AllOnLattice(polygon, g) && OnLattice(p, g)
    ensures StateOf(polygon, p) == OnBoundary <==> OnBoundaryOf(p, polygon)
  {
    hide OnSegment, EvenOdd, Lies;
    if TouchesEdge(polygon, p) {
      var i: nat :| i < |polygon| && OnSegment(Before(polygon, i), polygon[i], p);
      EdgeTouchIsExact(polygon, Pred(i, |polygon|), i, p, g);
    }
    if OnBoundaryOf(p, polygon) {
      var i: nat :| i < |polygon| && Lies(p, polygon[i], Next(polygon, i));
      EdgeTouchIsExact(polygon, i, Succ(i, |polygon|), p, g);
    }
  }

  lemma EdgeTouchIsExact(polygon: seq<Point>, i: nat, k: nat, p: Point, g: real)
    requires Resolved(g) && AllOnLattice(polygon, g) && OnLattice(p, g)
    requires i < |polygon| && k < |polygon| && k == Succ(i, |polygon|)
    ensures OnSegment(Before(polygon, k), polygon[k], p) <==> Lies(p, polygon[i], Next(polygon, i))
  {
    hide OnSegment, Lies;
    OnSegmentIsExact(polygon[i], polygon[k], p, g);
    LiesIsExact(polygon[i], polygon[k], p);
  }

  /** Without contact, all points of the rectangle have one parity. */
  lemma ParityIsConstant(polygon: seq<Point>, rectangle: Rectangle, p: Point, q: Point)
    requires !BoundaryInRectangle(polygon, rectangle)
    requires InRectangle(p, rectangle) && InRectangle(q, rectangle)
    ensures EvenOdd(polygon, p) == EvenOdd(polygon, q)
  {
    var m := Point(q.x, p.y);
    assert BoxAvoided(polygon, p, m) && BoxAvoided(polygon, m, q);
    AxisMove(polygon, p, m);
    AxisMove(polygon, m, q);
  }

  ghost predicate UniformParity(polygon: seq<Point>, rectangle: Rectangle, odd: bool) {
    forall p :: InRectangle(p, rectangle) ==> EvenOdd(polygon, p) == odd
  }

  /** On a resolved lattice: 'partial' is contact, and otherwise every point of the rectangle is on the stated side. */
  lemma RelationCorrect(polygon: seq<Point>, rectangle: Rectangle, g: real)
    requires Resolved(g) && AllOnLattice(polygon, g) && LatticeRectangle(rectangle, g)
    ensures var relation := RelationOf(polygon, rectangle);
            && (relation == Partial <==> BoundaryInRectangle(polygon, rectangle))
            && (relation == Inside <==>
                  !BoundaryInRectangle(polygon, rectangle) && UniformParity(polygon, rectangle, true))
            && (relation == Outside <==>
                  !BoundaryInRectangle(polygon, rectangle) && UniformParity(polygon, rectangle, false))
  {
    hide Contact, BoundaryInRectangle, EvenOdd, OnBoundaryOf, TouchesEdge;
    ContactIsExact(polygon, rectangle, g);
    var corners := Corners(rectangle);
    var first := corners[0];
    assert first in corners && InRectangle(first, rectangle);
    if !BoundaryInRectangle(polygon, rectangle) {
      forall p | InRectangle(p, rectangle) ensures EvenOdd(polygon, p) == EvenOdd(polygon, first) {
        ParityIsConstant(polygon, rectangle, first, p);
      }
      forall corner | corner in corners
        ensures StateOf(polygon, corner) == if EvenOdd(polygon, first) then InsidePolygon else OutsidePolygon
      {
        StateIsExact(polygon, corner, g);
        NoContactNoBoundary(polygon, rectangle, corner);
      }
    }
  }

  lemma NoContactNoBoundary(polygon: seq<Point>, rectangle: Rectangle, p: Point)
    requires !BoundaryInRectangle(polygon, rectangle) && InRectangle(p, rectangle)
    ensures !OnBoundaryOf(p, polygon)
  {
  }

  // ---------- Inside means enclosed ----------

  /** p is strictly left or right of, above or below every vertex. */
  ghost predicate OutOfReach(points: seq<Point>, p: Point) {
    || (forall i :: 0 <= i < |points| ==> p.x < points[i].x)
    || (forall i :: 0 <= i < |points| ==> points[i].x < p.x)
    || (forall i :: 0 <= i < |points| ==> p.y < points[i].y)
    || (forall i :: 0 <= i < |points| ==> points[i].y < p.y)
  }

  lemma {:induction false} AboveIsEven(points: seq<Point>, p: Point, k: nat)
    requires k <= |points| && forall i :: 0 <= i < |points| ==> points[i].y < p.y
    ensures !OddCrossings(points, p, k)
  {
    if k > 0 {
      AboveIsEven(points, p, k - 1);
    }
  }

  lemma {:induction false} Highest(points: seq<Point>) returns (top: real)
    ensures forall i :: 0 <= i < |points| ==> points[i].y < top
  {
    if points == [] {
      top := 0.0;
    } else {
      var rest := Highest(points[1..]);
      top := Max(rest, points[0].y + 1.0);
      forall i | 0 <= i < |points| ensures points[i].y < top {
        if i > 0 {
          assert points[i] == points[1..][i - 1];
        }
      }
    }
  }

  /** The boundary stays within the box of the vertices. */
  lemma BoundaryWithinReach(points: seq<Point>, p: Point)
    requires OnBoundaryOf(p, points)
    ensures !OutOfReach(points, p)
  {
    var i: nat :| i < |points| && Lies(p, points[i], Next(points, i));
    LiesIsExact(points[i], Next(points, i), p);
  }

  /** A point that is out of reach can move up past the polygon, sideways first if it is below. */
  lemma OutOfReachIsEven(points: seq<Point>, p: Point)
    requires OutOfReach(points, p)
    ensures !EvenOdd(points, p)
  {
    if forall i :: 0 <= i < |points| ==> points[i].y < p.y {
      AboveIsEven(points, p, |points|);
    } else if forall i :: 0 <= i < |points| ==> p.y < points[i].y {
      var corner := Point(-LeftMargin(points), p.y);
      assert forall m: Point :: m.y == p.y ==> OutOfReach(points, m);
      AvoidedOutOfReach(points, p, corner);
      AxisMove(points, p, corner);
      assert forall i :: 0 <= i < |points| ==> corner.x < points[i].x;
      AsideIsEven(points, corner);
    } else {
      AsideIsEven(points, p);
    }
  }

  /** A number whose negative is left of every vertex. */
  ghost function LeftMargin(points: seq<Point>): (r: real)
    ensures forall i :: 0 <= i < |points| ==> -r < points[i].x
  {
    if points == [] then 0.0
    else
      var rest := LeftMargin(points[1..]);
      assert forall i :: 1 <= i < |points| ==> points[i] == points[1..][i - 1];
      Max(rest, 1.0 - points[0].x)
  }

  lemma AsideIsEven(points: seq<Point>, p: Point)
    requires || (forall i :: 0 <= i < |points| ==> p.x < points[i].x)
             || (forall i :: 0 <= i < |points| ==> points[i].x < p.x)
    ensures !EvenOdd(points, p)
  {
    var top := Highest(points);
    var up := Point(p.x, top);
    AvoidedOutOfReach(points, p, up);
    AxisMove(points, p, up);
    AboveIsEven(points, up, |points|);
  }

  lemma AvoidedOutOfReach(points: seq<Point>, p: Point, q: Point)
    requires || (p.x == q.x && ((forall i :: 0 <= i < |points| ==> p.x < points[i].x) || forall i ::
      0 <= i < |points| ==> points[i].x < p.x))
             || (p.y == q.y && forall i :: 0 <= i < |points| ==> p.y < points[i].y)
    ensures BoxAvoided(points, p, q)
  {
    forall m | OnBoundaryOf(m, points)
      ensures !(Min(p.x, q.x) <= m.x <= Max(p.x, q.x) && Min(p.y, q.y) <= m.y <= Max(p.y, q.y))
    {
      BoundaryWithinReach(points, m);
    }
  }

  /** On whole thousandths the verdict is right for all polygons and rectangles. */
  lemma RelationOnThousandths(polygon: seq<Point>, rectangle: Rectangle)
    requires AllOnLattice(polygon, 0.001) && LatticeRectangle(rectangle, 0.001)
    ensures RelationOf(polygon, rectangle) == Partial <==> BoundaryInRectangle(polygon, rectangle)
    ensures RelationOf(polygon, rectangle) == Inside <==>
      !BoundaryInRectangle(polygon, rectangle) && forall p :: InRectangle(p, rectangle) ==> EvenOdd(polygon, p)
    ensures RelationOf(polygon, rectangle) == Outside <==>
      !BoundaryInRectangle(polygon, rectangle) && forall p :: InRectangle(p, rectangle) ==> !EvenOdd(polygon, p)
  {
    hide RelationOf, BoundaryInRectangle, EvenOdd;
    RelationCorrect(polygon, rectangle, 0.001);
  }

  /** A path of straight legs, none of which meets the boundary. */
  ghost predicate FreePath(points: seq<Point>, path: seq<Point>) {
    forall k {:trigger path[k]} :: 0 <= k < |path| - 1 ==> SegmentAvoided(points, path[k], path[k + 1])
  }

  lemma {:induction false} FreePathKeepsParity(points: seq<Point>, path: seq<Point>)
    requires path != [] && FreePath(points, path)
    ensures EvenOdd(points, path[0]) == EvenOdd(points, path[|path| - 1])
  {
    hide EvenOdd, SegmentAvoided;
    if |path| > 1 {
      StraightMove(points, path[0], path[1]);
      assert FreePath(points, path[1..]);
      FreePathKeepsParity(points, path[1..]);
    }
  }

  /** A rectangle judged inside is walled in: every polyline that leads out of reach meets the boundary. */
  lemma InsideIsEnclosed(polygon: seq<Point>, rectangle: Rectangle, path: seq<Point>, g: real)
    requires Resolved(g) && AllOnLattice(polygon, g) && LatticeRectangle(rectangle, g)
    requires RelationOf(polygon, rectangle) == Inside
    requires path != [] && InRectangle(path[0], rectangle) && OutOfReach(polygon, path[|path| - 1])
    ensures !FreePath(polygon, path)
  {
    RelationCorrect(polygon, rectangle, g);
    OutOfReachIsEven(polygon, path[|path| - 1]);
    if FreePath(polygon, path) {
      FreePathKeepsParity(polygon, path);
    }
  }
}
