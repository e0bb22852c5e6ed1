// Even-odd point location and the relation of a polygon to a rectangle
// (zone-polygon-intersection.ts, lines 93-151).
module PolygonRegion {
  import opened SegmentGeometry
  import opened PolygonAcceptance

  datatype PointState = InsidePolygon | OutsidePolygon | OnBoundary
  datatype Relation = Inside | Partial | Outside

  /** A native rectangle extends right of x and down from y. */
  datatype Rectangle = Rectangle(x: real, y: real, width: real, height: real)

  // ---------- Point location ----------

  function Pred(i: nat, n: nat): nat
    requires i < n
  {
    if i == 0 then n - 1 else i - 1
  }

  /** The vertex before vertex i, going round. */
  function Before(points: seq<Point>, i: nat): Point
    requires i < |points|
  {
    points[Pred(i, |points|)]
  }

  /** The ray from p to the right crosses the edge from a to b. */
  predicate Crosses(a: Point, b: Point, p: Point) {
    (a.y > p.y) != (b.y > p.y) && p.x < ((b.x - a.x) * (p.y - a.y)) / (b.y - a.y) + a.x
  }

  /** Parity of the crossings with the first k edges, edge i being the one into vertex i. */
  predicate OddCrossings(points: seq<Point>, p: Point, k: nat)
    requires k <= |points|
  {
    if k == 0 then false
    else OddCrossings(points, p, k - 1) != Crosses(Before(points, k - 1), points[k - 1], p)
  }

  lemma NoCrossings(points: seq<Point>, p: Point)
    ensures !OddCrossings(points, p, 0)
    ensures points != [] ==> points[|points| - 1] == Before(points, 0)
  {
  }

  lemma OneMoreCrossing(points: seq<Point>, p: Point, k: nat)
    requires k < |points|
    ensures OddCrossings(points, p, k + 1) == (OddCrossings(points, p, k) != Crosses(Before(points, k), points[k], p))
    ensures k + 1 < |points| ==> points[k] == Before(points, k + 1)
  {
    hide Crosses;
  }

  predicate EvenOdd(points: seq<Point>, p: Point) {
    OddCrossings(points, p, |points|)
  }

  ghost predicate TouchesEdge(points: seq<Point>, p: Point) {
    exists i: nat :: i < |points| && OnSegment(Before(points, i), points[i], p)
  }

  ghost function StateOf(points: seq<Point>, p: Point): PointState {
    if TouchesEdge(points, p) then OnBoundary
    else if EvenOdd(points, p) then InsidePolygon
    else OutsidePolygon
  }

  lemma StateFromParts(points: seq<Point>, p: Point)
    ensures StateOf(points, p) ==
            if exists i: nat :: i < |points| && OnSegment(Before(points, i), points[i], p) then OnBoundary
            else if OddCrossings(points, p, |points|) then InsidePolygon
            else OutsidePolygon
  {
    hide OnSegment, Crosses, OddCrossings, Before;
  }

  method PointInPolygon(p: Point, polygon: seq<Point>) returns (r: PointState)
    ensures r == StateOf(polygon, p)
  {
    hide *;
    NoCrossings(polygon, p);
    StateFromParts(polygon, p);
    var inside := false;
    var i, j := 0, |polygon| - 1;
    while i < |polygon|
      invariant 0 <= i <= |polygon|
      invariant i < |polygon| ==> 0 <= j < |polygon| && polygon[j] == Before(polygon, i)
      invariant inside == OddCrossings(polygon, p, i)
      invariant forall k: nat :: k < i ==> !OnSegment(Before(polygon, k), polygon[k], p)
    {
      var a, b := polygon[j], polygon[i];
      OneMoreCrossing(polygon, p, i);
      if OnSegment(a, b, p) {
        assert OnSegment(Before(polygon, i), polygon[i], p);
        return OnBoundary;
      }
      if Crosses(a, b, p) {
        inside := !inside;
      }
      j := i;
      i := i + 1;
    }
    return if inside then InsidePolygon else OutsidePolygon;
  }

  // ---------- Polygon and rectangle ----------

  function Corners(rectangle: Rectangle): (corners: seq<Point>)
    ensures |corners| == 4
  {
    var x0, x1 := rectangle.x, rectangle.x + rectangle.width;
    var y0, y1 := rectangle.y - rectangle.height, rectangle.y;
    [Point(x0, y0), Point(x1, y0), Point(x1, y1), Point(x0, y1)]
  }

  predicate InRectangle(p: Point, rectangle: Rectangle) {
    && rectangle.x <= p.x <= rectangle.x + rectangle.width
    && rectangle.y - rectangle.height <= p.y <= rectangle.y
  }

  ghost predicate MeetsSide(a: Point, b: Point, corners: seq<Point>)
    requires |corners| == 4
  {
    exists j: nat :: j < 4 && SegmentsIntersect(a, b, corners[j], Next(corners, j))
  }

  ghost predicate SideContact(polygon: seq<Point>, corners: seq<Point>)
    requires |corners| == 4
  {
    exists i: nat :: i < |polygon| && MeetsSide(polygon[i], Next(polygon, i), corners)
  }

  ghost predicate VertexInside(polygon: seq<Point>, rectangle: Rectangle) {
    exists i: nat :: i < |polygon| && InRectangle(polygon[i], rectangle)
  }

  ghost predicate Contact(polygon: seq<Point>, rectangle: Rectangle) {
    SideContact(polygon, Corners(rectangle)) || VertexInside(polygon, rectangle)
  }

  ghost predicate AllCorners(polygon: seq<Point>, rectangle: Rectangle, state: PointState) {
    forall corner :: corner in Corners(rectangle) ==> StateOf(polygon, corner) == state
  }

  ghost function RelationOf(polygon: seq<Point>, rectangle: Rectangle): Relation {
    if AllCorners(polygon, rectangle, InsidePolygon) && !Contact(polygon, rectangle) then Inside
    else if !AllCorners(polygon, rectangle, OutsidePolygon) || Contact(polygon, rectangle) then Partial
    else Outside
  }

  method PolygonRectangleRelation(polygon: seq<Point>, rectangle: Rectangle) returns (r: Relation)
    ensures r == RelationOf(polygon, rectangle)
  {
    hide SideContact, StateOf;
    var corners := Corners(rectangle);
    var cornerStates := CornerStates(polygon, corners);
    var boundaryContact := BoundaryContact(polygon, corners);
    var vertexInRectangle := exists k :: 0 <= k < |polygon| && InRectangle(polygon[k], rectangle);
    assert vertexInRectangle == VertexInside(polygon, rectangle);
    if (forall j :: 0 <= j < 4 ==> cornerStates[j] == InsidePolygon) && !boundaryContact && !vertexInRectangle {
      return Inside;
    }
    if (exists j :: 0 <= j < 4 && cornerStates[j] != OutsidePolygon) || boundaryContact || vertexInRectangle {
      return Partial;
    }
    return Outside;
  }

  method CornerStates(polygon: seq<Point>, corners: seq<Point>) returns (states: seq<PointState>)
    ensures |states| == |corners|
    ensures forall j :: 0 <= j < |corners| ==> states[j] == StateOf(polygon, corners[j])
  {
    states := [];
    for j := 0 to |corners|
      invariant |states| == j
      invariant forall k :: 0 <= k < j ==> states[k] == StateOf(polygon, corners[k])
    {
      var state := PointInPolygon(corners[j], polygon);
      states := states + [state];
    }
  }

  method BoundaryContact(polygon: seq<Point>, corners: seq<Point>) returns (contact: bool)
    requires |corners| == 4
    ensures contact <==> SideContact(polygon, corners)
  {
    hide MeetsSide;
    contact := false;
    var i := 0;
    while i < |polygon|
      invariant 0 <= i <= |polygon|
      invariant contact <==> exists k: nat :: k < i && MeetsSide(polygon[k], Next(polygon, k), corners)
    {
      SuccIsRemainder(i, |polygon|);
      var meets := EdgeContact(polygon[i], polygon[(i + 1) % |polygon|], corners);
      if meets {
        contact := true;
      }
      i := i + 1;
    }
  }

  method EdgeContact(a: Point, b: Point, corners: seq<Point>) returns (contact: bool)
    requires |corners| == 4
    ensures contact <==> MeetsSide(a, b, corners)
  {
    contact := false;
    var j := 0;
    while j < 4
      invariant 0 <= j <= 4
      invariant contact <==> exists m: nat :: m < j && SegmentsIntersect(a, b, corners[m], Next(corners, m))
    {
      SuccIsRemainder(j, 4);
      if SegmentsIntersect(a, b, corners[j], corners[(j + 1) % 4]) {
        contact := true;
      }
      j := j + 1;
    }
  }
}
