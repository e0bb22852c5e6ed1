// Which native outline records are read as a polygon, and which polygons are accepted
// (zone-polygon-intersection.ts, lines 42-91).
module PolygonAcceptance {
  import opened Options
  import opened RealArithmetic
  import opened SegmentGeometry

  const MAX_VERTICES := 512

  /** An item of a native outline record: a finite number, a string, or anything else. */
  datatype Token = Num(number: real) | Text(text: string) | Other

  // ---------- Reading a closed polyline ----------

  /** The record of a polygon: first vertex, the letter L, the other vertices, the first vertex again. */
  function ClosedRecord(points: seq<Point>): (source: seq<Token>)
    requires points != []
    ensures |source| == 3 + 2 * |points|
  {
    [Num(points[0].x), Num(points[0].y), Text("L")] + Coordinates(points[1..] + [points[0]])
  }

  function Coordinates(points: seq<Point>): (tokens: seq<Token>)
    ensures |tokens| == 2 * |points|
  {
    seq(2 * |points|, k requires 0 <= k < 2 * |points| =>
      if k % 2 == 0 then Num(points[k / 2].x) else Num(points[k / 2].y))
  }

  lemma CoordinatesInjective(p: seq<Point>, q: seq<Point>)
    requires Coordinates(p) == Coordinates(q)
    ensures p == q
  {
    assert |p| == |q|;
    forall k | 0 <= k < |p| ensures p[k] == q[k] {
      assert Coordinates(p)[2 * k] == Coordinates(q)[2 * k];
      assert Coordinates(p)[2 * k + 1] == Coordinates(q)[2 * k + 1];
    }
  }

  /** The records that are read: closed polylines of 4 to 513 vertices. */
  ghost predicate Reads(source: Option<seq<Token>>, points: seq<Point>) {
    source.Some? && 4 <= |points| <= 513 && source.value == ClosedRecord(points)
  }

  /** The record without its letter. */
  function Numbers(items: seq<Token>): (values: seq<Token>)
    requires |items| >= 3
    ensures |values| == |items| - 1
  {
    [items[0], items[1]] + items[3..]
  }

  /** The letter in its place, and the numbers around it the vertices in order and the first one again. */
  ghost predicate HasShape(items: seq<Token>, points: seq<Point>) {
    && points != []
    && |items| == 3 + 2 * |points|
    && items[2] == Text("L")
    && Numbers(items) == Coordinates(points + [points[0]])
  }

  lemma FirstCoordinates(points: seq<Point>)
    requires points != []
    ensures Coordinates(points) == [Num(points[0].x), Num(points[0].y)] + Coordinates(points[1..])
  {
  }

  lemma RecordHasShape(points: seq<Point>)
    requires points != []
    ensures HasShape(ClosedRecord(points), points)
  {
    hide Coordinates;
    var items := ClosedRecord(points);
    var closed := points + [points[0]];
    var rest := points[1..] + [points[0]];
    assert items[3..] == Coordinates(rest);
    assert closed[1..] == rest;
    FirstCoordinates(closed);
  }

  lemma ShapeIsRecord(items: seq<Token>, points: seq<Point>)
    requires HasShape(items, points)
    ensures items == ClosedRecord(points)
  {
    var values := Numbers(items);
    var closed := points + [points[0]];
    assert items[0] == values[0] == Num(points[0].x) && items[1] == values[1] == Num(points[0].y);
    assert closed[1..] == points[1..] + [points[0]];
    assert items[3..] == values[2..] == Coordinates(closed)[2..] == Coordinates(closed[1..]);
    assert items == [items[0], items[1], items[2]] + items[3..];
  }

  lemma ReadsIffShape(items: seq<Token>, points: seq<Point>)
    ensures Reads(Some(items), points) <==> HasShape(items, points) && 4 <= |points| <= 513
  {
    if points != [] {
      RecordHasShape(points);
      if HasShape(items, points) {
        ShapeIsRecord(items, points);
      }
    }
  }

  lemma ReadsOnlyShapes(items: seq<Token>)
    ensures forall q :: Reads(Some(items), q) <==> HasShape(items, q) && 4 <= |q| <= 513
  {
    forall q ensures Reads(Some(items), q) <==> HasShape(items, q) && 4 <= |q| <= 513 {
      ReadsIffShape(items, q);
    }
  }

  method PairUp(values: seq<Token>) returns (points: seq<Point>)
    requires |values| % 2 == 0 && forall k :: 0 <= k < |values| ==> values[k].Num?
    ensures Coordinates(points) == values
  {
    points := [];
    var index := 0;
    while index < |values|
      invariant 0 <= index <= |values| && index % 2 == 0
      invariant Coordinates(points) == values[..index]
    {
      points := points + [Point(values[index].number, values[index + 1].number)];
      index := index + 2;
    }
  }

  lemma ShapeIsNumeric(items: seq<Token>, points: seq<Point>, k: nat)
    requires HasShape(items, points) && k < |Numbers(items)|
    ensures Numbers(items)[k].Num?
  {
  }

  /** Reads exactly the closed polylines; a source that is no array is `None`. */
  method ParseClosedPoints(source: Option<seq<Token>>) returns (r: Option<seq<Point>>)
    ensures r.Some? ==> Reads(source, r.value)
    ensures r.None? ==> !exists points :: Reads(source, points)
  {
    if source.None? {
      return None;
    }
    r := ParseItems(source.value);
    ReadsOnlyShapes(source.value);
  }

  method ParseItems(items: seq<Token>) returns (r: Option<seq<Point>>)
    ensures r.Some? ==> HasShape(items, r.value) && 4 <= |r.value| <= 513
    ensures r.None? ==> forall q :: HasShape(items, q) ==> !(4 <= |q| <= 513)
  {
    if |items| < 11 || items[2] != Text("L") {
      return None;
    }
    if (|items| - 3) % 2 != 0 || |items| > 3 + 2 * (MAX_VERTICES + 1) {
      return None;
    }
    var values := Numbers(items);
    if exists k :: 0 <= k < |values| && !values[k].Num? {
      forall q ensures !HasShape(items, q) {
        var k: nat :| k < |values| && !values[k].Num?;
        if HasShape(items, q) {
          ShapeIsNumeric(items, q, k);
        }
      }
      return None;
    }
    var points := PairUp(values);
    OnlyReading(items, points);
    if |points| < 4 || points[0] != points[|points| - 1] {
      return None;
    }
    var open := points[..|points| - 1];
    assert points == open + [open[0]];
    return Some(open);
  }

  lemma OnlyReading(items: seq<Token>, points: seq<Point>)
    requires |items| >= 3 && Coordinates(points) == Numbers(items)
    ensures forall q :: HasShape(items, q) ==> points == q + [q[0]]
  {
    forall q | HasShape(items, q) ensures points == q + [q[0]] {
      CoordinatesInjective(points, q + [q[0]]);
    }
  }

  /** No record is that of two polygons. */
  lemma ReadingIsUnambiguous(source: Option<seq<Token>>, p: seq<Point>, q: seq<Point>)
    requires Reads(source, p) && Reads(source, q)
    ensures p == q
  {
    RecordHasShape(p);
    RecordHasShape(q);
    CoordinatesInjective(p + [p[0]], q + [q[0]]);
    assert p == (p + [p[0]])[..|p|] && q == (q + [q[0]])[..|q|];
  }

  // ---------- Accepting a polygon ----------

  /** The index after i, going round. */
  function Succ(i: nat, n: nat): nat {
    if i + 1 == n then 0 else i + 1
  }

  lemma SuccIsRemainder(i: nat, n: nat)
    requires i < n
    ensures (i + 1) % n == Succ(i, n)
  {
  }

  function Next(points: seq<Point>, i: nat): Point
    requires i < |points|
  {
    points[Succ(i, |points|)]
  }

  function Cross(a: Point, b: Point): real {
    a.x * b.y - b.x * a.y
  }

  /** The first k terms of the shoelace sum. */
  function Shoelace(points: seq<Point>, k: nat): real
    requires k <= |points|
  {
    if k == 0 then 0.0
    else Shoelace(points, k - 1) + Cross(points[k - 1], Next(points, k - 1))
  }

  ghost predicate NoZeroEdge(points: seq<Point>) {
    forall i :: 0 <= i < |points| ==> points[i] != Next(points, i)
  }

  method HasValidAreaAndEdges(points: seq<Point>) returns (r: bool)
    ensures r <==> NoZeroEdge(points) && Abs(Shoelace(points, |points|)) > EPSILON
  {
    var doubleArea := 0.0;
    var i := 0;
    while i < |points|
      invariant 0 <= i <= |points|
      invariant forall k :: 0 <= k < i ==> points[k] != Next(points, k)
      invariant doubleArea == Shoelace(points, i)
    {
      SuccIsRemainder(i, |points|);
      var a := points[i];
      var b := points[(i + 1) % |points|];
      if a == b {
        return false;
      }
      doubleArea := doubleArea + Cross(a, b);
      i := i + 1;
    }
    return Abs(doubleArea) > EPSILON;
  }

  predicate EdgesIntersect(points: seq<Point>, i: nat, j: nat)
    requires i < |points| && j < |points|
  {
    SegmentsIntersect(points[i], Next(points, i), points[j], Next(points, j))
  }

  /** The pairs of edges that the scan compares. */
  predicate Compared(n: nat, i: nat, j: nat) {
    i + 2 <= j < n && !(i == 0 && j == n - 1)
  }

  ghost predicate Crossing(points: seq<Point>) {
    exists i: nat, j: nat :: Compared(|points|, i, j) && EdgesIntersect(points, i, j)
  }

  method HasCrossingEdges(points: seq<Point>) returns (r: bool)
    ensures r <==> Crossing(points)
  {
    var n := |points|;
    var i := 0;
    while i < n
      invariant 0 <= i <= n
      invariant forall k: nat, j: nat :: k < i && Compared(n, k, j) ==> !EdgesIntersect(points, k, j)
    {
      SuccIsRemainder(i, n);
      var a := points[i];
      var b := points[(i + 1) % n];
      var j := i + 2;
      while j < n
        invariant i + 2 <= j
        invariant forall m: nat :: m < j && Compared(n, i, m) ==> !EdgesIntersect(points, i, m)
      {
        SuccIsRemainder(j, n);
        if i == 0 && j == n - 1 {
        } else if SegmentsIntersect(a, b, points[j], points[(j + 1) % n]) {
          assert Compared(n, i, j) && EdgesIntersect(points, i, j);
          return true;
        }
        j := j + 1;
      }
      i := i + 1;
    }
    return false;
  }

  ghost predicate Accepted(points: seq<Point>) {
    NoZeroEdge(points) && Abs(Shoelace(points, |points|)) > EPSILON && !Crossing(points)
  }

  method NativeClosedPolyline(source: Option<seq<Token>>) returns (r: Option<seq<Point>>)
    ensures r.Some? ==> Reads(source, r.value) && Accepted(r.value)
    ensures r.None? ==> !exists points :: Reads(source, points) && Accepted(points)
  {
    var points := ParseClosedPoints(source);
    if points.None? {
      return None;
    }
    forall q | Reads(source, q) ensures q == points.value {
      ReadingIsUnambiguous(source, q, points.value);
    }
    var valid := HasValidAreaAndEdges(points.value);
    if !valid {
      return None;
    }
    var crossing := HasCrossingEdges(points.value);
    if crossing {
      return None;
    }
    return points;
  }

  // ---------- Accepted polygons are the simple ones ----------

  predicate Adjacent(n: nat, i: nat, j: nat)
    requires i < n && j < n
  {
    j == Succ(i, n) || i == Succ(j, n)
  }

  ghost predicate EdgesShareAPoint(points: seq<Point>, i: nat, j: nat)
    requires i < |points| && j < |points|
  {
    ShareAPoint(points[i], Next(points, i), points[j], Next(points, j))
  }

  /** Successive edges i and i + 1 have only the vertex between them in common. */
  ghost predicate MeetsOnlyAtVertex(points: seq<Point>, i: nat)
    requires i < |points|
  {
    var j := Succ(i, |points|);
    forall p :: Lies(p, points[i], points[j]) && Lies(p, points[j], Next(points, j)) ==> p == points[j]
  }

  ghost predicate ApartEdgesDisjoint(points: seq<Point>) {
    forall i: nat, j: nat :: i < |points| && j < |points| && i != j && !Adjacent(|points|, i, j) ==>
      !EdgesShareAPoint(points, i, j)
  }

  ghost predicate Simple(points: seq<Point>) {
    && NoZeroEdge(points)
    && Shoelace(points, |points|) != 0.0
    && ApartEdgesDisjoint(points)
    && (forall i: nat :: i < |points| ==> MeetsOnlyAtVertex(points, i))
  }

  ghost predicate AllOnLattice(points: seq<Point>, g: real) {
    forall i :: 0 <= i < |points| ==> OnLattice(points[i], g)
  }

  /** On a resolved lattice the accepted polygons are the simple polygons of non-zero area. */
  lemma AcceptedIffSimple(points: seq<Point>, g: real)
    requires |points| >= 4 && Resolved(g) && AllOnLattice(points, g)
    ensures Accepted(points) <==> Simple(points)
  {
    AreaTestIsExact(points, g);
    CrossingIffContact(points, g);
    if Accepted(points) {
      forall i: nat | i < |points| ensures MeetsOnlyAtVertex(points, i) {
        SuccessiveEdges(points, i);
      }
    }
  }

  lemma AreaTestIsExact(points: seq<Point>, g: real)
    requires Resolved(g) && AllOnLattice(points, g)
    ensures Abs(Shoelace(points, |points|)) > EPSILON <==> Shoelace(points, |points|) != 0.0
  {
    hide IsMultiple, Shoelace;
    ResolvedMeans(g);
    ShoelaceIsMultiple(points, |points|, g);
    ToleranceExact(Shoelace(points, |points|), g * g);
  }

  /** The scan over half of the pairs decides contact between any two edges that are not successive. */
  lemma CrossingIffContact(points: seq<Point>, g: real)
    requires |points| >= 4 && Resolved(g) && AllOnLattice(points, g)
    ensures !Crossing(points) <==> ApartEdgesDisjoint(points)
  {
    var n := |points|;
    if ApartEdgesDisjoint(points) {
      forall i: nat, j: nat | Compared(n, i, j) ensures !EdgesIntersect(points, i, j) {
        assert !Adjacent(n, i, j);
        EdgeTestIsExact(points, i, j, g);
      }
    }
    if !Crossing(points) {
      forall i: nat, j: nat | i < n && j < n && i != j && !Adjacent(n, i, j) ensures !EdgesShareAPoint(points, i, j) {
        EdgeTestIsExact(points, i, j, g);
        EdgeTestIsExact(points, j, i, g);
        assert if i < j then Compared(n, i, j) else Compared(n, j, i);
        assert EdgesShareAPoint(points, i, j) <==> EdgesShareAPoint(points, j, i);
      }
    }
  }

  lemma EdgeTestIsExact(points: seq<Point>, i: nat, j: nat, g: real)
    requires i < |points| && j < |points| && Resolved(g) && AllOnLattice(points, g)
    ensures EdgesIntersect(points, i, j) <==> EdgesShareAPoint(points, i, j)
  {
    SegmentsIntersectCorrect(points[i], Next(points, i), points[j], Next(points, j), g);
  }

  lemma {:induction false} ShoelaceIsMultiple(points: seq<Point>, k: nat, g: real)
    requires AllOnLattice(points, g) && k <= |points|
    ensures IsMultiple(Shoelace(points, k), g * g)
  {
    hide IsMultiple, Cross;
    if k == 0 {
      SmallMultiples(g * g);
    } else {
      var last := Cross(points[k - 1], Next(points, k - 1));
      ShoelaceIsMultiple(points, k - 1, g);
      CrossIsMultiple(points[k - 1], Next(points, k - 1), g);
      MultipleDifference(Shoelace(points, k - 1), -last, g * g);
    }
  }

  lemma CrossIsMultiple(a: Point, b: Point, g: real)
    requires OnLattice(a, g) && OnLattice(b, g)
    ensures IsMultiple(-Cross(a, b), g * g)
  {
    hide IsMultiple;
    var u, v := a.x * b.y, b.x * a.y;
    MultipleProduct(a.x, b.y, u, g, g * g);
    MultipleProduct(b.x, a.y, v, g, g * g);
    MultipleDifference(v, u, g * g);
    assert -Cross(a, b) == v - u;
  }

  /** If two successive edges overlapped beyond their vertex, an end of one would touch an edge two away. */
  lemma SuccessiveEdges(points: seq<Point>, i: nat)
    requires |points| >= 4 && i < |points| && NoZeroEdge(points)
    requires ApartEdgesDisjoint(points)
    ensures MeetsOnlyAtVertex(points, i)
  {
    var n := |points|;
    var j := Succ(i, n);
    var k := Succ(j, n);
    var before := if i == 0 then n - 1 else i - 1;
    var a, b, c := points[i], points[j], points[k];
    forall p | Lies(p, a, b) && Lies(p, b, c) ensures p == b {
      if p != b {
        FoldBack(a, b, c, p);
        if Lies(c, a, b) {
          EndsLie(c, Next(points, k));
          assert !Adjacent(n, i, k) && EdgesShareAPoint(points, i, k);
        } else {
          EndsLie(points[before], a);
          assert Next(points, before) == a;
          assert !Adjacent(n, before, j) && EdgesShareAPoint(points, before, j);
        }
        assert false;
      }
    }
  }

  /** Two segments from b that share a further point p run the same way, so one contains the other's far end. */
  lemma FoldBack(a: Point, b: Point, c: Point, p: Point)
    requires Lies(p, a, b) && Lies(p, b, c) && p != b
    ensures Lies(c, a, b) || Lies(a, b, c)
  {
    LiesReversed(a, b, p);
    var t: real :| 0.0 <= t <= 1.0 && p == Along(b, a, t);
    var s: real :| 0.0 <= s <= 1.0 && p == Along(b, c, s);
    assert t != 0.0 && s != 0.0;
    if t <= s {
      Nearer(b, a, c, t, s);
      LiesReversed(b, a, c);
    } else {
      Nearer(b, c, a, s, t);
    }
  }

  /** Reaching the same point later along one segment from b than along another, its end is on the other. */
  lemma Nearer(b: Point, a: Point, c: Point, t: real, s: real)
    requires 0.0 < t <= s <= 1.0 && Along(b, a, t) == Along(b, c, s)
    ensures Lies(c, b, a)
  {
    var q := Fraction(t, s);
    Shorten(q, t, s, a.x - b.x, c.x - b.x);
    Shorten(q, t, s, a.y - b.y, c.y - b.y);
    assert c == Along(b, a, q);
  }

  lemma Shorten(q: real, t: real, s: real, u: real, w: real)
    requires s != 0.0 && q * s == t && t * u == s * w
    ensures q * u == w
  {
    assert s * (q * u) == (q * s) * u;
    Cancel(s, q * u, w);
  }

  lemma LiesReversed(a: Point, b: Point, p: Point)
    requires Lies(p, a, b)
    ensures Lies(p, b, a)
  {
    var t: real :| 0.0 <= t <= 1.0 && p == Along(a, b, t);
    assert p == Along(b, a, 1.0 - t);
  }

  // ---------- Acceptance off the resolved lattices ----------

  ghost predicate AcceptanceIsExactOn(g: real) {
    forall points: seq<Point> :: |points| >= 4 && AllOnLattice(points, g) ==> (Accepted(points) <==> Simple(points))
  }

  ghost predicate SimpleAreAcceptedOn(g: real) {
    forall points: seq<Point> :: |points| >= 4 && AllOnLattice(points, g) && Simple(points) ==> Accepted(points)
  }

  /** A parallelogram with an extra vertex on its lower side, a spacing away from the slanted side. */
  function Slanted(g: real): (points: seq<Point>)
    ensures |points| == 5
  {
    [Point(0.0, 0.0), Point(g, g), Point(3.0 * g, g), Point(2.0 * g, 0.0), Point(g, 0.0)]
  }

  lemma EdgeOfSlanted(g: real, i: nat, p: Point)
    requires g > 0.0 && i < 5 && Lies(p, Slanted(g)[i], Next(Slanted(g), i))
    ensures i == 0 ==> p.x == p.y && 0.0 <= p.x <= g
    ensures i == 1 ==> p.y == g
    ensures i == 2 ==> 2.0 * g <= p.x
    ensures i == 3 ==> p.y == 0.0 && g <= p.x
    ensures i == 4 ==> p.y == 0.0 && p.x <= g
  {
    if i == 0 {
      OnDiagonal(g, p);
    }
    hide Orientation;
    LiesIsExact(Slanted(g)[i], Next(Slanted(g), i), p);
  }

  lemma SlantedIsSimple(g: real)
    requires g > 0.0
    ensures Simple(Slanted(g))
  {
    hide Slanted, Shoelace, Lies;
    var s := Slanted(g);
    forall i: nat, j: nat | i < |s| && j < |s| && i != j && !Adjacent(|s|, i, j) ensures !EdgesShareAPoint(s, i, j) {
      SlantedApart(g, i, j);
    }
    assert ApartEdgesDisjoint(s);
    SlantedArea(g);
    forall i: nat | i < |s| ensures MeetsOnlyAtVertex(s, i) {
      SuccessiveEdges(s, i);
    }
  }

  lemma SlantedApart(g: real, i: nat, j: nat)
    requires g > 0.0 && i < 5 && j < 5 && i != j && !Adjacent(5, i, j)
    ensures !EdgesShareAPoint(Slanted(g), i, j)
  {
    hide Lies;
    var s := Slanted(g);
    forall p: Point ensures !(Lies(p, s[i], Next(s, i)) && Lies(p, s[j], Next(s, j))) {
      if Lies(p, s[i], Next(s, i)) && Lies(p, s[j], Next(s, j)) {
        EdgeOfSlanted(g, i, p);
        EdgeOfSlanted(g, j, p);
      }
    }
  }

  lemma SlantedArea(g: real)
    requires g > 0.0
    ensures NoZeroEdge(Slanted(g)) && Shoelace(Slanted(g), |Slanted(g)|) != 0.0
  {
    var s := Slanted(g);
    ProductPositive(g, g);
    assert Cross(s[0], s[1]) == 0.0 && Cross(s[3], s[4]) == 0.0 && Cross(s[4], s[0]) == 0.0;
    assert Cross(s[1], s[2]) == -2.0 * (g * g) && Cross(s[2], s[3]) == -2.0 * (g * g);
    assert Shoelace(s, 1) == Cross(s[0], s[1]);
    assert Shoelace(s, 2) == Shoelace(s, 1) + Cross(s[1], s[2]);
    assert Shoelace(s, 3) == Shoelace(s, 2) + Cross(s[2], s[3]);
    assert Shoelace(s, 4) == Shoelace(s, 3) + Cross(s[3], s[4]);
    assert Shoelace(s, 5) == Shoelace(s, 4) + Cross(s[4], s[0]);
  }

  /** The extra vertex is taken for a point of the slanted side. */
  lemma SlantedIsRejected(g: real)
    requires 0.0 < g <= 0.0001
    ensures !Accepted(Slanted(g))
  {
    var s := Slanted(g);
    hide OnSegment;
    FalseContact(g);
    assert Compared(5, 0, 3) && EdgesIntersect(s, 0, 3);
  }

  /**
   * Acceptance is simplicity on the multiples of a spacing if and only if the spacing is above 0.0001, and already that
   * every simple polygon is accepted depends on it.
   */
  lemma AcceptanceExactIffResolved(g: real)
    requires g > 0.0
    ensures AcceptanceIsExactOn(g) <==> g > 0.0001
    ensures SimpleAreAcceptedOn(g) <==> g > 0.0001
  {
    hide Accepted, Simple;
    if g > 0.0001 {
      forall points: seq<Point> | |points| >= 4 && AllOnLattice(points, g)
        ensures Accepted(points) <==> Simple(points)
      {
        AcceptedIffSimple(points, g);
      }
    } else {
      SlantedIsSimple(g);
      SlantedIsRejected(g);
      SlantedOnLattice(g);
    }
  }

  /** On whole thousandths exactly the simple polygons of non-zero area are accepted. */
  lemma AcceptedOnThousandths(points: seq<Point>)
    requires |points| >= 4 && AllOnLattice(points, 0.001)
    ensures Accepted(points) <==> Simple(points)
  {
    AcceptedIffSimple(points, 0.001);
  }

  lemma SlantedOnLattice(g: real)
    ensures AllOnLattice(Slanted(g), g)
  {
    hide IsMultiple;
    SmallMultiples(g);
  }

  /** Every proper triangle is a simple polygon, but its record is too short to be read. */
  lemma TriangleIsNotRead(a: Point, b: Point, c: Point)
    requires Orientation(a, b, c) != 0.0
    ensures Simple([a, b, c])
    ensures !exists points :: Reads(Some(ClosedRecord([a, b, c])), points)
  {
    var t := [a, b, c];
    assert Shoelace(t, 3) == Cross(a, b) + Cross(b, c) + Cross(c, a) by {
      assert Shoelace(t, 1) == Cross(a, b);
      assert Shoelace(t, 2) == Shoelace(t, 1) + Cross(b, c);
    }
    OrientationAsCrosses(a, b, c);
    TriangleCorner(a, b, c);
    TriangleCorner(b, c, a);
    TriangleCorner(c, a, b);
    assert MeetsOnlyAtVertex(t, 0) && MeetsOnlyAtVertex(t, 1) && MeetsOnlyAtVertex(t, 2);
  }

  lemma OrientationAsCrosses(a: Point, b: Point, c: Point)
    ensures Orientation(a, b, c) == Cross(a, b) + Cross(b, c) + Cross(c, a)
  {
    assert (b.x - a.x) * (c.y - a.y) == b.x * c.y - b.x * a.y - a.x * c.y + a.x * a.y;
    assert (b.y - a.y) * (c.x - a.x) == b.y * c.x - b.y * a.x - a.y * c.x + a.y * a.x;
  }

  lemma TriangleCorner(a: Point, b: Point, c: Point)
    requires Orientation(a, b, c) != 0.0
    ensures a != b && Orientation(b, c, a) != 0.0
    ensures forall p :: Lies(p, a, b) && Lies(p, b, c) ==> p == b
  {
    OrientationAsCrosses(a, b, c);
    OrientationAsCrosses(b, c, a);
    forall p | Lies(p, a, b) && Lies(p, b, c) ensures p == b {
      Corner(a, b, c, p);
    }
  }

  /** Segments that turn at b have only b in common. */
  lemma Corner(a: Point, b: Point, c: Point, p: Point)
    requires Lies(p, a, b) && Lies(p, b, c) && Orientation(a, b, c) != 0.0
    ensures p == b
  {
    assert Orientation(b, c, a) == Orientation(a, b, c);
    LiesIsExact(a, b, c);
    LiesIsExact(b, c, a);
    if p != b {
      FoldBack(a, b, c, p);
    }
  }
}
