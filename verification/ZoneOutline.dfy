// The verdict on a zone rectangle against the board outline, and why its two paths agree
// (zone-outline-evidence.ts, lines 30-62 and 128-148).
module ZoneOutline {
  import opened Options
  import opened RealArithmetic
  import opened SegmentGeometry
  import opened PolygonAcceptance
  import opened PolygonRegion
  import opened PolygonParity
  import opened RectangleRelation
  import opened ToleranceLimits

  datatype Status = IntersectionConfirmed | OutsideBoard | Observed | UnsupportedOutline

  datatype Evidence = Evidence(
    status: Status,
    intersectionVerified: bool,
    outline: Option<Rectangle>,
    intersection: Option<Relation>)

  predicate IsFiniteRectangle(r: Rectangle) {
    r.width > 0.0 && r.height > 0.0
  }

  /** The record of a rectangular outline: R, its position and size, and no rotation or rounding. */
  function RectangleRecord(r: Rectangle): seq<Token> {
    [Text("R"), Num(r.x), Num(r.y), Num(r.width), Num(r.height), Num(0.0), Num(0.0)]
  }

  function NativeRectangle(source: Option<seq<Token>>): (r: Option<Rectangle>)
    ensures r.Some? <==> source.Some? && exists rect :: IsFiniteRectangle(rect) && source.value == RectangleRecord(rect)
    ensures r.Some? ==> IsFiniteRectangle(r.value) && source.value == RectangleRecord(r.value)
  {
    if source.None? || |source.value| != 7 then None
    else
      var s := source.value;
      if s[0] != Text("R") || s[5] != Num(0.0) || s[6] != Num(0.0) then None
      else if !(s[1].Num? && s[2].Num? && s[3].Num? && s[4].Num?) then None
      else
        var rect := Rectangle(s[1].number, s[2].number, s[3].number, s[4].number);
        if !(rect.width > 0.0 && rect.height > 0.0) then None
        else
          assert s == RectangleRecord(rect);
          Some(rect)
  }

  predicate Overlaps(a: Rectangle, b: Rectangle) {
    && Max(a.x, b.x) < Min(a.x + a.width, b.x + b.width)
    && Max(a.y - a.height, b.y - b.height) < Min(a.y, b.y)
  }

  /** The evidence that the code promises for a source, whatever polygon it is read as. */
  ghost predicate Classified(rectangle: Rectangle, source: Option<seq<Token>>, e: Evidence) {
    var bounds := NativeRectangle(source);
    if bounds.Some? then
      var intersects := Overlaps(rectangle, bounds.value);
      e == Evidence(if intersects then IntersectionConfirmed else OutsideBoard, intersects, bounds, None)
    else
      || (exists polygon :: Reads(source, polygon) && Accepted(polygon)
            && e == Evidence(Observed, RelationOf(polygon, rectangle) != Outside, None,
              Some(RelationOf(polygon, rectangle))))
      || ((!exists polygon :: Reads(source, polygon) && Accepted(polygon)) &&
        e == Evidence(UnsupportedOutline, false, None, None))
  }

  method ClassifyOutline(rectangle: Rectangle, source: Option<seq<Token>>) returns (e: Evidence)
    ensures Classified(rectangle, source, e)
  {
    hide RelationOf, Reads, Accepted;
    var bounds := NativeRectangle(source);
    if bounds.Some? {
      var intersects := Overlaps(rectangle, bounds.value);
      return Evidence(if intersects then IntersectionConfirmed else OutsideBoard, intersects, bounds, None);
    }
    var vertices := NativeClosedPolyline(source);
    if vertices.None? {
      return Evidence(UnsupportedOutline, false, None, None);
    }
    var intersection := PolygonRectangleRelation(vertices.value, rectangle);
    return Evidence(Observed, intersection != Outside, None, Some(intersection));
  }

  // ---------- What the evidence says, in the record's own terms ----------

  ghost predicate IsRectangular(source: Option<seq<Token>>, board: Rectangle) {
    source == Some(RectangleRecord(board)) && board.width > 0.0 && board.height > 0.0
  }

  ghost predicate IsPolygonal(source: Option<seq<Token>>, polygon: seq<Point>) {
    Reads(source, polygon) && Accepted(polygon)
  }

  lemma RectangleIsRead(board: Rectangle)
    requires board.width > 0.0 && board.height > 0.0
    ensures NativeRectangle(Some(RectangleRecord(board))) == Some(board)
  {
    var r := NativeRectangle(Some(RectangleRecord(board)));
    assert RectangleRecord(r.value)[1..5] == RectangleRecord(board)[1..5];
  }

  /**
   * A rectangle is confirmed exactly if its interior meets that of the zone and is else outside, a polygon is observed
   * with its relation, and only a record that is neither is unsupported.
   */
  lemma EvidenceMeans(zone: Rectangle, source: Option<seq<Token>>, e: Evidence)
    requires Classified(zone, source, e)
    ensures forall board :: IsRectangular(source, board) ==>
      && e.status == (if InteriorsMeet(zone, board) then IntersectionConfirmed else OutsideBoard)
      && (e.intersectionVerified <==> InteriorsMeet(zone, board))
      && e.outline == Some(board) && e.intersection.None?
    ensures forall polygon :: IsPolygonal(source, polygon) ==>
      && e.status == Observed && e.outline.None? && e.intersection == Some(RelationOf(polygon, zone))
      && (e.intersectionVerified <==> RelationOf(polygon, zone) != Outside)
    ensures e.status == UnsupportedOutline <==>
      (forall board :: !IsRectangular(source, board)) && (forall polygon :: !IsPolygonal(source, polygon))
    ensures e.status == UnsupportedOutline ==> !e.intersectionVerified && e.outline.None? && e.intersection.None?
  {
    hide RelationOf, Accepted;
    forall board | IsRectangular(source, board)
      ensures NativeRectangle(source) == Some(board) && (Overlaps(zone, board) <==> InteriorsMeet(zone, board))
    {
      RectangleIsRead(board);
      OverlapsIffInteriorsMeet(zone, board);
    }
    forall polygon | IsPolygonal(source, polygon)
      ensures NativeRectangle(source).None? && forall q :: Reads(source, q) ==> q == polygon
    {
      forall q | Reads(source, q) ensures q == polygon {
        ReadingIsUnambiguous(source, q, polygon);
      }
    }
    if NativeRectangle(source).Some? {
      assert IsRectangular(source, NativeRectangle(source).value);
    }
  }

  // ---------- What the two paths decide, in real points ----------

  predicate InInterior(p: Point, r: Rectangle) {
    r.x < p.x < r.x + r.width && r.y - r.height < p.y < r.y
  }

  ghost predicate InteriorsMeet(a: Rectangle, b: Rectangle) {
    exists p :: InInterior(p, a) && InInterior(p, b)
  }

  ghost predicate RectanglesMeet(a: Rectangle, b: Rectangle) {
    exists p :: InRectangle(p, a) && InRectangle(p, b)
  }

  lemma OverlapsIffInteriorsMeet(a: Rectangle, b: Rectangle)
    ensures Overlaps(a, b) <==> InteriorsMeet(a, b)
  {
    if Overlaps(a, b) {
      var p := Point((Max(a.x, b.x) + Min(a.x + a.width, b.x + b.width)) / 2.0,
                     (Max(a.y - a.height, b.y - b.height) + Min(a.y, b.y)) / 2.0);
      assert InInterior(p, a) && InInterior(p, b);
    }
  }

  /** The parity of a rectangular polygon: left and bottom sides belong to it, right and top do not. */
  lemma RectangleParity(board: Rectangle, p: Point)
    requires IsFiniteRectangle(board)
    ensures EvenOdd(Corners(board), p) <==>
            board.x <= p.x < board.x + board.width && board.y - board.height <= p.y < board.y
  {
    hide Crosses;
    var c := Corners(board);
    VerticalEdge(c[3], c[0], p);
    HorizontalEdge(c[0], c[1], p);
    VerticalEdge(c[1], c[2], p);
    HorizontalEdge(c[2], c[3], p);
    assert OddCrossings(c, p, 1) == Crosses(c[3], c[0], p);
    assert OddCrossings(c, p, 2) == OddCrossings(c, p, 1);
    assert OddCrossings(c, p, 3) == (OddCrossings(c, p, 2) != Crosses(c[1], c[2], p));
    assert OddCrossings(c, p, 4) == OddCrossings(c, p, 3);
  }

  lemma VerticalEdge(a: Point, b: Point, p: Point)
    requires a.x == b.x && a.y != b.y
    ensures Crosses(a, b, p) <==> (a.y > p.y) != (b.y > p.y) && p.x < a.x
  {
    var v, w := b.y - a.y, p.x - a.x;
    CrossesIsExact(a, b, p);
    assert Orientation(a, b, p) == v * -w;
    if v > 0.0 {
      SameSign(v, -w, Orientation(a, b, p));
    } else {
      SameSign(-v, w, Orientation(a, b, p));
    }
  }

  lemma HorizontalEdge(a: Point, b: Point, p: Point)
    requires a.y == b.y
    ensures !Crosses(a, b, p)
  {
  }

  lemma BoundaryOfRectangle(board: Rectangle, p: Point)
    requires IsFiniteRectangle(board)
    ensures OnBoundaryOf(p, Corners(board)) <==> InRectangle(p, board) && !InInterior(p, board)
  {
    var c := Corners(board);
    if OnBoundaryOf(p, c) {
      var i: nat :| i < 4 && Lies(p, c[i], Next(c, i));
      LiesIsExact(c[i], Next(c, i), p);
    }
    if InRectangle(p, board) && !InInterior(p, board) {
      RimIsSide(p, board);
      assert OnSide(p, board);
    }
  }

  /** The rectangle given by its corners: outside exactly if disjoint, inside exactly if strictly within. */
  lemma RelationOfRectangles(zone: Rectangle, board: Rectangle, g: real)
    requires Resolved(g) && LatticeRectangle(zone, g) && LatticeRectangle(board, g)
    requires IsFiniteRectangle(zone) && IsFiniteRectangle(board)
    ensures RelationOf(Corners(board), zone) == Outside <==> !RectanglesMeet(zone, board)
    ensures RelationOf(Corners(board), zone) == Inside <==> forall p :: InRectangle(p, zone) ==> InInterior(p, board)
  {
    hide RelationOf, EvenOdd, OnBoundaryOf;
    var c := Corners(board);
    RelationCorrect(c, zone, g);
    forall p ensures EvenOdd(c, p) <==>
      board.x <= p.x < board.x + board.width && board.y - board.height <= p.y < board.y {
      RectangleParity(board, p);
    }
    forall p ensures OnBoundaryOf(p, c) <==> InRectangle(p, board) && !InInterior(p, board) {
      BoundaryOfRectangle(board, p);
    }
    var corner := Point(zone.x, zone.y);
    assert InRectangle(corner, zone);
    if RelationOf(c, zone) == Outside {
      forall p | InRectangle(p, zone) ensures !InRectangle(p, board) {
        assert !EvenOdd(c, p) && !OnBoundaryOf(p, c);
      }
    } else if RelationOf(c, zone) == Inside {
      forall p | InRectangle(p, zone) ensures InInterior(p, board) {
        assert EvenOdd(c, p) && !OnBoundaryOf(p, c);
      }
    } else {
      var p: Point :| OnBoundaryOf(p, c) && InRectangle(p, zone);
      assert InRectangle(p, zone) && InRectangle(p, board) && !InInterior(p, board);
    }
  }

  lemma RectangleIsAccepted(board: Rectangle, g: real)
    requires Resolved(g) && LatticeRectangle(board, g) && IsFiniteRectangle(board)
    ensures Accepted(Corners(board))
  {
    hide SegmentsIntersect;
    var c := Corners(board);
    RectangleArea(board);
    AreaTestIsExact(c, g);
    forall i: nat, j: nat | Compared(4, i, j) ensures !EdgesIntersect(c, i, j) {
      SegmentsIntersectCorrect(c[i], Next(c, i), c[j], Next(c, j), g);
      forall p | Lies(p, c[i], Next(c, i)) ensures !Lies(p, c[j], Next(c, j)) {
        LiesIsExact(c[i], Next(c, i), p);
        LiesIsExact(c[j], Next(c, j), p);
      }
    }
  }

  lemma RectangleArea(board: Rectangle)
    requires IsFiniteRectangle(board)
    ensures Shoelace(Corners(board), 4) != 0.0
  {
    var c := Corners(board);
    var x, y, w, h := board.x, board.y, board.width, board.height;
    assert Shoelace(c, 1) == Cross(c[0], c[1]);
    assert Shoelace(c, 2) == Shoelace(c, 1) + Cross(c[1], c[2]);
    assert Shoelace(c, 3) == Shoelace(c, 2) + Cross(c[2], c[3]);
    assert Shoelace(c, 4) == Shoelace(c, 3) + Cross(c[3], c[0]);
    assert Shoelace(c, 4) == 2.0 * (w * h);
    ProductPositive(w, h);
  }

  /** One board, stored either way: the verdicts differ exactly when zone and board only touch. */
  lemma OutlinePathsAgree(zone: Rectangle, board: Rectangle, g: real)
    requires Resolved(g) && LatticeRectangle(zone, g) && LatticeRectangle(board, g)
    requires IsFiniteRectangle(zone) && IsFiniteRectangle(board)
    ensures forall e :: Classified(zone, Some(RectangleRecord(board)), e) ==>
              (e.intersectionVerified <==> InteriorsMeet(zone, board))
    ensures forall e :: Classified(zone, Some(ClosedRecord(Corners(board))), e) ==>
              (e.intersectionVerified <==> RectanglesMeet(zone, board))
    ensures InteriorsMeet(zone, board) ==> RectanglesMeet(zone, board)
  {
    hide RelationOf, Accepted, Reads;
    var c := Corners(board);
    var source := Some(ClosedRecord(c));
    RectangleIsRead(board);
    OverlapsIffInteriorsMeet(zone, board);
    RectangleIsAccepted(board, g);
    RelationOfRectangles(zone, board, g);
    PolylineOfBoard(c);
    forall q | Reads(source, q) ensures q == c {
      ReadingIsUnambiguous(source, q, c);
    }
    if InteriorsMeet(zone, board) {
      var p :| InInterior(p, zone) && InInterior(p, board);
      assert InRectangle(p, zone) && InRectangle(p, board);
    }
  }

  lemma PolylineOfBoard(c: seq<Point>)
    requires |c| == 4
    ensures Reads(Some(ClosedRecord(c)), c) && NativeRectangle(Some(ClosedRecord(c))) == None
  {
  }

  // ---------- When a denied intersection can be trusted ----------

  /** Whatever record is read and accepted as a polygon on the lattice, a zone denied on it has no boundary point. */
  ghost predicate DenialIsSafeOn(g: real) {
    forall zone: Rectangle, source: Option<seq<Token>>, points: seq<Point>, e: Evidence ::
      && LatticeRectangle(zone, g) && IsFiniteRectangle(zone) && AllOnLattice(points, g)
      && Reads(source, points) && Accepted(points) && Classified(zone, source, e) && !e.intersectionVerified ==>
        !BoundaryInRectangle(points, zone)
  }

  /** A record that is read as a polygon is not that of a rectangle, so the relation of the polygon is the verdict. */
  lemma VerdictOnPolyline(zone: Rectangle, source: Option<seq<Token>>, points: seq<Point>, e: Evidence)
    requires Reads(source, points) && Accepted(points)
    ensures |points| >= 4
    ensures Classified(zone, source, e) <==>
            e == Evidence(Observed, RelationOf(points, zone) != Outside, None, Some(RelationOf(points, zone)))
  {
    hide RelationOf, Accepted;
    forall q | Reads(source, q) ensures q == points {
      ReadingIsUnambiguous(source, q, points);
    }
  }

  /** The evidence denies no zone that the outline passes through if and only if the spacing is resolved. */
  lemma DenialSafeIffResolved(g: real)
    requires g > 0.0
    ensures DenialIsSafeOn(g) <==> g > 0.0001
  {
    hide RelationOf, Accepted, Reads, Classified, BoundaryInRectangle, AllOnLattice, LatticeRectangle;
    if g > 0.0001 {
      forall zone: Rectangle, source: Option<seq<Token>>, points: seq<Point>, e: Evidence |
        && LatticeRectangle(zone, g) && IsFiniteRectangle(zone) && AllOnLattice(points, g)
        && Reads(source, points) && Accepted(points) && Classified(zone, source, e) && !e.intersectionVerified
        ensures !BoundaryInRectangle(points, zone)
      {
        VerdictOnPolyline(zone, source, points, e);
        RelationCorrect(points, zone, g);
      }
    } else {
      var points, square := ContactDenied(g);
      var source, e := Some(ClosedRecord(points)), Evidence(Observed, false, None, Some(Outside));
      PolylineOfBoard(points);
      VerdictOnPolyline(square, source, points, e);
      assert Classified(square, source, e) && !e.intersectionVerified;
    }
  }
}
