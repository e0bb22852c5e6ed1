// Where the absolute tolerance stops being safe (zone-polygon-intersection.ts, lines 15-40, 62-91, 111-151): crossings,
// self-crossing polygons and contacts with a rectangle go unseen on exactly the lattices it does not resolve.
module ToleranceLimits {
  import opened SegmentGeometry
  import opened LatticeShapes
  import opened PolygonAcceptance
  import opened PolygonRegion
  import opened PolygonParity
  import opened RectangleRelation

  // ---------- Crossings that go unseen ----------

  ghost predicate CrossingsAreSeenOn(g: real) {
    forall a: Point, b: Point, c: Point, d: Point ::
      OnLattice(a, g) && OnLattice(b, g) && OnLattice(c, g) && OnLattice(d, g) ==>
        (ShareAPoint(a, b, c, d) ==> SegmentsIntersect(a, b, c, d))
  }

  /** The quadrilateral at scale h. */
  function Placed(cells: seq<Cell>, h: real): (points: seq<Point>)
    requires |cells| == 4
    ensures |points| == 4 && forall k :: 0 <= k < 4 ==> points[k] == At(cells[k], h)
  {
    [At(cells[0], h), At(cells[1], h), At(cells[2], h), At(cells[3], h)]
  }

  lemma PlacedOnLattice(cells: seq<Cell>, n: int, g: real, h: real)
    requires |cells| == 4 && h == Times(n, g)
    ensures AllOnLattice(Placed(cells, h), g)
  {
    forall k | 0 <= k < 4 ensures OnLattice(Placed(cells, h)[k], g) {
      TimesOfTimes(cells[k].i, n, g);
      TimesOfTimes(cells[k].j, n, g);
    }
  }

  /** No contact of segments on the multiples of a spacing is missed if and only if it is resolved. */
  lemma CrossingsSeenIffResolved(g: real)
    requires g > 0.0
    ensures CrossingsAreSeenOn(g) <==> g > 0.0001
  {
    hide SegmentsIntersect, ShareAPoint, OnLattice;
    if g > 0.0001 {
      ExactIffResolved(g);
    } else {
      var n, h := BorderlineMultiple(g);
      MissedCrossing(h);
      PlacedOnLattice(KNOT, n, g, h);
      var p := Placed(KNOT, h);
      assert OnLattice(p[0], g) && OnLattice(p[1], g) && OnLattice(p[2], g) && OnLattice(p[3], g);
    }
  }

  // ---------- Self-crossing polygons that are accepted ----------

  ghost predicate AcceptedAreUncrossedOn(g: real) {
    forall points: seq<Point> :: |points| >= 4 && AllOnLattice(points, g) && Accepted(points) ==>
      ApartEdgesDisjoint(points)
  }

  lemma CrossAt(a: Cell, b: Cell, h: real)
    ensures Cross(At(a, h), At(b, h)) == Times(CellCross(a, b), h * h)
  {
    ProductOfTimes(a.i, b.j, h, h * h);
    ProductOfTimes(b.i, a.j, h, h * h);
    DifferenceOfTimes(a.i * b.j, b.i * a.j, h * h);
  }

  lemma FourCrosses(points: seq<Point>)
    requires |points| == 4
    ensures Shoelace(points, 4) ==
            Cross(points[0], points[1]) + Cross(points[1], points[2]) + Cross(points[2], points[3]) +
            Cross(points[3], points[0])
  {
    hide Cross;
    assert Shoelace(points, 1) == Cross(points[0], points[1]);
    assert Shoelace(points, 2) == Shoelace(points, 1) + Cross(points[1], points[2]);
    assert Shoelace(points, 3) == Shoelace(points, 2) + Cross(points[2], points[3]);
  }

  lemma AreaOfPlaced(c: seq<Cell>, h: real)
    requires |c| == 4
    ensures Shoelace(Placed(c, h), 4) == Times(CellArea(c), h * h)
  {
    hide Cross, CellCross, At, Shoelace;
    FourCrosses(Placed(c, h));
    CrossAt(c[0], c[1], h);
    CrossAt(c[1], c[2], h);
    CrossAt(c[2], c[3], h);
    CrossAt(c[3], c[0], h);
    assert CellArea(c) as real == CellCross(c[0], c[1]) as real + CellCross(c[1], c[2]) as real +
      CellCross(c[2], c[3]) as real + CellCross(c[3], c[0]) as real;
  }

  lemma QuadrilateralAccepted(c: seq<Cell>, h: real)
    requires Borderline(h) && LooksSimple(c)
    ensures Accepted(Placed(c, h))
  {
    hide SegmentsIntersect, Unseen, At, Shoelace, CellArea;
    var points := Placed(c, h);
    AreaOfPlaced(c, h);
    AreaAt(CellArea(c), h);
    forall k | 0 <= k < 4 ensures points[k] != Next(points, k) {
      DifferentCells(c[k], c[Succ(k, 4)], h);
    }
    UnseenAt(c[0], c[1], c[2], c[3], h);
    UnseenAt(c[1], c[2], c[3], c[0], h);
    forall i: nat, j: nat | Compared(4, i, j) ensures !EdgesIntersect(points, i, j) {
      assert (i == 0 && j == 2) || (i == 1 && j == 3);
    }
  }

  /** On every lattice that is not resolved a polygon that crosses itself is accepted. */
  lemma CrossingPolygonAccepted(g: real) returns (points: seq<Point>)
    requires 0.0 < g <= 0.0001
    ensures |points| == 4 && AllOnLattice(points, g) && Accepted(points) && EdgesShareAPoint(points, 0, 2)
  {
    hide ShareAPoint, SegmentsIntersect, At, Accepted, AllOnLattice, Borderline, LooksSimple;
    var n, h := BorderlineMultiple(g);
    points := Placed(KNOT, h);
    PlacedOnLattice(KNOT, n, g, h);
    MissedCrossing(h);
    BothLookSimple();
    QuadrilateralAccepted(KNOT, h);
  }

  /** Accepted polygons on the multiples of a spacing never cross themselves if and only if it is resolved. */
  lemma UncrossedIffResolved(g: real)
    requires g > 0.0
    ensures AcceptedAreUncrossedOn(g) <==> g > 0.0001
  {
    hide Accepted, AllOnLattice, EdgesShareAPoint;
    if g > 0.0001 {
      forall points: seq<Point> | |points| >= 4 && AllOnLattice(points, g) && Accepted(points)
        ensures ApartEdgesDisjoint(points)
      {
        AcceptedIffSimple(points, g);
      }
    } else {
      var points := CrossingPolygonAccepted(g);
      assert !Adjacent(4, 0, 2) && !ApartEdgesDisjoint(points);
    }
  }

  // ---------- Contacts with a rectangle that go unseen ----------

  function SquareAt(h: real): Rectangle {
    Rectangle(0.0, h, h, h)
  }

  lemma SquareCorners(h: real)
    ensures Corners(SquareAt(h)) == Placed(SQUARE, h)
  {
    assert Times(0, h) == 0.0 && Times(1, h) == h;
  }

  lemma NoSideMet(h: real, i: nat, j: nat)
    requires Borderline(h) && i < 4 && j < 4
    ensures var p, s := Placed(SLIVER, h), Placed(SQUARE, h);
            !SegmentsIntersect(p[i], Next(p, i), s[j], Next(s, j))
  {
    hide SegmentsIntersect, At, Borderline, Unseen;
    SideUnseen(i, j);
    UnseenAt(SLIVER[i], SLIVER[Succ(i, 4)], SQUARE[j], SQUARE[Succ(j, 4)], h);
  }

  lemma VertexBeside(h: real, i: nat)
    requires h > 0.0 && i < 4
    ensures !InRectangle(At(SLIVER[i], h), SquareAt(h))
  {
    assert Times(-1, h) == -h && Times(-7, h) == -7.0 * h && Times(-8, h) == -8.0 * h && Times(-9, h) == -9.0 * h;
  }

  lemma NoContact(h: real)
    requires Borderline(h)
    ensures !Contact(Placed(SLIVER, h), SquareAt(h))
  {
    hide SegmentsIntersect, At;
    var p := Placed(SLIVER, h);
    SquareCorners(h);
    forall i: nat, j: nat | i < 4 && j < 4
      ensures !SegmentsIntersect(p[i], Next(p, i), Corners(SquareAt(h))[j], Next(Corners(SquareAt(h)), j))
    {
      NoSideMet(h, i, j);
    }
    forall i: nat | i < 4 ensures !InRectangle(p[i], SquareAt(h)) {
      VertexBeside(h, i);
    }
  }

  lemma CrossesAt(a: Cell, b: Cell, c: Cell, h: real)
    requires h > 0.0
    ensures Crosses(At(a, h), At(b, h), At(c, h)) <==>
            (a.j <= c.j < b.j && Turn(a, b, c) > 0) || (b.j <= c.j < a.j && Turn(a, b, c) < 0)
  {
    hide Crosses, Orientation, Turn;
    CrossesIsExact(At(a, h), At(b, h), At(c, h));
    TurnSign(a, b, c, h);
    HeightsAt(a, c, h);
    HeightsAt(b, c, h);
  }

  /** Every corner is taken for a point outside: two edges pass to its right, or none does. */
  lemma CornerOutside(h: real, k: nat)
    requires Borderline(h) && k < 4
    ensures StateOf(Placed(SLIVER, h), At(SQUARE[k], h)) == OutsidePolygon
  {
    hide OnSegment, Crosses, At, Turn, CellCross;
    var p, c := Placed(SLIVER, h), At(SQUARE[k], h);
    SliverMeasures(SQUARE[k]);
    forall i: nat | i < 4 ensures !OnSegment(Before(p, i), p[i], c) {
      assert Off(SLIVER[Pred(i, 4)], SLIVER[i], SQUARE[k]);
      OffAt(SLIVER[Pred(i, 4)], SLIVER[i], SQUARE[k], h);
    }
    forall i: nat | i < 4 ensures Crosses(Before(p, i), p[i], c) == (k == 0 && i < 2) {
      CrossesAt(SLIVER[Pred(i, 4)], SLIVER[i], SQUARE[k], h);
    }
    OneMoreCrossing(p, c, 0);
    OneMoreCrossing(p, c, 1);
    OneMoreCrossing(p, c, 2);
    OneMoreCrossing(p, c, 3);
  }

  /** The first edge of the sliver passes the middle of the square's lower side. */
  lemma SliverGrazes(h: real)
    requires h > 0.0
    ensures BoundaryInRectangle(Placed(SLIVER, h), SquareAt(h))
  {
    var p, m := Placed(SLIVER, h), Point(0.5 * h, 0.0);
    assert At(SLIVER[0], h) == Point(-h, h) && At(SLIVER[1], h) == Point(11.0 * h, -7.0 * h);
    assert m == Along(p[0], p[1], 0.125);
    assert Lies(m, p[0], Next(p, 0));
    assert OnBoundaryOf(m, p) && InRectangle(m, SquareAt(h));
  }

  lemma SliverIsOutside(h: real)
    requires Borderline(h)
    ensures RelationOf(Placed(SLIVER, h), SquareAt(h)) == Outside
  {
    hide Contact, StateOf, At, Borderline;
    var p := Placed(SLIVER, h);
    NoContact(h);
    SquareCorners(h);
    forall k: nat | k < 4 ensures StateOf(p, Placed(SQUARE, h)[k]) == OutsidePolygon {
      CornerOutside(h, k);
    }
    var corner := Corners(SquareAt(h))[0];
    assert corner in Corners(SquareAt(h)) && StateOf(p, corner) != InsidePolygon;
  }

  /** On every lattice that is not resolved some contact of an accepted polygon with a square is denied. */
  lemma ContactDenied(g: real) returns (points: seq<Point>, square: Rectangle)
    requires 0.0 < g <= 0.0001
    ensures |points| == 4 && AllOnLattice(points, g) && Accepted(points)
    ensures LatticeRectangle(square, g) && square.width > 0.0 && square.height > 0.0
    ensures RelationOf(points, square) == Outside && BoundaryInRectangle(points, square)
  {
    hide RelationOf, BoundaryInRectangle, Accepted, AllOnLattice, At, LooksSimple;
    var n, h := BorderlineMultiple(g);
    points, square := Placed(SLIVER, h), SquareAt(h);
    PlacedOnLattice(SLIVER, n, g, h);
    PlacedOnLattice(SQUARE, n, g, h);
    SquareCorners(h);
    BothLookSimple();
    QuadrilateralAccepted(SLIVER, h);
    SliverIsOutside(h);
    SliverGrazes(h);
  }

  /** An accepted polygon on the lattice, as the relation is asked for, and a rectangle on it. */
  ghost predicate Asked(points: seq<Point>, rectangle: Rectangle, g: real) {
    |points| >= 4 && Accepted(points) && AllOnLattice(points, g) && LatticeRectangle(rectangle, g)
  }

  ghost predicate VerdictIsSafeOn(g: real) {
    forall points: seq<Point>, rectangle: Rectangle :: Asked(points, rectangle, g) ==>
      (RelationOf(points, rectangle) != Partial ==> !BoundaryInRectangle(points, rectangle))
  }

  ghost predicate VerdictIsRightOn(g: real) {
    forall points: seq<Point>, rectangle: Rectangle :: Asked(points, rectangle, g) ==>
      (RelationOf(points, rectangle) == Partial <==> BoundaryInRectangle(points, rectangle))
  }

  /**
   * For accepted polygons and rectangles on the multiples of a spacing, 'inside' and 'outside' mean that no boundary
   * point is in the rectangle if and only if the spacing is resolved, and 'partial' then means that there is one.
   */
  lemma VerdictSafeIffResolved(g: real)
    requires g > 0.0
    ensures VerdictIsSafeOn(g) <==> g > 0.0001
    ensures VerdictIsRightOn(g) <==> g > 0.0001
  {
    hide RelationOf, BoundaryInRectangle, Accepted, AllOnLattice, LatticeRectangle;
    if g > 0.0001 {
      forall points: seq<Point>, rectangle: Rectangle | Asked(points, rectangle, g)
        ensures RelationOf(points, rectangle) == Partial <==> BoundaryInRectangle(points, rectangle)
      {
        RelationCorrect(points, rectangle, g);
      }
    } else {
      var points, square := ContactDenied(g);
      assert Asked(points, square, g);
    }
  }
}
