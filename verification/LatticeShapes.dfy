// Small integer shapes (zone-polygon-intersection.ts, lines 15-40, 62-91, 111-151), scaled so that one unit of area is
// within the tolerance and four are not: what the code makes of them, and what they are.
module LatticeShapes {
  import opened RealArithmetic
  import opened SegmentGeometry

  // ---------- Integer shapes ----------

  datatype Cell = Cell(i: int, j: int)

  function At(c: Cell, h: real): Point {
    Point(Times(c.i, h), Times(c.j, h))
  }

  /** Orientation and the shoelace term, in units of area. */
  function Turn(a: Cell, b: Cell, c: Cell): int {
    (b.i - a.i) * (c.j - a.j) - (b.j - a.j) * (c.i - a.i)
  }

  function CellCross(a: Cell, b: Cell): int {
    a.i * b.j - b.i * a.j
  }

  lemma TurnAt(a: Cell, b: Cell, c: Cell, h: real)
    ensures Orientation(At(a, h), At(b, h), At(c, h)) == Times(Turn(a, b, c), h * h)
  {
    DifferenceOfTimes(b.i, a.i, h);
    DifferenceOfTimes(c.j, a.j, h);
    DifferenceOfTimes(b.j, a.j, h);
    DifferenceOfTimes(c.i, a.i, h);
    ProductOfTimes(b.i - a.i, c.j - a.j, h, h * h);
    ProductOfTimes(b.j - a.j, c.i - a.i, h, h * h);
    DifferenceOfTimes((b.i - a.i) * (c.j - a.j), (b.j - a.j) * (c.i - a.i), h * h);
  }

  // ---------- What the tolerance covers ----------

  /** One unit of area is within the tolerance, four are not. */
  predicate Borderline(h: real) {
    h > 0.0 && h * h <= EPSILON < 4.0 * (h * h)
  }

  lemma BorderlineExceeds(h: real)
    requires Borderline(h)
    ensures h > EPSILON
  {
    if h <= EPSILON {
      TinySquare(h);
    }
  }

  lemma TinySquare(h: real)
    requires 0.0 < h <= EPSILON
    ensures 4.0 * (h * h) <= EPSILON
  {
    assert (EPSILON - h) * h == EPSILON * h - h * h;
    ProductNonnegative(EPSILON - h, h);
    assert h * h <= EPSILON * h <= EPSILON * EPSILON;
  }

  lemma TimesOrdered(m: int, n: int, h: real)
    requires h > 0.0 && m <= n
    ensures Times(m, h) <= Times(n, h) && (m < n ==> Times(m, h) + h <= Times(n, h))
  {
    DifferenceOfTimes(n, m, h);
    ProductNonnegative((n - m) as real, h);
    if m < n {
      var d := (n - m - 1) as real;
      ProductNonnegative(d, h);
      assert (d + 1.0) * h == d * h + h;
    }
  }

  lemma AreaAt(k: int, h: real)
    requires Borderline(h)
    ensures k >= 4 ==> Times(k, h * h) > EPSILON
    ensures k <= 1 ==> Times(k, h * h) <= EPSILON
    ensures k <= -4 ==> Times(k, h * h) < -EPSILON
    ensures k >= -1 ==> Times(k, h * h) >= -EPSILON
  {
    ProductPositive(h, h);
    var s := h * h;
    assert Times(4, s) == 4.0 * s && Times(1, s) == s && Times(-4, s) == -4.0 * s && Times(-1, s) == -s;
    if k >= 4 { TimesOrdered(4, k, s); }
    if k <= 1 { TimesOrdered(k, 1, s); }
    if k <= -4 { TimesOrdered(k, -4, s); }
    if k >= -1 { TimesOrdered(-1, k, s); }
  }

  /** At a borderline scale c is not taken for a point of the segment from a to b. */
  predicate Off(a: Cell, b: Cell, c: Cell) {
    || Turn(a, b, c) >= 4
    || Turn(a, b, c) <= -4
    || (c.i < a.i && c.i < b.i)
    || (c.i > a.i && c.i > b.i)
    || (c.j < a.j && c.j < b.j)
    || (c.j > a.j && c.j > b.j)
  }

  lemma OffAt(a: Cell, b: Cell, c: Cell, h: real)
    requires Borderline(h) && Off(a, b, c)
    ensures !OnSegment(At(a, h), At(b, h), At(c, h))
  {
    hide Orientation;
    BorderlineExceeds(h);
    TurnAt(a, b, c, h);
    AreaAt(Turn(a, b, c), h);
    if c.i < a.i && c.i < b.i {
      TimesOrdered(c.i, a.i, h);
      TimesOrdered(c.i, b.i, h);
    } else if c.i > a.i && c.i > b.i {
      TimesOrdered(a.i, c.i, h);
      TimesOrdered(b.i, c.i, h);
    } else if c.j < a.j && c.j < b.j {
      TimesOrdered(c.j, a.j, h);
      TimesOrdered(c.j, b.j, h);
    } else if c.j > a.j && c.j > b.j {
      TimesOrdered(a.j, c.j, h);
      TimesOrdered(b.j, c.j, h);
    }
  }

  predicate Opposed(m: int, n: int, margin: int) {
    (m > margin && n < -margin) || (m < -margin && n > margin)
  }

  /** At a borderline scale the segments from a to b and from c to d are taken to be apart. */
  predicate Unseen(a: Cell, b: Cell, c: Cell, d: Cell) {
    && !(Opposed(Turn(a, b, c), Turn(a, b, d), 1) && Opposed(Turn(c, d, a), Turn(c, d, b), 1))
    && Off(a, b, c) && Off(a, b, d) && Off(c, d, a) && Off(c, d, b)
  }

  lemma UnseenAt(a: Cell, b: Cell, c: Cell, d: Cell, h: real)
    requires Borderline(h) && Unseen(a, b, c, d)
    ensures !SegmentsIntersect(At(a, h), At(b, h), At(c, h), At(d, h))
  {
    hide Off, OnSegment, Orientation, Turn, At, Borderline;
    OffAt(a, b, c, h);
    OffAt(a, b, d, h);
    OffAt(c, d, a, h);
    OffAt(c, d, b, h);
    TurnAt(a, b, c, h);
    TurnAt(a, b, d, h);
    TurnAt(c, d, a, h);
    TurnAt(c, d, b, h);
    AreaAt(Turn(a, b, c), h);
    AreaAt(Turn(a, b, d), h);
    AreaAt(Turn(c, d, a), h);
    AreaAt(Turn(c, d, b), h);
  }

  lemma TurnSign(a: Cell, b: Cell, c: Cell, h: real)
    requires h > 0.0
    ensures Orientation(At(a, h), At(b, h), At(c, h)) > 0.0 <==> Turn(a, b, c) > 0
    ensures Orientation(At(a, h), At(b, h), At(c, h)) < 0.0 <==> Turn(a, b, c) < 0
  {
    hide Turn, Orientation, At;
    TurnAt(a, b, c, h);
    SignOfArea(Turn(a, b, c), h);
  }

  lemma SignOfArea(k: int, h: real)
    requires h > 0.0
    ensures Times(k, h * h) > 0.0 <==> k > 0
    ensures Times(k, h * h) < 0.0 <==> k < 0
  {
    var w := Times(k, h);
    assert Times(0, h) == 0.0;
    if k >= 0 {
      TimesOrdered(0, k, h);
    } else {
      TimesOrdered(k, 0, h);
    }
    SameSign(h, w, h * w);
    assert Times(k, h * h) == h * w;
  }

  /** Segments that pass on both sides of each other do cross, at any scale. */
  lemma CrossAtAnyScale(a: Cell, b: Cell, c: Cell, d: Cell, h: real)
    requires h > 0.0
    requires Opposed(Turn(a, b, c), Turn(a, b, d), 0) && Opposed(Turn(c, d, a), Turn(c, d, b), 0)
    ensures ShareAPoint(At(a, h), At(b, h), At(c, h), At(d, h))
  {
    hide Turn, Orientation, At;
    TurnSign(a, b, c, h);
    TurnSign(a, b, d, h);
    TurnSign(c, d, a, h);
    TurnSign(c, d, b, h);
    ProperCrossing(At(a, h), At(b, h), At(c, h), At(d, h));
  }

  // ---------- Borderline multiples ----------

  /** Every spacing that is not resolved has a multiple at which the shapes below fail. */
  lemma BorderlineMultiple(g: real) returns (n: int, h: real)
    requires 0.0 < g <= 0.0001
    ensures Borderline(h) && h == Times(n, g)
  {
    var root := 0.0001;
    var q := root / g;
    QuotientTimes(root, g);
    n := q.Floor;
    h := Times(n, g);
    AtLeastOne(q, g, root);
    FloorSpan(q - n as real, q, n as real, g, root, h);
    TimesOrdered(1, n, g);
    assert Times(1, g) == g;
    SquaresOrdered(root, 2.0 * h);
    assert (2.0 * h) * (2.0 * h) == 4.0 * (h * h);
    if h < root {
      SquaresOrdered(h, root);
    }
  }

  lemma SquaresOrdered(a: real, b: real)
    requires 0.0 < a < b
    ensures a * a < b * b
  {
    ProductPositive(b - a, b + a);
    assert (b - a) * (b + a) == b * b - a * a;
  }

  lemma AtLeastOne(q: real, g: real, root: real)
    requires 0.0 < g <= root && q * g == root
    ensures q >= 1.0
  {
    var r := 1.0 - q;
    assert r * g == g - root;
    if r > 0.0 {
      ProductPositive(r, g);
    }
  }

  /** A whole number of steps of g reaches the root to within one step. */
  lemma FloorSpan(r: real, q: real, n: real, g: real, root: real, h: real)
    requires 0.0 <= r < 1.0 && q == n + r && g > 0.0 && q * g == root && n * g == h
    ensures 0.0 <= root - h < g
  {
    var left := 1.0 - r;
    assert r * g == root - h && left * g == g - r * g;
    ProductNonnegative(r, g);
    ProductPositive(left, g);
  }

  lemma TimesOfTimes(m: int, n: int, g: real)
    ensures Times(m, Times(n, g)) == Times(m * n, g)
  {
    var x, y := m as real, n as real;
    assert (m * n) as real == x * y;
    assert (x * y) * g == x * (y * g);
  }

  lemma DifferentCells(a: Cell, b: Cell, h: real)
    requires h > 0.0 && a != b
    ensures At(a, h) != At(b, h)
  {
    if a.i < b.i {
      TimesOrdered(a.i, b.i, h);
    } else if a.i > b.i {
      TimesOrdered(b.i, a.i, h);
    } else if a.j < b.j {
      TimesOrdered(a.j, b.j, h);
    } else {
      TimesOrdered(b.j, a.j, h);
    }
  }

  lemma HeightsAt(a: Cell, c: Cell, h: real)
    requires h > 0.0
    ensures a.j <= c.j <==> At(a, h).y <= At(c, h).y
  {
    if a.j <= c.j {
      TimesOrdered(a.j, c.j, h);
    } else {
      TimesOrdered(c.j, a.j, h);
    }
  }

  // ---------- The shapes ----------

  /** A quadrilateral whose first and third edges cross, a unit of area before the end of the third. */
  const KNOT := [Cell(0, 0), Cell(1, 0), Cell(12, -8), Cell(-1, 1)]

  /** A sliver that grazes the unit square at its lower side, and is taken to pass it. */
  const SLIVER := [Cell(-1, 1), Cell(11, -7), Cell(12, -8), Cell(13, -9)]

  /** The corners of the unit square, from the lower left one. */
  const SQUARE := [Cell(0, 0), Cell(1, 0), Cell(1, 1), Cell(0, 1)]

  lemma KnotMeasures(c: Cell)
    ensures Turn(KNOT[0], KNOT[1], c) == c.j && Turn(KNOT[1], KNOT[2], c) == 11 * c.j + 8 * (c.i - 1)
    ensures Turn(KNOT[2], KNOT[3], c) == -13 * (c.j + 8) - 9 * (c.i - 12)
    ensures Turn(KNOT[3], KNOT[0], c) == c.i + c.j
    ensures CellCross(KNOT[0], c) == 0 && CellCross(KNOT[1], c) == c.j
    ensures CellCross(KNOT[2], c) == 12 * c.j + 8 * c.i && CellCross(KNOT[3], c) == -c.j - c.i
  {
  }

  lemma SliverMeasures(c: Cell)
    ensures Turn(SLIVER[0], SLIVER[1], c) == 12 * (c.j - 1) + 8 * (c.i + 1)
    ensures Turn(SLIVER[1], SLIVER[2], c) == c.j + 7 + (c.i - 11)
    ensures Turn(SLIVER[2], SLIVER[3], c) == c.j + 8 + (c.i - 12)
    ensures Turn(SLIVER[3], SLIVER[0], c) == -14 * (c.j + 9) - 10 * (c.i - 13)
    ensures CellCross(SLIVER[0], c) == -c.j - c.i && CellCross(SLIVER[1], c) == 11 * c.j + 7 * c.i
    ensures CellCross(SLIVER[2], c) == 12 * c.j + 8 * c.i && CellCross(SLIVER[3], c) == 13 * c.j + 9 * c.i
  {
  }

  lemma SquareTurns(c: Cell)
    ensures Turn(SQUARE[0], SQUARE[1], c) == c.j && Turn(SQUARE[1], SQUARE[2], c) == 1 - c.i
    ensures Turn(SQUARE[2], SQUARE[3], c) == 1 - c.j && Turn(SQUARE[3], SQUARE[0], c) == c.i
  {
  }

  /** The first and third edges of the knot share a point, and the test does not say so. */
  lemma MissedCrossing(h: real)
    requires Borderline(h)
    ensures ShareAPoint(At(KNOT[0], h), At(KNOT[1], h), At(KNOT[2], h), At(KNOT[3], h))
    ensures !SegmentsIntersect(At(KNOT[0], h), At(KNOT[1], h), At(KNOT[2], h), At(KNOT[3], h))
  {
    hide ShareAPoint, SegmentsIntersect, At, Turn, CellCross;
    KnotMeasures(KNOT[0]);
    KnotMeasures(KNOT[1]);
    KnotMeasures(KNOT[2]);
    KnotMeasures(KNOT[3]);
    UnseenAt(KNOT[0], KNOT[1], KNOT[2], KNOT[3], h);
    CrossAtAnyScale(KNOT[0], KNOT[1], KNOT[2], KNOT[3], h);
  }

  lemma SideUnseen(i: nat, j: nat)
    requires i < 4 && j < 4
    ensures var k, m := if i == 3 then 0 else i + 1, if j == 3 then 0 else j + 1;
            Unseen(SLIVER[i], SLIVER[k], SQUARE[j], SQUARE[m])
  {
    hide Turn, CellCross;
    SliverMeasures(SQUARE[j]);
    SliverMeasures(SQUARE[if j == 3 then 0 else j + 1]);
    SquareTurns(SLIVER[i]);
    SquareTurns(SLIVER[if i == 3 then 0 else i + 1]);
  }

  function CellArea(c: seq<Cell>): int
    requires |c| == 4
  {
    CellCross(c[0], c[1]) + CellCross(c[1], c[2]) + CellCross(c[2], c[3]) + CellCross(c[3], c[0])
  }

  /** A quadrilateral with area to spare whose opposite edges are taken to be apart at a borderline scale. */
  predicate LooksSimple(c: seq<Cell>) {
    && |c| == 4
    && c[0] != c[1] && c[1] != c[2] && c[2] != c[3] && c[3] != c[0]
    && (CellArea(c) >= 4 || CellArea(c) <= -4)
    && Unseen(c[0], c[1], c[2], c[3]) && Unseen(c[1], c[2], c[3], c[0])
  }

  lemma BothLookSimple()
    ensures LooksSimple(KNOT) && LooksSimple(SLIVER)
  {
    hide Turn, CellCross;
    KnotMeasures(KNOT[0]);
    KnotMeasures(KNOT[1]);
    KnotMeasures(KNOT[2]);
    KnotMeasures(KNOT[3]);
    SliverMeasures(SLIVER[0]);
    SliverMeasures(SLIVER[1]);
    SliverMeasures(SLIVER[2]);
    SliverMeasures(SLIVER[3]);
  }
}
