// Whether a new schematic wire would touch a foreign net (dispatcher.ts, lines 294-371, 404-519, 671-673).
//
// Native wires merge by shared coordinates, so the guard compares the route with every wire of
// another net and with every pin, flag and port that is attributed to another net.
module CollisionGuard {
  import opened Options
  import opened SegmentGeometry

  type NetName = string

  // ---------- Axis-aligned segments ----------

  predicate PointOnAxisAlignedSegment(p: Point, a: Point, b: Point) {
    if a.x == b.x then p.x == a.x && Between(p.y, a.y, b.y)
    else if a.y == b.y then p.y == a.y && Between(p.x, a.x, b.x)
    else p == a || p == b
  }

  function AxisAlignedSegmentIntersection(a1: Point, a2: Point, b1: Point, b2: Point): Option<Point> {
    var aVertical, aHorizontal := a1.x == a2.x, a1.y == a2.y;
    var bVertical, bHorizontal := b1.x == b2.x, b1.y == b2.y;
    var y := Max(Min(a1.y, a2.y), Min(b1.y, b2.y));
    var x := Max(Min(a1.x, a2.x), Min(b1.x, b2.x));
    if aVertical && bVertical && a1.x == b1.x && Between(y, a1.y, a2.y) && Between(y, b1.y, b2.y) then
      Some(Point(a1.x, y))
    else if aHorizontal && bHorizontal && a1.y == b1.y && Between(x, a1.x, a2.x) && Between(x, b1.x, b2.x) then
      Some(Point(x, a1.y))
    else if aVertical && bHorizontal && Between(a1.x, b1.x, b2.x) && Between(b1.y, a1.y, a2.y) then
      Some(Point(a1.x, b1.y))
    else if aHorizontal && bVertical && Between(b1.x, a1.x, a2.x) && Between(a1.y, b1.y, b2.y) then
      Some(Point(b1.x, a1.y))
    else
      None
  }

  predicate AxisAligned(a: Point, b: Point) {
    a.x == b.x || a.y == b.y
  }

  /** On an axis-aligned segment, being on the segment is being in its bounding box. */
  lemma LiesInBox(p: Point, a: Point, b: Point)
    requires AxisAligned(a, b)
    ensures Lies(p, a, b) <==> Between(p.x, a.x, b.x) && Between(p.y, a.y, b.y)
    ensures PointOnAxisAlignedSegment(p, a, b) <==> Lies(p, a, b)
  {
    LiesIsExact(a, b, p);
    if a.x == b.x && p.x == a.x {
      assert Orientation(a, b, p) == 0.0;
    } else if a.y == b.y && p.y == a.y {
      assert Orientation(a, b, p) == 0.0;
    }
  }

  /** The result is a common point, and there is one exactly if both segments are axis-aligned and share a point. */
  lemma IntersectionCorrect(a1: Point, a2: Point, b1: Point, b2: Point)
    ensures var r := AxisAlignedSegmentIntersection(a1, a2, b1, b2);
            && (r.Some? ==> Lies(r.value, a1, a2) && Lies(r.value, b1, b2))
            && (r.Some? <==> AxisAligned(a1, a2) && AxisAligned(b1, b2) && ShareAPoint(a1, a2, b1, b2))
  {
    if AxisAligned(a1, a2) && AxisAligned(b1, b2) {
      AlignedIntersection(a1, a2, b1, b2);
    }
  }

  lemma AlignedIntersection(a1: Point, a2: Point, b1: Point, b2: Point)
    requires AxisAligned(a1, a2) && AxisAligned(b1, b2)
    ensures var r := AxisAlignedSegmentIntersection(a1, a2, b1, b2);
            && (r.Some? ==> Lies(r.value, a1, a2) && Lies(r.value, b1, b2))
            && (r.None? <==> !ShareAPoint(a1, a2, b1, b2))
  {
    var r := AxisAlignedSegmentIntersection(a1, a2, b1, b2);
    forall p
      ensures Lies(p, a1, a2) <==> Between(p.x, a1.x, a2.x) && Between(p.y, a1.y, a2.y)
      ensures Lies(p, b1, b2) <==> Between(p.x, b1.x, b2.x) && Between(p.y, b1.y, b2.y)
    {
      LiesInBox(p, a1, a2);
      LiesInBox(p, b1, b2);
    }
    if ShareAPoint(a1, a2, b1, b2) {
      var p: Point :| Lies(p, a1, a2) && Lies(p, b1, b2);
      assert Between(p.x, a1.x, a2.x) && Between(p.x, b1.x, b2.x) && Between(p.y, a1.y, a2.y) &&
        Between(p.y, b1.y, b2.y);
    }
  }

  // ---------- Polylines ----------

  predicate Rectilinear(points: seq<Point>) {
    forall i: nat {:trigger points[i]} :: i + 1 < |points| ==> AxisAligned(points[i], points[i + 1])
  }

  /** p is on some segment of the polyline. */
  ghost predicate OnRoute(p: Point, points: seq<Point>) {
    exists i: nat {:trigger points[i]} :: i + 1 < |points| && Lies(p, points[i], points[i + 1])
  }

  /** All points of an axis-aligned segment, and the ends alone of a diagonal one. */
  ghost predicate TakenOnSegment(p: Point, a: Point, b: Point) {
    if AxisAligned(a, b) then Lies(p, a, b) else p == a || p == b
  }

  /** What the code takes for a point of a polyline: the point itself if there is one only. */
  ghost predicate TakenOn(p: Point, points: seq<Point>) {
    || points == [p]
    || exists i: nat {:trigger points[i]} :: i + 1 < |points| && TakenOnSegment(p, points[i], points[i + 1])
  }

  lemma SegmentPointIsTaken(p: Point, a: Point, b: Point)
    ensures PointOnAxisAlignedSegment(p, a, b) <==> TakenOnSegment(p, a, b)
    ensures TakenOnSegment(p, a, b) ==> Lies(p, a, b)
  {
    if AxisAligned(a, b) {
      LiesInBox(p, a, b);
    } else {
      EndsLie(a, b);
    }
  }

  method PointOnPolyline(p: Point, points: seq<Point>) returns (r: bool)
    ensures r <==> TakenOn(p, points)
    ensures r ==> OnRoute(p, points) || points == [p]
    ensures |points| >= 2 && Rectilinear(points) ==> (r <==> OnRoute(p, points))
  {
    if |points| == 1 {
      return p == points[0];
    }
    forall i: nat | i + 1 < |points|
      ensures PointOnAxisAlignedSegment(p, points[i], points[i + 1]) <==> TakenOnSegment(p, points[i], points[i + 1])
      ensures TakenOnSegment(p, points[i], points[i + 1]) ==> Lies(p, points[i], points[i + 1])
    {
      SegmentPointIsTaken(p, points[i], points[i + 1]);
    }
    hide Lies, PointOnAxisAlignedSegment;
    var i := 0;
    while i + 1 < |points|
      invariant 0 <= i
      invariant forall k: nat {:trigger points[k]} :: k < i && k + 1 < |points| ==>
        !PointOnAxisAlignedSegment(p, points[k], points[k + 1])
    {
      if PointOnAxisAlignedSegment(p, points[i], points[i + 1]) {
        return true;
      }
      i := i + 1;
    }
    return false;
  }

  function SegmentMeeting(a: seq<Point>, b: seq<Point>, i: nat, j: nat): Option<Point>
    requires i + 1 < |a| && j + 1 < |b|
  {
    AxisAlignedSegmentIntersection(a[i], a[i + 1], b[j], b[j + 1])
  }

  ghost predicate RoutesMeet(a: seq<Point>, b: seq<Point>) {
    exists p :: OnRoute(p, a) && OnRoute(p, b)
  }

  /** Axis-aligned segments of both, the i-th and the j-th, share a point. */
  ghost predicate AlignedPartsMeet(a: seq<Point>, b: seq<Point>, i: nat, j: nat)
    requires i + 1 < |a| && j + 1 < |b|
  {
    AxisAligned(a[i], a[i + 1]) && AxisAligned(b[j], b[j + 1]) && ShareAPoint(a[i], a[i + 1], b[j], b[j + 1])
  }

  ghost predicate SomePartsMeet(a: seq<Point>, b: seq<Point>) {
    exists i: nat, j: nat :: i + 1 < |a| && j + 1 < |b| && AlignedPartsMeet(a, b, i, j)
  }

  lemma SegmentMeetingCorrect(a: seq<Point>, b: seq<Point>, i: nat, j: nat)
    requires i + 1 < |a| && j + 1 < |b|
    ensures var r := SegmentMeeting(a, b, i, j);
            && (r.Some? ==> OnRoute(r.value, a) && OnRoute(r.value, b))
            && (r.Some? <==> AlignedPartsMeet(a, b, i, j))
  {
    IntersectionCorrect(a[i], a[i + 1], b[j], b[j + 1]);
  }

  /** Axis-aligned polylines meet exactly if segments of them do. */
  lemma PartsAreAll(a: seq<Point>, b: seq<Point>)
    requires Rectilinear(a) && Rectilinear(b)
    ensures SomePartsMeet(a, b) <==> RoutesMeet(a, b)
  {
    hide Lies;
    if RoutesMeet(a, b) {
      var p: Point :| OnRoute(p, a) && OnRoute(p, b);
      var i: nat :| i + 1 < |a| && Lies(p, a[i], a[i + 1]);
      var j: nat :| j + 1 < |b| && Lies(p, b[j], b[j + 1]);
      assert AlignedPartsMeet(a, b, i, j);
    }
    if SomePartsMeet(a, b) {
      var i: nat, j: nat :| i + 1 < |a| && j + 1 < |b| && AlignedPartsMeet(a, b, i, j);
      var p: Point :| Lies(p, a[i], a[i + 1]) && Lies(p, b[j], b[j + 1]);
      assert OnRoute(p, a) && OnRoute(p, b);
    }
  }

  method PolylineIntersection(a: seq<Point>, b: seq<Point>) returns (r: Option<Point>)
    ensures r.Some? ==> OnRoute(r.value, a) && OnRoute(r.value, b)
    ensures r.Some? <==> SomePartsMeet(a, b)
    ensures Rectilinear(a) && Rectilinear(b) ==> (r.None? <==> !RoutesMeet(a, b))
    ensures r.Some? ==> exists i: nat, j: nat :: i + 1 < |a| && j + 1 < |b| && r == SegmentMeeting(a, b, i, j)
    ensures r.None? ==> forall i: nat, j: nat :: i + 1 < |a| && j + 1 < |b| ==> SegmentMeeting(a, b, i, j).None?
  {
    hide SegmentMeeting, AlignedPartsMeet;
    if Rectilinear(a) && Rectilinear(b) {
      PartsAreAll(a, b);
    }
    forall i: nat, j: nat | i + 1 < |a| && j + 1 < |b|
      ensures SegmentMeeting(a, b, i, j).Some? <==> AlignedPartsMeet(a, b, i, j)
    {
      SegmentMeetingCorrect(a, b, i, j);
    }
    var i := 0;
    while i + 1 < |a|
      invariant 0 <= i
      invariant forall k: nat, m: nat :: k < i && k + 1 < |a| && m + 1 < |b| ==> SegmentMeeting(a, b, k, m).None?
    {
      var j := 0;
      while j + 1 < |b|
        invariant 0 <= j
        invariant forall m: nat :: m < j && m + 1 < |b| ==> SegmentMeeting(a, b, i, m).None?
      {
        r := SegmentMeeting(a, b, i, j);
        if r.Some? {
          SegmentMeetingCorrect(a, b, i, j);
          return;
        }
        j := j + 1;
      }
      i := i + 1;
    }
    return None;
  }

  // ---------- The guard ----------

  datatype Wire = Wire(net: NetName, line: seq<Point>)

  /** A pin, flag or port with the net it is attributed to. */
  datatype Mark = Mark(at: Point, net: NetName)

  datatype CollisionKind = WithWire | WithPinOrFlag

  datatype Collision = Collision(at: Point, foreignNet: NetName, kind: CollisionKind)

  predicate Foreign(net: NetName, own: NetName) {
    net != "" && net != own
  }

  /** Coordinates are keyed in thousandths, halves rounded up. */
  function Round(v: real): real {
    (v * 1000.0 + 0.5).Floor as real / 1000.0
  }

  /** The point that a mark's key is read back as. */
  function Rounded(p: Point): Point {
    Point(Round(p.x), Round(p.y))
  }

  predicate WholeThousandths(v: real) {
    (v * 1000.0).Floor as real == v * 1000.0
  }

  predicate OnGrid(p: Point) {
    WholeThousandths(p.x) && WholeThousandths(p.y)
  }

  /** p is the grid point that stands for a mark at q: less than half a thousandth below it, or at most that above. */
  predicate KeyedAt(q: Point, p: Point) {
    OnGrid(p) && -0.0005 < p.x - q.x <= 0.0005 && -0.0005 < p.y - q.y <= 0.0005
  }

  /** Whole thousandths stay, and nothing moves further than half a thousandth. */
  lemma RoundedToThousandths(v: real, n: int)
    ensures Round(n as real / 1000.0) == n as real / 1000.0
    ensures WholeThousandths(n as real / 1000.0)
    ensures WholeThousandths(Round(v)) && -0.0005 < Round(v) - v <= 0.0005
  {
    assert (n as real + 0.5).Floor == n;
  }

  lemma NearestIsUnique(v: real, a: real, b: real)
    requires WholeThousandths(a) && WholeThousandths(b)
    requires -0.0005 < a - v <= 0.0005 && -0.0005 < b - v <= 0.0005
    ensures a == b
  {
    WholeNumbersWithinOne((a * 1000.0).Floor, (b * 1000.0).Floor);
  }

  lemma WholeNumbersWithinOne(m: int, n: int)
    ensures -1.0 < m as real - n as real < 1.0 ==> m == n
  {
  }

  lemma RoundedIsKey(q: Point, p: Point)
    ensures Rounded(q) == p <==> KeyedAt(q, p)
  {
    hide Round, WholeThousandths;
    RoundedToThousandths(q.x, 0);
    RoundedToThousandths(q.y, 0);
    if KeyedAt(q, p) {
      NearestIsUnique(q.x, p.x, Round(q.x));
      NearestIsUnique(q.y, p.y, Round(q.y));
    }
  }

  /** A mark on the grid is keyed where it is, and nowhere else. */
  lemma GridMarkStays(q: Point, p: Point)
    requires OnGrid(q)
    ensures KeyedAt(q, p) <==> p == q
  {
    hide WholeThousandths;
    if KeyedAt(q, p) {
      NearestIsUnique(q.x, p.x, q.x);
      NearestIsUnique(q.y, p.y, q.y);
    }
  }

  /** The last mark that is keyed at p has this net. */
  ghost predicate Shown(marks: seq<Mark>, p: Point, net: NetName) {
    exists k :: 0 <= k < |marks| && ShownBy(marks, k, p) && marks[k].net == net
  }

  ghost predicate ShownBy(marks: seq<Mark>, k: nat, p: Point)
    requires k < |marks|
  {
    KeyedAt(marks[k].at, p) && forall j :: k < j < |marks| ==> !KeyedAt(marks[j].at, p)
  }

  lemma ShownOnce(marks: seq<Mark>, p: Point, a: NetName, b: NetName)
    requires Shown(marks, p, a) && Shown(marks, p, b)
    ensures a == b
  {
    hide KeyedAt;
  }

  /** A mark that follows hides what was shown at its key, and nothing else. */
  lemma ShownAfter(marks: seq<Mark>, last: Mark, p: Point, net: NetName)
    ensures Shown(marks + [last], p, net) <==> if KeyedAt(last.at, p) then last.net == net else Shown(marks, p, net)
  {
    hide KeyedAt;
    var all := marks + [last];
    if KeyedAt(last.at, p) {
      assert ShownBy(all, |marks|, p);
    } else {
      forall k: nat | k < |marks| ensures ShownBy(all, k, p) <==> ShownBy(marks, k, p) {
        assert forall j :: 0 <= j < |marks| ==> all[j] == marks[j];
      }
    }
  }

  /** A keyed mark is shown, or a later one hides it. */
  lemma {:induction false} KeyShowsOne(marks: seq<Mark>, m: Mark, p: Point) returns (net: NetName)
    requires m in marks && KeyedAt(m.at, p)
    ensures Shown(marks, p, net)
    decreases |marks|
  {
    hide KeyedAt, Shown;
    var last := |marks| - 1;
    assert marks == marks[..last] + [marks[last]];
    if KeyedAt(marks[last].at, p) {
      net := marks[last].net;
    } else {
      net := KeyShowsOne(marks[..last], m, p);
    }
    ShownAfter(marks[..last], marks[last], p, net);
  }

  /** What is entered for the flags is shown over what is entered for the pins. */
  lemma {:induction false} FlagsHidePins(pins: seq<Mark>, flags: seq<Mark>, p: Point, net: NetName)
    ensures Shown(pins + flags, p, net) <==>
      Shown(flags, p, net) || (Shown(pins, p, net) && forall f :: f in flags ==> !KeyedAt(f.at, p))
    decreases |flags|
  {
    hide KeyedAt;
    if flags == [] {
      assert pins + flags == pins;
    } else {
      var last := |flags| - 1;
      assert flags == flags[..last] + [flags[last]];
      assert pins + flags == (pins + flags[..last]) + [flags[last]];
      FlagsHidePins(pins, flags[..last], p, net);
      ShownAfter(pins + flags[..last], flags[last], p, net);
      ShownAfter(flags[..last], flags[last], p, net);
    }
  }

  ghost predicate Holds(m: map<Point, NetName>, p: Point, net: NetName) {
    p in m && m[p] == net
  }

  method CollectCoordinateNets(marks: seq<Mark>) returns (coordToNet: map<Point, NetName>)
    ensures forall p, net :: Holds(coordToNet, p, net) <==> Shown(marks, p, net)
  {
    hide Rounded, KeyedAt, Shown;
    coordToNet := map[];
    assert forall p, net :: !Shown([], p, net) by {
      NothingShown();
    }
    for i := 0 to |marks|
      invariant forall p, net :: Holds(coordToNet, p, net) <==> Shown(marks[..i], p, net)
    {
      assert marks[..i + 1] == marks[..i] + [marks[i]];
      var entered := coordToNet[Rounded(marks[i].at) := marks[i].net];
      forall p, net ensures Holds(entered, p, net) <==> Shown(marks[..i + 1], p, net) {
        RoundedIsKey(marks[i].at, p);
        ShownAfter(marks[..i], marks[i], p, net);
      }
      coordToNet := entered;
    }
    assert marks[..|marks|] == marks;
  }

  lemma NothingShown()
    ensures forall p, net :: !Shown([], p, net)
  {
  }

  /** Flags and ports are entered after the pins, over them where they share a coordinate. */
  method BuildForeignConnectivityMap(pins: seq<Mark>, flags: seq<Mark>) returns (m: map<Point, NetName>)
    ensures forall p, net :: Holds(m, p, net) <==> Shown(pins + flags, p, net)
  {
    var pinCoords := CollectCoordinateNets(pins);
    var flagCoords := CollectCoordinateNets(flags);
    hide KeyedAt, Shown;
    forall p, net ensures Shown(pins + flags, p, net) <==> Holds(pinCoords + flagCoords, p, net) {
      FlagsHidePins(pins, flags, p, net);
      FlagKeys(flags, flagCoords, p);
    }
    return pinCoords + flagCoords;
  }

  lemma FlagKeys(flags: seq<Mark>, coords: map<Point, NetName>, p: Point)
    requires forall q, net :: Holds(coords, q, net) <==> Shown(flags, q, net)
    ensures p in coords <==> exists f :: f in flags && KeyedAt(f.at, p)
  {
    hide KeyedAt;
    if p in coords {
      assert Holds(coords, p, coords[p]);
      var k :| 0 <= k < |flags| && ShownBy(flags, k, p);
      assert flags[k] in flags;
    }
    if f :| f in flags && KeyedAt(f.at, p) {
      var net := KeyShowsOne(flags, f, p);
      assert Holds(coords, p, net);
    }
  }

  ghost predicate WiresClear(route: seq<Point>, netName: NetName, wires: seq<Wire>) {
    forall w :: w in wires && Foreign(w.net, netName) ==> !RoutesMeet(route, w.line)
  }

  ghost predicate WiresSeenClear(route: seq<Point>, netName: NetName, wires: seq<Wire>) {
    forall w :: w in wires && Foreign(w.net, netName) ==> !SomePartsMeet(route, w.line)
  }

  ghost predicate MarksClear(route: seq<Point>, netName: NetName, pins: seq<Mark>, flags: seq<Mark>) {
    forall p, net :: Shown(pins + flags, p, net) && Foreign(net, netName) ==> !OnRoute(p, route)
  }

  /** No foreign wire and no foreign mark that is shown is met, as far as the code sees. */
  ghost predicate SeenClear(route: seq<Point>, netName: NetName, wires: seq<Wire>, pins: seq<Mark>, flags: seq<Mark>) {
    && WiresSeenClear(route, netName, wires)
    && (forall p, net :: Shown(pins + flags, p, net) && Foreign(net, netName) ==> !TakenOn(p, route))
  }

  /**
   * A reported collision is a shared point with a foreign wire, or else the key of a foreign mark that is shown and
   * that the route passes.
   */
  ghost predicate Genuine(c: Collision, route: seq<Point>, netName: NetName, wires: seq<Wire>, pins: seq<Mark>,
                          flags: seq<Mark>) {
    && (OnRoute(c.at, route) || route == [c.at])
    && Foreign(c.foreignNet, netName)
    && match c.kind
       case WithWire => exists w :: w in wires && w.net == c.foreignNet && OnRoute(c.at, w.line)
       case WithPinOrFlag => WiresSeenClear(route, netName, wires) && Shown(pins + flags, c.at, c.foreignNet)
  }

  method FindForeignNetCollision(
    route: seq<Point>, netName: NetName, wires: seq<Wire>, pins: seq<Mark>, flags: seq<Mark>)
    returns (r: Option<Collision>)
    ensures netName == "" || route == [] ==> r.None?
    ensures r.Some? ==> Genuine(r.value, route, netName, wires, pins, flags)
    ensures netName != "" ==> (r.None? <==> SeenClear(route, netName, wires, pins, flags))
    ensures && netName != "" && |route| >= 2 && Rectilinear(route)
            && (forall w :: w in wires ==> Rectilinear(w.line)) ==>
              (r.None? <==> WiresClear(route, netName, wires) && MarksClear(route, netName, pins, flags))
  {
    hide OnRoute, RoutesMeet, SegmentMeeting, Shown, SomePartsMeet, TakenOn;
    if netName == "" || route == [] {
      EmptyRouteIsClear(netName, wires, pins, flags);
      return None;
    }
    if |route| >= 2 && Rectilinear(route) && forall w :: w in wires ==> Rectilinear(w.line) {
      SeenIsAll(route, netName, wires, pins, flags);
    }
    for i := 0 to |wires|
      invariant forall k :: 0 <= k < i && Foreign(wires[k].net, netName) ==> !SomePartsMeet(route, wires[k].line)
    {
      if wires[i].net != "" && wires[i].net != netName {
        var intersection := PolylineIntersection(route, wires[i].line);
        if intersection.Some? {
          return Some(Collision(intersection.value, wires[i].net, WithWire));
        }
      }
    }
    var foreignMap := BuildForeignConnectivityMap(pins, flags);
    var left := foreignMap.Keys;
    while left != {}
      invariant left <= foreignMap.Keys
      invariant forall p :: p in foreignMap.Keys - left && Foreign(foreignMap[p], netName) ==> !TakenOn(p, route)
    {
      var p :| p in left;
      if foreignMap[p] != "" && foreignMap[p] != netName {
        assert Holds(foreignMap, p, foreignMap[p]);
        var on := PointOnPolyline(p, route);
        if on {
          return Some(Collision(p, foreignMap[p], WithPinOrFlag));
        }
      }
      left := left - {p};
    }
    return None;
  }

  lemma EmptyRouteIsClear(netName: NetName, wires: seq<Wire>, pins: seq<Mark>, flags: seq<Mark>)
    ensures SeenClear([], netName, wires, pins, flags)
  {
  }

  /** On axis-aligned polylines the code sees every meeting. */
  lemma SeenIsAll(route: seq<Point>, netName: NetName, wires: seq<Wire>, pins: seq<Mark>, flags: seq<Mark>)
    requires |route| >= 2 && Rectilinear(route) && forall w :: w in wires ==> Rectilinear(w.line)
    ensures SeenClear(route, netName, wires, pins, flags) <==>
            WiresClear(route, netName, wires) && MarksClear(route, netName, pins, flags)
  {
    hide OnRoute, RoutesMeet, Shown, SomePartsMeet, TakenOn;
    forall w | w in wires ensures SomePartsMeet(route, w.line) <==> RoutesMeet(route, w.line) {
      PartsAreAll(route, w.line);
    }
    forall p ensures TakenOn(p, route) <==> OnRoute(p, route) {
      TakenOnRoute(p, route);
    }
  }

  lemma TakenOnRoute(p: Point, route: seq<Point>)
    requires |route| >= 2 && Rectilinear(route)
    ensures TakenOn(p, route) <==> OnRoute(p, route)
  {
    hide Lies;
  }

  // ---------- What a clear verdict is worth ----------

  /** Every pin, flag and port with a net is on the thousandths grid, and the last mark keyed there has the same net. */
  ghost predicate MarksFaithful(pins: seq<Mark>, flags: seq<Mark>) {
    forall m :: m in pins + flags && m.net != "" ==> OnGrid(m.at) && Shown(pins + flags, m.at, m.net)
  }

  ghost predicate NoForeignMarkOnRoute(route: seq<Point>, netName: NetName, pins: seq<Mark>, flags: seq<Mark>) {
    forall m :: m in pins + flags && Foreign(m.net, netName) ==> !OnRoute(m.at, route)
  }

  lemma StubTouches(p: Point)
    ensures Rectilinear([p, p]) && OnRoute(p, [p, p])
    ensures forall q :: OnRoute(q, [p, p]) ==> q == p
  {
    EndsLie(p, p);
    var route := [p, p];
    assert Lies(p, route[0], route[1]);
    forall q | OnRoute(q, route) ensures q == p {
      LiesIsExact(p, p, q);
    }
  }

  /**
   * A route that the guard clears passes no foreign pin, flag or port, for every route and net, exactly when all marks
   * are on the thousandths grid and none is hidden by a later mark of another net.  A mark between grid points is
   * tested where it is not, and of two marks of different nets with one key only one is seen.
   */
  lemma GuardSeesAllMarksIff(pins: seq<Mark>, flags: seq<Mark>)
    ensures (forall route: seq<Point>, netName: NetName ::
               netName != "" && |route| >= 2 && Rectilinear(route) && MarksClear(route, netName, pins, flags) ==>
                 NoForeignMarkOnRoute(route, netName, pins, flags))
            <==> MarksFaithful(pins, flags)
  {
    hide OnRoute, Shown, KeyedAt;
    if !MarksFaithful(pins, flags) {
      var m :| m in pins + flags && m.net != "" && !(OnGrid(m.at) && Shown(pins + flags, m.at, m.net));
      UnseenMark(pins, flags, m);
    }
  }

  /** A stub of a wire at a mark that is rounded away or hidden is cleared for some other net. */
  lemma UnseenMark(pins: seq<Mark>, flags: seq<Mark>, m: Mark)
    requires m in pins + flags && m.net != ""
    requires !(OnGrid(m.at) && Shown(pins + flags, m.at, m.net))
    ensures exists route: seq<Point>, netName: NetName ::
      && netName != "" && |route| >= 2 && Rectilinear(route)
      && MarksClear(route, netName, pins, flags) && !NoForeignMarkOnRoute(route, netName, pins, flags)
  {
    hide OnRoute, Shown, OnGrid;
    StubTouches(m.at);
    var route := [m.at, m.at];
    var own := m.net + "x";
    assert |own| == |m.net| + 1;
    if OnGrid(m.at) {
      GridMarkStays(m.at, m.at);
      var kept := KeyShowsOne(pins + flags, m, m.at);
      forall net | Shown(pins + flags, m.at, net) ensures net == kept {
        ShownOnce(pins + flags, m.at, net, kept);
      }
      own := if kept != "" then kept else own;
    } else {
      forall net ensures !Shown(pins + flags, m.at, net) {
        OffGridIsNotShown(pins + flags, m.at, net);
      }
    }
    assert Foreign(m.net, own);
    assert MarksClear(route, own, pins, flags) && !NoForeignMarkOnRoute(route, own, pins, flags);
  }

  lemma OffGridIsNotShown(marks: seq<Mark>, p: Point, net: NetName)
    requires !OnGrid(p)
    ensures !Shown(marks, p, net)
  {
  }

  /** For faithful marks the guard raises no false alarm either. */
  lemma FaithfulMarksExact(pins: seq<Mark>, flags: seq<Mark>, route: seq<Point>, netName: NetName)
    requires MarksFaithful(pins, flags)
    ensures MarksClear(route, netName, pins, flags) <==> NoForeignMarkOnRoute(route, netName, pins, flags)
  {
    hide OnRoute, KeyedAt, OnGrid;
    forall p, net | Shown(pins + flags, p, net) && net != ""
      ensures exists m :: m in pins + flags && m.at == p && m.net == net
    {
      var k :| 0 <= k < |pins + flags| && ShownBy(pins + flags, k, p) && (pins + flags)[k].net == net;
      assert (pins + flags)[k] in pins + flags;
      GridMarkStays((pins + flags)[k].at, p);
    }
  }

  /** A pin four tenths of a thousandth off a vertical route's grid line lies on the route and is not seen. */
  lemma RoundedPinIsMissed()
    ensures var pin, route := Mark(Point(0.0004, 5.0), "A"), [Point(0.0004, 0.0), Point(0.0004, 10.0)];
            && MarksClear(route, "B", [pin], []) && !NoForeignMarkOnRoute(route, "B", [pin], [])
  {
    var pin, route := Mark(Point(0.0004, 5.0), "A"), [Point(0.0004, 0.0), Point(0.0004, 10.0)];
    assert [pin] + [] == [pin];
    assert !OnGrid(pin.at) by {
      assert (0.0004 * 1000.0).Floor == 0;
    }
    forall p | OnRoute(p, route) ensures !OnGrid(p) {
      LiesIsExact(route[0], route[1], p);
      assert (p.x * 1000.0).Floor == 0;
    }
    LiesInBox(pin.at, route[0], route[1]);
    assert Lies(pin.at, route[0], route[1]);
    assert OnRoute(pin.at, route);
  }
}
