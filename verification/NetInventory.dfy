// What the inferred netlist is meant to be: nets as connected components of the drawn wires.
module NetInventory {
  import opened Options
  import opened DisjointSets
  import opened NetNaming

  datatype Wire = Wire(net: string, line: seq<Key>)

  datatype Pin = Pin(number: string, at: Option<Key>)

  datatype Component = Component(kind: string, net: string, at: Option<Key>, designator: string, pins: seq<Pin>)

  datatype Node = Node(component: string, pin: string, at: Option<Key>)

  type NetMap = map<string, seq<Node>>

  /** A name attached at a point. */
  type Label = (Key, string)

  // ---------- Reading the drawing ----------

  function LineLinks(line: seq<Key>): Links {
    if |line| < 2 then {}
    else LineLinks(line[..|line| - 1]) + {(line[|line| - 2], line[|line| - 1])}
  }

  function WireLinks(wires: seq<Wire>): Links {
    if wires == [] then {}
    else WireLinks(wires[..|wires| - 1]) + LineLinks(wires[|wires| - 1].line)
  }

  function Vertices(wires: seq<Wire>): set<Key> {
    set w, k | w in wires && k in w.line :: k
  }

  function WireLabels(wires: seq<Wire>): set<Label> {
    set w | w in wires && w.line != [] && w.net != "" :: (w.line[0], w.net)
  }

  predicate IsFlag(c: Component) {
    (c.kind == "netflag" || c.kind == "netport") && c.net != "" && c.at.Some?
  }

  function FlagLabels(components: seq<Component>): set<Label> {
    set c | c in components && IsFlag(c) :: (c.at.value, c.net)
  }

  /** The numbered pins of the designated components, with their coordinates. */
  function PinPlaces(components: seq<Component>): set<(string, string, Key)> {
    set c, p | c in components && c.designator != "" && p in c.pins && p.number != "" && p.at.Some? ::
      (c.designator, p.number, p.at.value)
  }

  // ---------- Naming components ----------

  ghost predicate StrictTotalOrder(before: (Key, Key) -> bool) {
    && (forall a :: !before(a, a))
    && (forall a, b :: a != b ==> before(a, b) || before(b, a))
    && (forall a, b, c :: before(a, b) && before(b, c) ==> before(a, c))
  }

  /** The drawing a netlist is inferred from, the net names already in use, and the order of points. */
  datatype Drawing = Drawing(points: set<Key>, links: Links, labels: set<Label>, taken: set<string>,
    before: (Key, Key) -> bool)

  ghost predicate Labelled(d: Drawing, k: Key, name: string) {
    exists a :: (a, name) in d.labels && Joined(d.links, a, k)
  }

  ghost predicate Unlabelled(d: Drawing, k: Key) {
    forall a, name :: (a, name) in d.labels ==> !Joined(d.links, a, k)
  }

  /** The first point of its component. */
  ghost predicate Canonical(d: Drawing, u: Key) {
    u in d.points && forall v :: v in d.points && Joined(d.links, u, v) && v != u ==> d.before(u, v)
  }

  /** The canonical points of unlabelled components that come before w. */
  ghost function Earlier(d: Drawing, w: Key): set<Key> {
    set u | u in d.points && Canonical(d, u) && Unlabelled(d, u) && d.before(u, w)
  }

  ghost function NameFrom(d: Drawing, w: Key): string {
    Anonymous(FreeNumber(d.taken, |Earlier(d, w)|))
  }

  /**
   * The nets of a point: the labels of its component or, where there is none, the anonymous name that the
   * component's rank among the unlabelled ones gives it.
   */
  ghost predicate NetAt(d: Drawing, k: Key, name: string) {
    || Labelled(d, k, name)
    || (k in d.points && Unlabelled(d, k) && exists w ::
      Canonical(d, w) && Joined(d.links, w, k) && name == NameFrom(d, w))
  }

  ghost predicate Listed(nets: NetMap, name: string, component: string, pin: string) {
    name in nets && exists node :: node in nets[name] && node.component == component && node.pin == pin
  }

  predicate Has(nets: NetMap, name: string, node: Node) {
    name in nets && node in nets[name]
  }

  /** Within a net, each pin of a component appears once. */
  ghost predicate UniqueNodes(nets: NetMap) {
    forall name, i, j :: name in nets && 0 <= i < j < |nets[name]| ==>
      nets[name][i].component != nets[name][j].component || nets[name][i].pin != nets[name][j].pin
  }

  // ---------- Consequences for every drawing ----------

  /** Points of one component have the same nets. */
  lemma ConnectedPointsShareNets(d: Drawing, p: Key, q: Key, name: string)
    requires Joined(d.links, p, q) && Within(d.links, d.points) && p in d.points && q in d.points
    ensures NetAt(d, p, name) <==> NetAt(d, q, name)
  {
    JoinedSymmetric(d.links, p, q);
    if NetAt(d, p, name) {
      NetsMove(d, p, q, name);
    }
    if NetAt(d, q, name) {
      NetsMove(d, q, p, name);
    }
  }

  lemma NetsMove(d: Drawing, p: Key, q: Key, name: string)
    requires Joined(d.links, p, q) && Joined(d.links, q, p) && q in d.points && NetAt(d, p, name)
    ensures NetAt(d, q, name)
  {
    hide Joined, Canonical, NameFrom;
    if Labelled(d, p, name) {
      var a :| (a, name) in d.labels && Joined(d.links, a, p);
      JoinedTransitive(d.links, a, p, q);
    } else {
      var w :| Canonical(d, w) && Joined(d.links, w, p) && name == NameFrom(d, w);
      JoinedTransitive(d.links, w, p, q);
      forall a, n | (a, n) in d.labels ensures !Joined(d.links, a, q) {
        if Joined(d.links, a, q) {
          JoinedTransitive(d.links, a, q, p);
        }
      }
    }
  }

  lemma CanonicalIsUnique(d: Drawing, u: Key, v: Key)
    requires StrictTotalOrder(d.before) && Canonical(d, u) && Canonical(d, v) && Joined(d.links, u, v)
    ensures u == v
  {
    JoinedSymmetric(d.links, u, v);
    assert u != v ==> d.before(u, v) && d.before(v, u);
  }

  /** Different unlabelled components have different anonymous names. */
  lemma AnonymousNamesDiffer(d: Drawing, u: Key, v: Key)
    requires StrictTotalOrder(d.before) && u != v
    requires Canonical(d, u) && Canonical(d, v) && Unlabelled(d, u) && Unlabelled(d, v)
    ensures NameFrom(d, u) != NameFrom(d, v)
    ensures NameFrom(d, u) !in d.taken
  {
    hide Canonical, Unlabelled;
    if d.before(u, v) {
      EarlierGrows(d, u, v);
    } else {
      EarlierGrows(d, v, u);
    }
    FreeNamesDistinct(d.taken, |Earlier(d, u)|, |Earlier(d, v)|);
  }

  lemma EarlierGrows(d: Drawing, u: Key, v: Key)
    requires StrictTotalOrder(d.before) && d.before(u, v) && Canonical(d, u) && Unlabelled(d, u)
    ensures |Earlier(d, u)| < |Earlier(d, v)|
  {
    hide Canonical, Unlabelled;
    assert u in d.points by {
      CanonicalIsPoint(d, u);
    }
    var a, b := Earlier(d, u), Earlier(d, v);
    assert u in b && u !in a && a <= b;
    ProperSubset(a, b, u);
  }

  lemma CanonicalIsPoint(d: Drawing, u: Key)
    requires Canonical(d, u)
    ensures u in d.points
  {
  }

  lemma ProperSubset<T>(a: set<T>, b: set<T>, x: T)
    requires a <= b && x in b && x !in a
    ensures |a| < |b|
  {
    Cardinality(a, b - {x});
  }

  lemma Cardinality<T>(a: set<T>, b: set<T>)
    requires a <= b
    ensures |a| <= |b|
  {
    if a != {} {
      var x :| x in a;
      Cardinality(a - {x}, b - {x});
    }
  }

  /** Redrawing the same wires in another order changes nothing that the nets depend on. */
  lemma WireOrderIrrelevant(wires: seq<Wire>, reordered: seq<Wire>)
    requires forall w :: w in wires <==> w in reordered
    ensures WireLinks(wires) == WireLinks(reordered)
    ensures Vertices(wires) == Vertices(reordered)
    ensures WireLabels(wires) == WireLabels(reordered)
  {
    forall e ensures e in WireLinks(wires) <==> e in WireLinks(reordered) {
      WireLinksMember(wires, e);
      WireLinksMember(reordered, e);
    }
  }

  lemma {:induction false} WireLinksMember(wires: seq<Wire>, e: (Key, Key))
    ensures e in WireLinks(wires) <==> exists w :: w in wires && e in LineLinks(w.line)
  {
    if wires != [] {
      var rest, last := wires[..|wires| - 1], wires[|wires| - 1];
      assert wires == rest + [last];
      WireLinksMember(rest, e);
    }
  }

  // ---------- Links and chains of wires ----------

  predicate WiresShareVertex(v: Wire, w: Wire) {
    exists k :: k in v.line && k in w.line
  }

  /** Wires from one on p to one on q, each sharing a vertex with the next. */
  ghost predicate WireChain(wires: seq<Wire>, chain: seq<Wire>, p: Key, q: Key) {
    && chain != [] && p in chain[0].line && q in chain[|chain| - 1].line
    && (forall i {:trigger chain[i]} :: 0 <= i < |chain| ==> chain[i] in wires)
    && (forall i {:trigger chain[i]} :: 0 <= i < |chain| - 1 ==> WiresShareVertex(chain[i], chain[i + 1]))
  }

  ghost predicate WiresConnect(wires: seq<Wire>, p: Key, q: Key) {
    exists chain :: WireChain(wires, chain, p, q)
  }

  lemma {:induction false} LineLinksMember(line: seq<Key>, e: (Key, Key))
    ensures e in LineLinks(line) <==> exists i {:trigger line[i]} :: 0 <= i < |line| - 1 && e == (line[i], line[i + 1])
  {
    if |line| >= 2 {
      var rest := line[..|line| - 1];
      LineLinksMember(rest, e);
      var n := |line| - 2;
      assert rest[n] == line[n];
      if i :| 0 <= i < |line| - 1 && e == (line[i], line[i + 1]) {
        if i < n {
          assert rest[i] == line[i] && rest[i + 1] == line[i + 1];
        }
      }
      if i :| 0 <= i < |rest| - 1 && e == (rest[i], rest[i + 1]) {
        assert line[i] == rest[i] && line[i + 1] == rest[i + 1];
      }
    }
  }

  /** Vertices of one wire are joined by it. */
  lemma {:induction false} LineJoins(links: Links, line: seq<Key>, i: nat, j: nat)
    requires LineLinks(line) <= links && i <= j < |line|
    ensures Joined(links, line[i], line[j])
    decreases j
  {
    if i == j {
      JoinedReflexive(links, line[i]);
    } else {
      LineJoins(links, line, i, j - 1);
      LineLinksMember(line, (line[j - 1], line[j]));
      JoinedStep(links, line[j - 1], line[j]);
      JoinedTransitive(links, line[i], line[j - 1], line[j]);
    }
  }

  lemma WireJoins(wires: seq<Wire>, w: Wire, p: Key, q: Key)
    requires w in wires && p in w.line && q in w.line
    ensures Joined(WireLinks(wires), p, q)
  {
    var links := WireLinks(wires);
    forall e | e in LineLinks(w.line) ensures e in links {
      WireLinksMember(wires, e);
    }
    var i: nat :| i < |w.line| && w.line[i] == p;
    var j: nat :| j < |w.line| && w.line[j] == q;
    if i <= j {
      LineJoins(links, w.line, i, j);
    } else {
      LineJoins(links, w.line, j, i);
      JoinedSymmetric(links, q, p);
    }
  }

  lemma {:induction false} WireChainJoins(wires: seq<Wire>, chain: seq<Wire>, p: Key, q: Key)
    requires WireChain(wires, chain, p, q)
    ensures Joined(WireLinks(wires), p, q)
    decreases |chain|
  {
    if |chain| == 1 {
      WireJoins(wires, chain[0], p, q);
    } else {
      assert WiresShareVertex(chain[0], chain[1]);
      var k :| k in chain[0].line && k in chain[1].line;
      WireJoins(wires, chain[0], p, k);
      assert WireChain(wires, chain[1..], k, q);
      WireChainJoins(wires, chain[1..], k, q);
      JoinedTransitive(WireLinks(wires), p, k, q);
    }
  }

  lemma LinkIsOnWire(wires: seq<Wire>, p: Key, q: Key)
    requires Step(WireLinks(wires), p, q)
    ensures exists w :: w in wires && p in w.line && q in w.line
  {
    var e := if (p, q) in WireLinks(wires) then (p, q) else (q, p);
    WireLinksMember(wires, e);
    var w :| w in wires && e in LineLinks(w.line);
    LineLinksMember(w.line, e);
  }

  lemma {:induction false} ChainOfWires(wires: seq<Wire>, path: seq<Key>) returns (chain: seq<Wire>)
    requires Chain(WireLinks(wires), path) && path[0] in Vertices(wires)
    ensures WireChain(wires, chain, path[0], path[|path| - 1])
  {
    if |path| == 1 {
      var w :| w in wires && path[0] in w.line;
      chain := [w];
    } else {
      assert Step(WireLinks(wires), path[0], path[1]);
      LinkIsOnWire(wires, path[0], path[1]);
      var w :| w in wires && path[0] in w.line && path[1] in w.line;
      assert Chain(WireLinks(wires), path[1..]);
      var rest := ChainOfWires(wires, path[1..]);
      chain := [w] + rest;
      assert WiresShareVertex(chain[0], chain[1]);
      forall i | 0 <= i < |chain| - 1 ensures WiresShareVertex(chain[i], chain[i + 1]) {
        if i > 0 {
          assert chain[i] == rest[i - 1] && chain[i + 1] == rest[i];
        }
      }
    }
  }

  /** Being joined by links is being joined by a chain of wires that share vertices. */
  lemma JoinedIffWireChain(wires: seq<Wire>, p: Key, q: Key)
    requires p in Vertices(wires)
    ensures Joined(WireLinks(wires), p, q) <==> WiresConnect(wires, p, q)
  {
    if Joined(WireLinks(wires), p, q) {
      var path :| Chain(WireLinks(wires), path) && path[0] == p && path[|path| - 1] == q;
      var chain := ChainOfWires(wires, path);
    }
    if chain :| WireChain(wires, chain, p, q) {
      WireChainJoins(wires, chain, p, q);
    }
  }
}
