// What the coordinate pass is for, in terms of the wires and components alone (dispatcher.ts, lines 722-882):
// which nets there are, how they are named, and which pins they list.
module NetMeaning {
  import opened Options
  import opened Decimals
  import opened DisjointSets
  import opened NetNaming
  import opened NetInventory

  // ---------- Names ----------

  /** Points that wires make one: the same point, or joined by wires that each share a vertex with the next. */
  ghost predicate Touching(wires: seq<Wire>, p: Key, q: Key) {
    p == q || WiresConnect(wires, p, q)
  }

  /** A wire gives its name to what its first point touches. */
  ghost predicate NamedByWire(wires: seq<Wire>, k: Key, name: string) {
    exists w :: w in wires && w.net == name && name != "" && w.line != [] && WiresConnect(wires, w.line[0], k)
  }

  /** A net flag or a net port gives its net's name to what its point touches. */
  ghost predicate NamedByComponent(wires: seq<Wire>, components: seq<Component>, k: Key, name: string) {
    exists c, at ::
      && c in components && (c.kind == "netflag" || c.kind == "netport") && c.net == name && name != ""
      && c.at == Some(at) && Touching(wires, at, k)
  }

  ghost predicate Named(wires: seq<Wire>, components: seq<Component>, k: Key, name: string) {
    NamedByWire(wires, k, name) || NamedByComponent(wires, components, k, name)
  }

  ghost predicate OnWire(wires: seq<Wire>, k: Key) {
    exists w :: w in wires && k in w.line
  }

  /** A point of wires that nothing names. */
  ghost predicate Nameless(wires: seq<Wire>, components: seq<Component>, k: Key) {
    OnWire(wires, k) && forall name :: !Named(wires, components, k, name)
  }

  /** The first of the points that wires join to it. */
  ghost predicate First(wires: seq<Wire>, before: (Key, Key) -> bool, u: Key) {
    OnWire(wires, u) && forall v :: OnWire(wires, v) && WiresConnect(wires, u, v) && v != u ==> before(u, v)
  }

  /** The first points of nameless components that come before w. */
  ghost function NamelessBefore(wires: seq<Wire>, components: seq<Component>, before: (Key, Key) -> bool,
                                w: Key): set<Key> {
    set x, u |
      x in wires && u in x.line && First(wires, before, u) && Nameless(wires, components, u) && before(u, w) :: u
  }

  /** Names in use before wires are numbered: those of known nets, of wires and of flags and ports. */
  ghost predicate InUse(nets: NetMap, wires: seq<Wire>, components: seq<Component>, name: string) {
    || name in nets
    || (exists w :: w in wires && w.line != [] && w.net == name && name != "")
    || (exists c :: c in components && (c.kind == "netflag" || c.kind == "netport") && c.net == name && name != "" &&
          c.at.Some?)
  }

  /** The numbers from one on, below j, whose names are not in use. */
  ghost function UnusedBelow(nets: NetMap, wires: seq<Wire>, components: seq<Component>, j: nat): set<nat> {
    set i: nat | 1 <= i < j && !InUse(nets, wires, components, "N$" + Decimal(i))
  }

  /** N$ and a number from one on: the free one with exactly `rank` free ones below it. */
  ghost predicate Numbered(nets: NetMap, wires: seq<Wire>, components: seq<Component>, rank: nat, name: string) {
    exists j: nat ::
      && 1 <= j && name == "N$" + Decimal(j) && !InUse(nets, wires, components, name)
      && |UnusedBelow(nets, wires, components, j)| == rank
  }

  /** The nets of a point. */
  ghost predicate NetOf(nets: NetMap, wires: seq<Wire>, components: seq<Component>, before: (Key, Key) -> bool,
                        k: Key, name: string) {
    || Named(wires, components, k, name)
    || (Nameless(wires, components, k) && exists w ::
          && First(wires, before, w) && Touching(wires, w, k)
          && Numbered(nets, wires, components, |NamelessBefore(wires, components, before, w)|, name))
  }

  /** A component with this designator has a pin with this number at the point. */
  ghost predicate PinAt(components: seq<Component>, designator: string, number: string, k: Key) {
    exists c, p ::
      && c in components && p in c.pins && c.designator == designator && designator != ""
      && p.number == number && number != "" && p.at == Some(k)
  }

  ghost predicate PinOnNet(nets: NetMap, wires: seq<Wire>, components: seq<Component>, before: (Key, Key) -> bool,
                           name: string, designator: string, number: string) {
    exists k :: PinAt(components, designator, number, k) && NetOf(nets, wires, components, before, k, name)
  }

  /** The netlist: the nets known before and those of drawn points; the nodes known before and the pins on each net. */
  ghost predicate IsNetlist(nets: NetMap, wires: seq<Wire>, components: seq<Component>, before: (Key, Key) -> bool,
                            result: NetMap) {
    && (forall n :: n in result <==> n in nets || exists k :: NetOf(nets, wires, components, before, k, n))
    && (forall n, c, p :: Listed(result, n, c, p) <==>
          Listed(nets, n, c, p) || PinOnNet(nets, wires, components, before, n, c, p))
    && (forall n, m :: Has(result, n, m) ==> Has(nets, n, m) || NodeOnNet(nets, wires, components, before, n, m))
  }

  /** The node is a pin at its point, and the point is on the net. */
  ghost predicate NodeOnNet(nets: NetMap, wires: seq<Wire>, components: seq<Component>, before: (Key, Key) -> bool,
                            name: string, m: Node) {
    m.at.Some? && PinAt(components, m.component, m.pin, m.at.value) &&
      NetOf(nets, wires, components, before, m.at.value, name)
  }

  // ---------- The drawing has that meaning ----------

  lemma LinksWithin(wires: seq<Wire>)
    ensures Within(WireLinks(wires), Vertices(wires))
  {
    forall e | e in WireLinks(wires) ensures e.0 in Vertices(wires) && e.1 in Vertices(wires) {
      assert Step(WireLinks(wires), e.0, e.1);
      LinkIsOnWire(wires, e.0, e.1);
    }
  }

  lemma VertexIffOnWire(wires: seq<Wire>, k: Key)
    ensures k in Vertices(wires) <==> OnWire(wires, k)
  {
  }

  lemma ChainStartsOnWire(wires: seq<Wire>, chain: seq<Wire>, p: Key, q: Key)
    requires WireChain(wires, chain, p, q)
    ensures p in Vertices(wires)
  {
    assert chain[0] in wires && p in chain[0].line;
  }

  lemma TouchingIffJoined(wires: seq<Wire>, p: Key, q: Key)
    ensures Touching(wires, p, q) <==> Joined(WireLinks(wires), p, q)
  {
    hide WireLinks, Joined;
    if p in Vertices(wires) {
      JoinedIffWireChain(wires, p, q);
      if p == q {
        JoinedReflexive(WireLinks(wires), p);
      }
    } else {
      LinksWithin(wires);
      if Joined(WireLinks(wires), p, q) {
        Isolated(WireLinks(wires), Vertices(wires), p, q);
      }
      JoinedReflexive(WireLinks(wires), p);
      if chain: seq<Wire> :| WireChain(wires, chain, p, q) {
        ChainStartsOnWire(wires, chain, p, q);
      }
    }
  }

  /** A drawing made of these wires and components. */
  ghost predicate Draws(d: Drawing, wires: seq<Wire>, components: seq<Component>, nets: NetMap,
                        before: (Key, Key) -> bool) {
    && d.links == WireLinks(wires) && d.before == before
    && (forall k ::
          k in d.points <==> k in Vertices(wires) || exists l: Label :: l in FlagLabels(components) && l.0 == k)
    && d.labels == WireLabels(wires) + FlagLabels(components)
    && (forall n :: n in d.taken <==> n in nets || exists l: Label :: l in d.labels && l.1 == n)
  }

  lemma WireLabelled(wires: seq<Wire>, k: Key, name: string)
    ensures (exists a :: (a, name) in WireLabels(wires) && Joined(WireLinks(wires), a, k)) <==>
            NamedByWire(wires, k, name)
  {
    hide WireLinks, Joined;
    if a: Key :| (a, name) in WireLabels(wires) && Joined(WireLinks(wires), a, k) {
      var w :| w in wires && w.line != [] && w.net != "" && (w.line[0], w.net) == (a, name);
      assert w.line[0] in w.line && a in Vertices(wires);
      JoinedIffWireChain(wires, a, k);
    }
    if NamedByWire(wires, k, name) {
      var w :| w in wires && w.net == name && name != "" && w.line != [] && WiresConnect(wires, w.line[0], k);
      assert w.line[0] in w.line && w.line[0] in Vertices(wires);
      JoinedIffWireChain(wires, w.line[0], k);
      assert (w.line[0], name) in WireLabels(wires);
    }
  }

  lemma FlagLabelled(wires: seq<Wire>, components: seq<Component>, k: Key, name: string)
    ensures (exists a :: (a, name) in FlagLabels(components) && Joined(WireLinks(wires), a, k)) <==>
            NamedByComponent(wires, components, k, name)
  {
    hide WireLinks, Joined, Touching;
    if a: Key :| (a, name) in FlagLabels(components) && Joined(WireLinks(wires), a, k) {
      var c :| c in components && IsFlag(c) && (c.at.value, c.net) == (a, name);
      TouchingIffJoined(wires, a, k);
      assert c.at == Some(a);
    }
    if NamedByComponent(wires, components, k, name) {
      var c, at :|
        && c in components && (c.kind == "netflag" || c.kind == "netport") && c.net == name && name != ""
        && c.at == Some(at) && Touching(wires, at, k);
      TouchingIffJoined(wires, at, k);
      assert (at, name) == (c.at.value, c.net) && (at, name) in FlagLabels(components);
    }
  }

  lemma LabelledIffNamed(d: Drawing, wires: seq<Wire>, components: seq<Component>, nets: NetMap,
                         before: (Key, Key) -> bool, k: Key, name: string)
    requires Draws(d, wires, components, nets, before)
    ensures Labelled(d, k, name) <==> Named(wires, components, k, name)
  {
    hide WireLinks, Joined, WireLabels, FlagLabels, NamedByWire, NamedByComponent;
    WireLabelled(wires, k, name);
    FlagLabelled(wires, components, k, name);
    if Labelled(d, k, name) {
      var a :| (a, name) in d.labels && Joined(d.links, a, k);
      assert (a, name) in WireLabels(wires) || (a, name) in FlagLabels(components);
    }
  }

  lemma UnlabelledIffNameless(d: Drawing, wires: seq<Wire>, components: seq<Component>, nets: NetMap,
                              before: (Key, Key) -> bool, k: Key)
    requires Draws(d, wires, components, nets, before)
    ensures k in d.points && Unlabelled(d, k) <==> Nameless(wires, components, k)
    ensures Nameless(wires, components, k) ==> k in Vertices(wires)
  {
    hide WireLinks, Joined, WireLabels, FlagLabels, Named, OnWire, Vertices;
    VertexIffOnWire(wires, k);
    forall name ensures Labelled(d, k, name) <==> Named(wires, components, k, name) {
      LabelledIffNamed(d, wires, components, nets, before, k, name);
    }
    if Unlabelled(d, k) && k in d.points && k !in Vertices(wires) {
      var l: Label :| l in FlagLabels(components) && l.0 == k;
      FlagPointIsLabelled(d, wires, components, nets, before, l);
    }
    if !Unlabelled(d, k) {
      var a, name :| (a, name) in d.labels && Joined(d.links, a, k);
      assert Labelled(d, k, name);
    }
  }

  lemma FlagPointIsLabelled(d: Drawing, wires: seq<Wire>, components: seq<Component>, nets: NetMap,
                            before: (Key, Key) -> bool, l: Label)
    requires Draws(d, wires, components, nets, before) && l in FlagLabels(components)
    ensures !Unlabelled(d, l.0)
  {
    hide Joined, WireLinks, WireLabels;
    JoinedReflexive(d.links, l.0);
    assert (l.0, l.1) in d.labels;
  }

  lemma CanonicalIffFirst(d: Drawing, wires: seq<Wire>, components: seq<Component>, nets: NetMap,
                          before: (Key, Key) -> bool, u: Key)
    requires Draws(d, wires, components, nets, before) && u in Vertices(wires)
    ensures Canonical(d, u) <==> First(wires, before, u)
  {
    hide WireLinks, Joined, FlagLabels, WireLabels, WiresConnect;
    LinksWithin(wires);
    forall v ensures Joined(d.links, u, v) <==> WiresConnect(wires, u, v) {
      JoinedIffWireChain(wires, u, v);
    }
    forall v | Joined(d.links, u, v) ensures v in Vertices(wires) {
      if v !in Vertices(wires) {
        JoinedSymmetric(d.links, u, v);
        Isolated(d.links, Vertices(wires), v, u);
      }
    }
    forall v ensures v in Vertices(wires) <==> OnWire(wires, v) {
      VertexIffOnWire(wires, v);
    }
  }

  lemma EarlierIsNamelessBefore(d: Drawing, wires: seq<Wire>, components: seq<Component>, nets: NetMap,
                                before: (Key, Key) -> bool, w: Key)
    requires Draws(d, wires, components, nets, before)
    ensures Earlier(d, w) == NamelessBefore(wires, components, before, w)
  {
    hide Draws, Canonical, First, Unlabelled, Nameless;
    forall u ensures u in Earlier(d, w) <==> u in NamelessBefore(wires, components, before, w) {
      UnlabelledIffNameless(d, wires, components, nets, before, u);
      VertexIffOnWire(wires, u);
      if u in Vertices(wires) {
        CanonicalIffFirst(d, wires, components, nets, before, u);
      }
      assert d.before == before by {
        SameOrder(d, wires, components, nets, before);
      }
    }
  }

  lemma SameOrder(d: Drawing, wires: seq<Wire>, components: seq<Component>, nets: NetMap,
                  before: (Key, Key) -> bool)
    requires Draws(d, wires, components, nets, before)
    ensures d.before == before
  {
  }

  // ---------- Numbers ----------

  ghost function FreeBelow(taken: set<string>, j: nat): set<nat> {
    set i: nat | 1 <= i < j && Anonymous(i) !in taken
  }

  lemma {:induction false} FreeNumberRank(taken: set<string>, r: nat)
    ensures 1 <= FreeNumber(taken, r) && |FreeBelow(taken, FreeNumber(taken, r))| == r
  {
    hide Anonymous, NextFree;
    var j := FreeNumber(taken, r);
    if r == 0 {
      NextFreeIsLeast(taken, 1);
      assert FreeBelow(taken, j) == {};
    } else {
      var i := FreeNumber(taken, r - 1);
      FreeNumberRank(taken, r - 1);
      NextFreeIsLeast(taken, i + 1);
      assert Anonymous(i) !in taken;
      assert FreeBelow(taken, j) == FreeBelow(taken, i) + {i};
    }
  }

  lemma NextFreeIsLeast(taken: set<string>, n: nat)
    ensures n <= NextFree(taken, n) && forall k: nat :: n <= k < NextFree(taken, n) ==> Anonymous(k) in taken
  {
  }

  lemma FreeBelowGrows(taken: set<string>, i: nat, j: nat)
    requires 1 <= i < j && Anonymous(i) !in taken
    ensures |FreeBelow(taken, i)| < |FreeBelow(taken, j)|
  {
    hide Anonymous;
    ProperSubset(FreeBelow(taken, i), FreeBelow(taken, j), i);
  }

  /** A free number is known by how many free ones are below it. */
  lemma RankDecides(taken: set<string>, r: nat, j: nat)
    requires 1 <= j && Anonymous(j) !in taken
    ensures j == FreeNumber(taken, r) <==> |FreeBelow(taken, j)| == r
  {
    hide Anonymous, FreeBelow, FreeNumber;
    FreeNumberRank(taken, r);
    var f := FreeNumber(taken, r);
    if j < f {
      FreeBelowGrows(taken, j, f);
    } else if f < j {
      FreeIsFree(taken, r);
      FreeBelowGrows(taken, f, j);
    }
  }

  lemma FreeIsFree(taken: set<string>, r: nat)
    ensures Anonymous(FreeNumber(taken, r)) !in taken
  {
  }

  lemma TakenIffInUse(d: Drawing, wires: seq<Wire>, components: seq<Component>, nets: NetMap,
                      before: (Key, Key) -> bool, name: string)
    requires Draws(d, wires, components, nets, before)
    ensures name in d.taken <==> InUse(nets, wires, components, name)
  {
    hide WireLinks, Vertices;
    if exists w :: w in wires && w.line != [] && w.net == name && name != "" {
      var w :| w in wires && w.line != [] && w.net == name && name != "";
      assert (w.line[0], name) in d.labels;
    }
    if exists c :: c in components && IsFlag(c) && c.net == name {
      var c :| c in components && IsFlag(c) && c.net == name;
      assert (c.at.value, name) in d.labels;
    }
  }

  lemma NumberedIffFree(d: Drawing, wires: seq<Wire>, components: seq<Component>, nets: NetMap,
                        before: (Key, Key) -> bool, rank: nat, name: string)
    requires Draws(d, wires, components, nets, before)
    ensures name == Anonymous(FreeNumber(d.taken, rank)) <==> Numbered(nets, wires, components, rank, name)
  {
    hide Draws, InUse, FreeNumber;
    forall n ensures n in d.taken <==> InUse(nets, wires, components, n) {
      TakenIffInUse(d, wires, components, nets, before, n);
    }
    FreeNumberRank(d.taken, rank);
    FreeIsFree(d.taken, rank);
    var f := FreeNumber(d.taken, rank);
    if name == Anonymous(f) {
      FreeAreUnused(d.taken, wires, components, nets, f);
    }
    if Numbered(nets, wires, components, rank, name) {
      var j: nat :|
        && 1 <= j && name == "N$" + Decimal(j) && !InUse(nets, wires, components, name)
        && |UnusedBelow(nets, wires, components, j)| == rank;
      FreeAreUnused(d.taken, wires, components, nets, j);
      RankDecides(d.taken, rank, j);
    }
  }

  lemma FreeAreUnused(taken: set<string>, wires: seq<Wire>, components: seq<Component>, nets: NetMap, j: nat)
    requires forall n :: n in taken <==> InUse(nets, wires, components, n)
    ensures FreeBelow(taken, j) == UnusedBelow(nets, wires, components, j)
  {
    hide InUse;
  }

  // ---------- The theorem ----------

  /** The nets of a point in the drawing are the ones its wires and components give it. */
  lemma NetAtMeans(d: Drawing, wires: seq<Wire>, components: seq<Component>, nets: NetMap,
                   before: (Key, Key) -> bool, k: Key, name: string)
    requires Draws(d, wires, components, nets, before)
    ensures NetAt(d, k, name) <==> NetOf(nets, wires, components, before, k, name)
  {
    hide Draws, Named, Nameless, Labelled, Unlabelled, Canonical, First, Earlier, NamelessBefore, Numbered;
    hide Joined, Touching, WireLinks, Vertices, Anonymous, FreeNumber;
    LabelledIffNamed(d, wires, components, nets, before, k, name);
    UnlabelledIffNameless(d, wires, components, nets, before, k);
    if Nameless(wires, components, k) {
      forall w ensures Canonical(d, w) && Joined(d.links, w, k) && name == NameFrom(d, w) <==>
                       && First(wires, before, w) && Touching(wires, w, k)
                       && Numbered(nets, wires, components, |NamelessBefore(wires, components, before, w)|, name)
      {
        NumberOfComponent(d, wires, components, nets, before, w, k, name);
      }
    }
  }

  lemma NumberOfComponent(d: Drawing, wires: seq<Wire>, components: seq<Component>, nets: NetMap,
                          before: (Key, Key) -> bool, w: Key, k: Key, name: string)
    requires Draws(d, wires, components, nets, before) && k in Vertices(wires)
    ensures Canonical(d, w) && Joined(d.links, w, k) && name == NameFrom(d, w) <==>
            && First(wires, before, w) && Touching(wires, w, k)
            && Numbered(nets, wires, components, |NamelessBefore(wires, components, before, w)|, name)
  {
    hide Canonical, Earlier, NamelessBefore, Numbered, Joined, Touching, WireLinks, WireLabels, FlagLabels;
    hide Vertices, Anonymous, FreeNumber;
    TouchingIffJoined(wires, w, k);
    EarlierIsNamelessBefore(d, wires, components, nets, before, w);
    NumberedIffFree(d, wires, components, nets, before, |Earlier(d, w)|, name);
    if w in Vertices(wires) {
      CanonicalIffFirst(d, wires, components, nets, before, w);
    } else {
      VertexIffOnWire(wires, w);
      LinksWithin(wires);
      if Joined(d.links, w, k) {
        Isolated(d.links, Vertices(wires), w, k);
      }
    }
  }

  lemma PinPlacesMean(components: seq<Component>, designator: string, number: string, k: Key)
    ensures (designator, number, k) in PinPlaces(components) <==> PinAt(components, designator, number, k)
  {
    if PinAt(components, designator, number, k) {
      var c, p :| c in components && p in c.pins && c.designator == designator && designator != "" &&
                  p.number == number && number != "" && p.at == Some(k);
      assert (designator, number, k) == (c.designator, p.number, p.at.value);
    }
    if (designator, number, k) in PinPlaces(components) {
      var c, p :| c in components && c.designator != "" && p in c.pins && p.number != "" && p.at.Some? &&
                  (designator, number, k) == (c.designator, p.number, p.at.value);
      assert p.at == Some(k);
    }
  }

  /** Every point that has a net is drawn. */
  lemma NetsAreDrawn(d: Drawing, wires: seq<Wire>, components: seq<Component>, nets: NetMap,
                     before: (Key, Key) -> bool, k: Key, name: string)
    requires Draws(d, wires, components, nets, before) && NetAt(d, k, name)
    ensures k in d.points
  {
    hide WireLinks, Joined, Vertices;
    if Labelled(d, k, name) && k !in d.points {
      var a :| (a, name) in d.labels && Joined(d.links, a, k);
      LabelIsDrawn(d, wires, components, nets, before, a, name);
      LinksWithin(wires);
      JoinedSymmetric(d.links, a, k);
      Isolated(d.links, Vertices(wires), k, a);
    }
  }

  lemma LabelIsDrawn(d: Drawing, wires: seq<Wire>, components: seq<Component>, nets: NetMap,
                     before: (Key, Key) -> bool, a: Key, name: string)
    requires Draws(d, wires, components, nets, before) && (a, name) in d.labels
    ensures a in d.points
  {
    hide WireLinks;
    if (a, name) in FlagLabels(components) {
      assert (a, name).0 == a;
    } else {
      var w :| w in wires && w.line != [] && w.net != "" && (w.line[0], w.net) == (a, name);
      assert a in w.line;
    }
  }
}
