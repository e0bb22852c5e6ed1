// The coordinate pass as a whole: its result is the netlist of the drawing (dispatcher.ts, lines 785-882).
module NetReadback {
  import opened DisjointSets
  import opened NetNaming
  import opened NetInventory
  import opened NetOrdering
  import opened NetInference
  import opened NetMeaning

  // ---------- Names held by roots are nets of points ----------

  lemma SourcedIsLabelled(rep: Partition, labels: set<Label>, d: Drawing, k: Key, name: string)
    requires Partitions(rep, d.links) && d.labels == labels && k in rep
    requires forall a, n :: (a, n) in labels ==> a in rep
    ensures Sourced(rep, labels, k, name) <==> Labelled(d, k, name)
  {
    hide Joined;
    if Sourced(rep, labels, k, name) {
      var a :| (a, name) in labels && SameClass(rep, a, k);
      assert Joined(d.links, a, k);
    }
    if Labelled(d, k, name) {
      var a :| (a, name) in d.labels && Joined(d.links, a, k);
      assert SameClass(rep, a, k);
    }
  }

  lemma UnlabelledIsUnnamed(rep: Partition, names: RootNames, d: Drawing, k: Key)
    requires Partitions(rep, d.links) && SelfRepresenting(rep)
    requires KeepsLabels(rep, names, d.labels) && Normal(rep, names) && k in rep
    ensures Unlabelled(d, k) <==> rep[k] !in names
    ensures forall name :: Labelled(d, k, name) <==> Held(names, rep[k], name)
  {
    hide Joined, Sourced, Normal, Kept;
    var root := rep[k];
    assert SameClass(rep, k, root);
    NormalNames(rep, names, d.labels, k, root);
    forall name ensures Sourced(rep, d.labels, k, name) <==> Labelled(d, k, name) {
      SourcedIsLabelled(rep, d.labels, d, k, name);
    }
    if !Unlabelled(d, k) {
      var a, name :| (a, name) in d.labels && Joined(d.links, a, k);
      assert Labelled(d, k, name);
    }
  }

  lemma LeastIsCanonical(rep: Partition, d: Drawing, u: Key)
    requires Partitions(rep, d.links) && d.points == rep.Keys
    ensures Least(rep, d.before, u) <==> Canonical(d, u)
  {
    hide Joined;
    if u in rep {
      forall v | v in rep ensures rep[v] == rep[u] <==> Joined(d.links, u, v) {
      }
    }
  }

  lemma RanksAgree(rep: Partition, names: RootNames, d: Drawing, w: Key)
    requires Partitions(rep, d.links) && SelfRepresenting(rep) && d.points == rep.Keys
    requires KeepsLabels(rep, names, d.labels) && Normal(rep, names)
    ensures EarlierPoints(rep, d.before, names.Keys, w) == Earlier(d, w)
  {
    hide Partitions, SelfRepresenting, KeepsLabels, Normal, Least, Canonical, Unlabelled;
    forall u | u in rep ensures u in EarlierPoints(rep, d.before, names.Keys, w) <==> u in Earlier(d, w) {
      LeastIsCanonical(rep, d, u);
      UnlabelledIsUnnamed(rep, names, d, u);
    }
  }

  lemma {:induction false} Minimum(keys: set<Key>, before: (Key, Key) -> bool) returns (m: Key)
    requires StrictTotalOrder(before) && keys != {}
    ensures m in keys && forall v :: v in keys && v != m ==> before(m, v)
  {
    var k :| k in keys;
    m := k;
    if keys != {k} {
      var rest := keys - {k};
      assert keys == rest + {k};
      var least := Minimum(rest, before);
      m := if before(k, least) then k else least;
    }
  }

  lemma LeastExists(rep: Partition, before: (Key, Key) -> bool, k: Key) returns (w: Key)
    requires StrictTotalOrder(before) && k in rep
    ensures Least(rep, before, w) && rep[w] == rep[k]
  {
    var mates := set v | v in rep && rep[v] == rep[k];
    assert k in mates;
    w := Minimum(mates, before);
  }

  /** The naming pass leaves at every root exactly the nets of its points. */
  lemma NamesAreNets(rep: Partition, names: RootNames, d: Drawing, named: RootNames, k: Key)
    requires Partitions(rep, d.links) && SelfRepresenting(rep) && d.points == rep.Keys && StrictTotalOrder(d.before)
    requires KeepsLabels(rep, names, d.labels) && Normal(rep, names)
    requires AllNamed(rep, d.before, names, d.taken, named)
    ensures forall n :: n in NamesAt(rep, named, k) <==> NetAt(d, k, n)
  {
    if k !in rep {
      forall n ensures !NetAt(d, k, n) {
        StrayPointHasNoNet(rep, names, d, k, n);
      }
    } else {
      UnlabelledIsUnnamed(rep, names, d, k);
      if rep[k] in names {
        assert named[rep[k]] == names[rep[k]];
      } else {
        AnonymousNet(rep, names, d, named, k);
      }
    }
  }

  lemma StrayPointHasNoNet(rep: Partition, names: RootNames, d: Drawing, k: Key, n: string)
    requires Partitions(rep, d.links) && d.points == rep.Keys && KeepsLabels(rep, names, d.labels) && k !in rep
    ensures !NetAt(d, k, n)
  {
    hide Joined, Kept, Sourced;
    if Labelled(d, k, n) {
      var a :| (a, n) in d.labels && Joined(d.links, a, k);
      JoinedSymmetric(d.links, a, k);
      Isolated(d.links, rep.Keys, k, a);
    }
  }

  lemma AnonymousNet(rep: Partition, names: RootNames, d: Drawing, named: RootNames, k: Key)
    requires Partitions(rep, d.links) && SelfRepresenting(rep) && d.points == rep.Keys && StrictTotalOrder(d.before)
    requires KeepsLabels(rep, names, d.labels) && Normal(rep, names)
    requires AllNamed(rep, d.before, names, d.taken, named)
    requires k in rep && rep[k] !in names && Unlabelled(d, k)
    ensures forall n :: n in NamesAt(rep, named, k) <==> NetAt(d, k, n)
  {
    hide SelfRepresenting, KeepsLabels, Normal, Least, Canonical, Anonymous, FreeNumber, Joined;
    hide StrictTotalOrder, EarlierPoints, Earlier;
    var w := LeastExists(rep, d.before, k);
    assert w in rep by {
      LeastIsCanonical(rep, d, w);
      CanonicalIsPoint(d, w);
    }
    LeastIsCanonical(rep, d, w);
    RanksAgree(rep, names, d, w);
    assert NamesAt(rep, named, k) == {NameFrom(d, w)};
    assert Joined(d.links, w, k);
    JoinedSymmetric(d.links, w, k);
    forall n ensures NetAt(d, k, n) <==> n == NameFrom(d, w) {
      assert !Labelled(d, k, n);
      if NetAt(d, k, n) {
        var v :| Canonical(d, v) && Joined(d.links, v, k) && n == NameFrom(d, v);
        JoinedTransitive(d.links, v, k, w);
        CanonicalIsUnique(d, v, w);
      }
    }
  }

  // ---------- The whole pass ----------

  /** The drawing that the wires and the flags make, over the nets known before. */
  ghost function DrawingOf(wires: seq<Wire>, components: seq<Component>, nets: NetMap,
                           before: (Key, Key) -> bool): Drawing {
    var flags := FlagLabels(components);
    Drawing(Vertices(wires) + LabelPoints(flags), WireLinks(wires), WireLabels(wires) + flags,
            nets.Keys + LabelNames(WireLabels(wires)) + LabelNames(flags), before)
  }

  /** The order in which wires and components come changes nothing about the nets, names included. */
  lemma DrawingIgnoresOrder(wires: seq<Wire>, others: seq<Wire>, components: seq<Component>, rest: seq<Component>,
                            nets: NetMap, before: (Key, Key) -> bool)
    requires forall w :: w in wires <==> w in others
    requires forall c :: c in components <==> c in rest
    ensures DrawingOf(wires, components, nets, before) == DrawingOf(others, rest, nets, before)
    ensures PinPlaces(components) == PinPlaces(rest)
  {
    hide LabelPoints, LabelNames;
    WireOrderIrrelevant(wires, others);
    assert FlagLabels(components) == FlagLabels(rest);
  }

  /** The result has the old nets and the drawing's; each numbered pin is added to exactly the nets of its point. */
  ghost predicate ReadsBack(nets: NetMap, components: seq<Component>, d: Drawing, result: NetMap) {
    && (forall n :: n in result <==> n in nets || exists k :: k in d.points && NetAt(d, k, n))
    && (forall n, c, p :: Listed(result, n, c, p) <==> Listed(nets, n, c, p) || DrawnIn(components, d, n, c, p))
    && (forall n, m :: Has(result, n, m) ==> Has(nets, n, m) || NodeDrawn(components, d, n, m))
  }

  ghost predicate NodeDrawn(components: seq<Component>, d: Drawing, n: string, m: Node) {
    m.at.Some? && (m.component, m.pin, m.at.value) in PinPlaces(components) && NetAt(d, m.at.value, n)
  }

  ghost predicate DrawnIn(components: seq<Component>, d: Drawing, n: string, c: string, p: string) {
    exists k :: (c, p, k) in PinPlaces(components) && NetAt(d, k, n)
  }

  lemma EntriesListNothing(nets: NetMap, names: set<string>)
    ensures forall n, c, p :: Listed(WithEntries(nets, names), n, c, p) <==> Listed(nets, n, c, p)
    ensures forall n, m :: Has(WithEntries(nets, names), n, m) <==> Has(nets, n, m)
    ensures KeepsNodes(nets, WithEntries(nets, names))
    ensures UniqueNodes(nets) ==> UniqueNodes(WithEntries(nets, names))
  {
  }

  /** Before the pins are entered, every net of a point has an entry, and no other new entry is there. */
  lemma EntriesAreNets(rep: Partition, names: RootNames, d: Drawing, named: RootNames, nets: NetMap, middle: NetMap)
    requires Partitions(rep, d.links) && SelfRepresenting(rep) && d.points == rep.Keys && StrictTotalOrder(d.before)
    requires KeepsLabels(rep, names, d.labels) && Normal(rep, names)
    requires AllNamed(rep, d.before, names, d.taken, named)
    requires d.taken == nets.Keys + LabelNames(d.labels) && middle.Keys == d.taken + NewNames(names, named)
    ensures forall n :: n in middle <==> n in nets || exists k :: k in d.points && NetAt(d, k, n)
    ensures forall r :: r in named ==> named[r] <= middle.Keys
  {
    hide Partitions, SelfRepresenting, StrictTotalOrder, NetAt, Normal, Sourced, Kept;
    forall k ensures forall n :: n in NamesAt(rep, named, k) <==> NetAt(d, k, n) {
      NamesAreNets(rep, names, d, named, k);
    }
    forall n | n in middle && n !in nets ensures exists k :: k in d.points && NetAt(d, k, n) {
      if n in LabelNames(d.labels) {
        LabelIsNet(d, names, rep, n);
      } else {
        var r :| r in named && r !in names && n in named[r];
        assert n in NamesAt(rep, named, r);
      }
    }
    forall k, n | k in d.points && NetAt(d, k, n) ensures n in middle {
      assert n in NamesAt(rep, named, k);
      NamesHaveEntries(rep, names, d, named, rep[k]);
    }
    forall r | r in named ensures named[r] <= middle.Keys {
      NamesHaveEntries(rep, names, d, named, r);
    }
  }

  lemma LabelIsNet(d: Drawing, names: RootNames, rep: Partition, n: string)
    requires KeepsLabels(rep, names, d.labels) && d.points == rep.Keys && n in LabelNames(d.labels)
    ensures exists k :: k in d.points && NetAt(d, k, n)
  {
    hide Joined, Sourced, Kept;
    var l :| l in d.labels && l.1 == n;
    assert (l.0, n) in d.labels;
    JoinedReflexive(d.links, l.0);
    assert Labelled(d, l.0, n);
    assert NetAt(d, l.0, n);
  }

  lemma NamesHaveEntries(rep: Partition, names: RootNames, d: Drawing, named: RootNames, r: Key)
    requires KeepsLabels(rep, names, d.labels) && r in named && (r in names ==> named[r] == names[r])
    ensures named[r] <= LabelNames(d.labels) + NewNames(names, named)
  {
    forall n | n in named[r] ensures n in LabelNames(d.labels) + NewNames(names, named) {
      if r in names {
        assert Held(names, r, n);
        var a :| (a, n) in d.labels && SameClass(rep, a, r);
        assert (a, n).1 in LabelNames(d.labels);
      }
    }
  }

  /** No name is empty, so entering a pin never falls to the guard against empty names. */
  lemma NoEmptyName(rep: Partition, names: RootNames, d: Drawing, named: RootNames)
    requires KeepsLabels(rep, names, d.labels) && SelfRepresenting(rep) && StrictTotalOrder(d.before)
    requires forall l :: l in d.labels ==> l.1 != ""
    requires AllNamed(rep, d.before, names, d.taken, named)
    ensures forall r :: r in named ==> "" !in named[r]
  {
    hide SelfRepresenting, StrictTotalOrder, Least, EarlierPoints, FreeNumber;
    forall r | r in named ensures "" !in named[r] {
      if r in names {
        assert forall n :: n in named[r] ==> Held(names, r, n);
        assert forall n :: Sourced(rep, d.labels, r, n) ==> n in LabelNames(d.labels);
      } else {
        var w := LeastExists(rep, d.before, r);
        assert named[r] == {NameOf(rep, d.before, names.Keys, d.taken, w)};
      }
    }
  }

  /** What holds once all components are named: roots hold the nets of their points, and every net has an entry. */
  ghost predicate Prepared(nets: NetMap, d: Drawing, rep: Partition, named: RootNames, middle: NetMap) {
    && named.Keys <= rep.Keys
    && (forall k, n :: n in NamesAt(rep, named, k) <==> NetAt(d, k, n))
    && (forall r :: r in named ==> "" !in named[r] && named[r] <= middle.Keys)
    && (forall n :: n in middle <==> n in nets || exists k :: k in d.points && NetAt(d, k, n))
    && (forall n, c, p :: Listed(middle, n, c, p) <==> Listed(nets, n, c, p))
    && (forall n, m :: Has(middle, n, m) <==> Has(nets, n, m))
    && KeepsNodes(nets, middle) && (UniqueNodes(nets) ==> UniqueNodes(middle))
  }

  lemma NamingPrepares(nets: NetMap, wires: seq<Wire>, components: seq<Component>, before: (Key, Key) -> bool,
                       rep: Partition, names: RootNames, entered: NetMap, named: RootNames, middle: NetMap)
    requires StrictTotalOrder(before)
    requires var d := DrawingOf(wires, components, nets, before);
             && Partitions(rep, d.links) && SelfRepresenting(rep) && d.points == rep.Keys
             && KeepsLabels(rep, names, d.labels) && Normal(rep, names)
    requires entered == WithEntries(WithEntries(nets, LabelNames(WireLabels(wires))),
      LabelNames(FlagLabels(components)))
    requires AllNamed(rep, before, names, entered.Keys, named) && middle == WithEntries(entered, NewNames(names, named))
    ensures Prepared(nets, DrawingOf(wires, components, nets, before), rep, named, middle)
  {
    hide Partitions, SelfRepresenting, StrictTotalOrder, NetAt, Normal, KeepsLabels, AllNamed, Listed, Has;
    hide KeepsNodes, UniqueNodes, NewNames, NamesAt, WithEntries, Vertices, WireLinks, LabelPoints;
    var d := DrawingOf(wires, components, nets, before);
    var wireNames, flagNames := LabelNames(WireLabels(wires)), LabelNames(FlagLabels(components));
    WithMoreEntries(nets, wireNames, flagNames);
    WithMoreEntries(nets, wireNames + flagNames, NewNames(names, named));
    EntriesKeys(nets, wireNames + flagNames);
    EntriesKeys(entered, NewNames(names, named));
    EntriesListNothing(nets, wireNames + flagNames + NewNames(names, named));
    assert entered.Keys == d.taken;
    assert LabelNames(d.labels) == wireNames + flagNames;
    forall k ensures forall n :: n in NamesAt(rep, named, k) <==> NetAt(d, k, n) {
      NamesAreNets(rep, names, d, named, k);
    }
    EntriesAreNets(rep, names, d, named, nets, middle);
    NamedAreKeys(rep, names, d, named);
    NoLabelIsEmpty(wires, components);
    NoEmptyName(rep, names, d, named);
  }

  lemma NoLabelIsEmpty(wires: seq<Wire>, components: seq<Component>)
    ensures forall l :: l in WireLabels(wires) + FlagLabels(components) ==> l.1 != ""
  {
  }

  lemma NamedAreKeys(rep: Partition, names: RootNames, d: Drawing, named: RootNames)
    requires AllNamed(rep, d.before, names, d.taken, named)
    ensures named.Keys <= rep.Keys
  {
  }

  lemma PinsComplete(nets: NetMap, components: seq<Component>, d: Drawing, rep: Partition, named: RootNames,
                     middle: NetMap, result: NetMap)
    requires Prepared(nets, d, rep, named, middle)
    requires ListsPins(middle, rep, named, PinPlaces(components), result) && result.Keys == middle.Keys
    ensures ReadsBack(nets, components, d, result)
  {
    hide NetAt, Listed, NamesAt, KeepsNodes, UniqueNodes, PinPlaces, Has;
    forall n, c, p ensures PlacedIn(rep, named, PinPlaces(components), n, c, p) <==> DrawnIn(components, d, n, c, p) {
      if PlacedIn(rep, named, PinPlaces(components), n, c, p) {
        var k :| (c, p, k) in PinPlaces(components) && n in NamesAt(rep, named, k);
        assert NetAt(d, k, n);
      }
      if DrawnIn(components, d, n, c, p) {
        var k :| (c, p, k) in PinPlaces(components) && NetAt(d, k, n);
        assert n in NamesAt(rep, named, k);
      }
    }
  }

  lemma PreparedForPins(nets: NetMap, d: Drawing, rep: Partition, named: RootNames, middle: NetMap)
    requires Prepared(nets, d, rep, named, middle)
    ensures named.Keys <= rep.Keys && forall r :: r in named ==> "" !in named[r] && named[r] <= middle.Keys
    ensures KeepsNodes(nets, middle) && (UniqueNodes(nets) ==> UniqueNodes(middle))
  {
  }

  lemma DrawingDraws(wires: seq<Wire>, components: seq<Component>, nets: NetMap, before: (Key, Key) -> bool)
    ensures Draws(DrawingOf(wires, components, nets, before), wires, components, nets, before)
  {
    hide WireLinks, Vertices, WireLabels, FlagLabels;
  }

  /** So the result is the netlist that the wires and components mean. */
  lemma ReadsBackNetlist(nets: NetMap, wires: seq<Wire>, components: seq<Component>, before: (Key, Key) -> bool,
                         result: NetMap)
    requires ReadsBack(nets, components, DrawingOf(wires, components, nets, before), result)
    ensures IsNetlist(nets, wires, components, before, result)
  {
    hide NetAt, NetOf, Listed, PinPlaces, DrawingOf, Draws, PinAt, Has;
    var d := DrawingOf(wires, components, nets, before);
    DrawingDraws(wires, components, nets, before);
    forall k, n ensures NetAt(d, k, n) <==> NetOf(nets, wires, components, before, k, n) {
      NetAtMeans(d, wires, components, nets, before, k, n);
    }
    forall k, n | NetAt(d, k, n) ensures k in d.points {
      NetsAreDrawn(d, wires, components, nets, before, k, n);
    }
    forall c, p, k ensures (c, p, k) in PinPlaces(components) <==> PinAt(components, c, p, k) {
      PinPlacesMean(components, c, p, k);
    }
    forall n, c, p ensures DrawnIn(components, d, n, c, p) <==>
                           PinOnNet(nets, wires, components, before, n, c, p) {
      PinsOnNets(nets, wires, components, before, n, c, p);
    }
  }

  lemma PinsOnNets(nets: NetMap, wires: seq<Wire>, components: seq<Component>, before: (Key, Key) -> bool,
                   n: string, c: string, p: string)
    requires var d := DrawingOf(wires, components, nets, before);
             forall k, m :: NetAt(d, k, m) <==> NetOf(nets, wires, components, before, k, m)
    ensures DrawnIn(components, DrawingOf(wires, components, nets, before), n, c, p) <==>
            PinOnNet(nets, wires, components, before, n, c, p)
  {
    hide NetAt, NetOf, PinPlaces, DrawingOf;
    forall k ensures (c, p, k) in PinPlaces(components) <==> PinAt(components, c, p, k) {
      PinPlacesMean(components, c, p, k);
    }
  }

  /**
   * The coordinate pass: afterwards every numbered pin is listed, once for each, in exactly the nets of its point,
   * next to the nodes that were there before.
   */
  method AddCoordinateFallbackNets(nets: NetMap, wires: seq<Wire>, components: seq<Component>,
                                   before: (Key, Key) -> bool)
    returns (result: NetMap)
    requires StrictTotalOrder(before)
    ensures IsNetlist(nets, wires, components, before, result)
    ensures ReadsBack(nets, components, DrawingOf(wires, components, nets, before), result)
    ensures UniqueNodes(nets) ==> UniqueNodes(result)
    ensures KeepsNodes(nets, result)
  {
    hide Forest, Partitions, SelfRepresenting, KeepsLabels, Normal, AllNamed, NewNames, WithEntries, Prepared;
    hide ListsPins, KeepsNodes, UniqueNodes, ReadsBack, IsNetlist, StrictTotalOrder, WireLinks, WireLabels, Vertices;
    hide LabelNames, LabelPoints, FlagLabels, PinPlaces;
    var pass := new CoordinateNets(nets);
    pass.AddWires(wires);
    pass.Renormalise();
    pass.AddFlags(components);
    ghost var rep, names, entered := pass.dsu.rep, pass.rootNetNames, pass.netMap;
    pass.AddUnnamedWireNetLabels(before);
    ghost var d, named, middle := DrawingOf(wires, components, nets, before), pass.rootNetNames, pass.netMap;
    NamingPrepares(nets, wires, components, before, rep, names, entered, named, middle);
    PreparedForPins(nets, d, rep, named, middle);
    pass.AddPins(components);
    result := pass.netMap;
    PinsComplete(nets, components, d, rep, named, middle, result);
    KeepsNodesTransitive(nets, middle, result);
    ReadsBackNetlist(nets, wires, components, before, result);
  }
}
