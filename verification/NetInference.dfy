// Inferring nets from wire coordinates with a disjoint set (dispatcher.ts, lines 702-731, 754-882).
module NetInference {
  import opened DisjointSets
  import opened NetNaming
  import opened NetInventory
  import opened NetOrdering

  // ---------- Labels kept by root ----------

  type RootNames = map<Key, set<string>>

  predicate Held(names: RootNames, r: Key, name: string) {
    r in names && name in names[r]
  }

  predicate SameClass(rep: Partition, p: Key, q: Key) {
    p in rep && q in rep && rep[p] == rep[q]
  }

  /** The class of r has the name as a label. */
  ghost predicate Sourced(rep: Partition, labels: set<Label>, r: Key, name: string) {
    exists a :: (a, name) in labels && SameClass(rep, a, r)
  }

  /** Some root, former or present, of the class of a holds the name. */
  ghost predicate Kept(rep: Partition, names: RootNames, a: Key, name: string) {
    exists r :: Held(names, r, name) && SameClass(rep, r, a)
  }

  /** Each class holds exactly the names that were attached in it, perhaps spread over former roots. */
  ghost predicate KeepsLabels(rep: Partition, names: RootNames, labels: set<Label>) {
    && names.Keys <= rep.Keys
    && (forall r :: r in names ==> names[r] != {})
    && (forall r, name :: Held(names, r, name) ==> Sourced(rep, labels, r, name))
    && (forall a, name :: (a, name) in labels ==> a in rep && Kept(rep, names, a, name))
  }

  /** All names are kept at roots. */
  ghost predicate Normal(rep: Partition, names: RootNames) {
    forall r :: r in names ==> r in rep && rep[r] == r
  }

  ghost predicate Coarser(rep: Partition, more: Partition) {
    && rep.Keys <= more.Keys
    && forall p, q :: SameClass(rep, p, q) ==> SameClass(more, p, q)
  }

  lemma CoarserKeepsLabels(rep: Partition, more: Partition, names: RootNames, labels: set<Label>)
    requires KeepsLabels(rep, names, labels) && Coarser(rep, more)
    ensures KeepsLabels(more, names, labels)
  {
    hide Sourced, Kept;
    forall r, name | Held(names, r, name) ensures Sourced(more, labels, r, name) {
      SourcedCoarser(rep, more, labels, r, name);
    }
    forall a, name | (a, name) in labels ensures Kept(more, names, a, name) {
      KeptCoarser(rep, more, names, a, name);
    }
  }

  lemma SourcedCoarser(rep: Partition, more: Partition, labels: set<Label>, r: Key, name: string)
    requires Sourced(rep, labels, r, name) && Coarser(rep, more)
    ensures Sourced(more, labels, r, name)
  {
    var a :| (a, name) in labels && SameClass(rep, a, r);
    assert SameClass(more, a, r);
  }

  lemma KeptCoarser(rep: Partition, more: Partition, names: RootNames, a: Key, name: string)
    requires Kept(rep, names, a, name) && Coarser(rep, more)
    ensures Kept(more, names, a, name)
  {
    var r :| Held(names, r, name) && SameClass(rep, r, a);
    assert SameClass(more, r, a);
  }

  lemma WithKeyCoarser(rep: Partition, p: Key)
    ensures Coarser(rep, WithKey(rep, p))
  {
  }

  lemma MergedCoarser(rep: Partition, a: Key, b: Key)
    requires a in rep && b in rep
    ensures Coarser(rep, Merged(rep, a, b))
  {
  }

  function AddName(names: RootNames, root: Key, name: string): RootNames {
    names[root := (if root in names then names[root] else {}) + {name}]
  }

  lemma AddNameKeepsLabels(rep: Partition, names: RootNames, labels: set<Label>, p: Key, root: Key, name: string)
    requires KeepsLabels(rep, names, labels) && SameClass(rep, p, root)
    ensures KeepsLabels(rep, AddName(names, root, name), labels + {(p, name)})
  {
    hide Sourced, Kept, SameClass;
    var more, all := AddName(names, root, name), labels + {(p, name)};
    SameClassKeys(rep, p, root);
    forall r, n | Held(more, r, n) ensures Sourced(rep, all, r, n) {
      if r == root && n == name {
        LabelSources(rep, all, p, root, name);
      } else {
        assert Held(names, r, n);
        SourcedMore(rep, labels, all, r, n);
      }
    }
    forall a, n | (a, n) in all ensures a in rep && Kept(rep, more, a, n) {
      if (a, n) in labels {
        KeptMore(rep, names, more, a, n);
      } else {
        HeldKeeps(rep, more, p, root, name);
      }
    }
  }

  lemma SameClassKeys(rep: Partition, p: Key, q: Key)
    requires SameClass(rep, p, q)
    ensures p in rep && q in rep
  {
  }

  lemma LabelSources(rep: Partition, labels: set<Label>, a: Key, r: Key, name: string)
    requires (a, name) in labels && SameClass(rep, a, r)
    ensures Sourced(rep, labels, r, name)
  {
  }

  lemma HeldKeeps(rep: Partition, names: RootNames, a: Key, r: Key, name: string)
    requires Held(names, r, name) && SameClass(rep, a, r)
    ensures Kept(rep, names, a, name)
  {
  }

  lemma SourcedMore(rep: Partition, labels: set<Label>, all: set<Label>, r: Key, name: string)
    requires Sourced(rep, labels, r, name) && labels <= all
    ensures Sourced(rep, all, r, name)
  {
    var a :| (a, name) in labels && SameClass(rep, a, r);
    assert (a, name) in all;
  }

  lemma KeptMore(rep: Partition, names: RootNames, more: RootNames, a: Key, name: string)
    requires Kept(rep, names, a, name) && forall r :: Held(names, r, name) ==> Held(more, r, name)
    ensures Kept(rep, more, a, name)
  {
    var r :| Held(names, r, name) && SameClass(rep, r, a);
    assert Held(more, r, name);
  }

  /** Moving the names of a former root to its root. */
  function Moved(names: RootNames, former: Key, root: Key): RootNames
    requires former in names
  {
    names[root := (if root in names then names[root] else {}) + names[former]] - {former}
  }

  lemma MovedKeepsLabels(rep: Partition, names: RootNames, labels: set<Label>, former: Key, root: Key)
    requires KeepsLabels(rep, names, labels)
    requires former in names && root != former && SameClass(rep, former, root)
    ensures KeepsLabels(rep, Moved(names, former, root), labels)
  {
    var moved := Moved(names, former, root);
    forall r, n | Held(moved, r, n) ensures Sourced(rep, labels, r, n) {
      var source := if Held(names, r, n) then r else former;
      assert Held(names, source, n);
    }
    forall a, n | (a, n) in labels ensures Kept(rep, moved, a, n) {
      var r :| Held(names, r, n) && SameClass(rep, r, a);
      assert Held(moved, if r == former then root else r, n);
    }
  }

  /** With all names at roots, a root holds exactly the labels of its class. */
  lemma NormalNames(rep: Partition, names: RootNames, labels: set<Label>, k: Key, root: Key)
    requires KeepsLabels(rep, names, labels) && Normal(rep, names) && k in rep && rep[k] == root &&
      SameClass(rep, k, root)
    ensures forall name :: Held(names, root, name) <==> Sourced(rep, labels, k, name)
    ensures root in names <==> exists name :: Sourced(rep, labels, k, name)
  {
    forall name ensures Held(names, root, name) <==> Sourced(rep, labels, k, name) {
      if Sourced(rep, labels, k, name) {
        var a :| (a, name) in labels && SameClass(rep, a, k);
        assert Kept(rep, names, a, name);
      }
    }
    if root in names {
      var name :| name in names[root];
      assert Held(names, root, name);
    }
  }

  // ---------- The net map ----------

  /** The map with empty entries for the names it lacks. */
  function WithEntries(nets: NetMap, names: set<string>): NetMap {
    map n | n in nets.Keys + names :: if n in nets then nets[n] else []
  }

  lemma WithMoreEntries(nets: NetMap, names: set<string>, more: set<string>)
    ensures WithEntries(WithEntries(nets, names), more) == WithEntries(nets, names + more)
  {
  }

  function LabelNames(labels: set<Label>): set<string> {
    set l | l in labels :: l.1
  }

  function LabelPoints(labels: set<Label>): set<Key> {
    set l | l in labels :: l.0
  }

  class CoordinateNets {
    const dsu: DisjointSet
    var rootNetNames: RootNames
    var netMap: NetMap

    /** The labels and links entered so far. */
    ghost var labels: set<Label>
    ghost var links: Links

    ghost predicate Valid()
      reads this, dsu
    {
      && dsu.Valid()
      && Partitions(dsu.rep, links)
      && SelfRepresenting(dsu.rep)
      && KeepsLabels(dsu.rep, rootNetNames, labels)
    }

    constructor (nets: NetMap)
      ensures Valid() && fresh(dsu)
      ensures dsu.rep == map[] && links == {} && labels == {} && netMap == nets && Normal(dsu.rep, rootNetNames)
    {
      dsu := new DisjointSet();
      rootNetNames, netMap, labels, links := map[], nets, {}, {};
    }

    method EnsureNetEntry(name: string)
      modifies this`netMap
      ensures netMap == WithEntries(old(netMap), {name})
    {
      if name !in netMap {
        netMap := netMap[name := []];
      }
    }

    method AddNetLabel(p: Key, name: string)
      requires Valid() && name != ""
      modifies this`rootNetNames, this`netMap, this`labels, dsu
      ensures Valid() && links == old(links)
      ensures dsu.rep == WithKey(old(dsu.rep), p)
      ensures labels == old(labels) + {(p, name)}
      ensures netMap == WithEntries(old(netMap), {name})
      ensures old(Normal(dsu.rep, rootNetNames)) ==> Normal(dsu.rep, rootNetNames)
    {
      hide Forest, Partitions, KeepsLabels;
      EnterPoint(dsu.rep, links, rootNetNames, labels, p);
      var root := dsu.Find(p);
      AddNameKeepsLabels(dsu.rep, rootNetNames, labels, p, root, name);
      var names := if root in rootNetNames then rootNetNames[root] else {};
      rootNetNames := rootNetNames[root := names + {name}];
      labels := labels + {(p, name)};
      EnsureNetEntry(name);
    }

    method EnterLine(line: seq<Key>)
      requires Valid() && line != []
      modifies this`links, dsu
      ensures Valid()
      ensures links == old(links) + LineLinks(line)
      ensures dsu.rep.Keys == old(dsu.rep.Keys) + Elements(line)
    {
      hide Forest, Partitions, KeepsLabels, SelfRepresenting, Elements, Merged;
      NoMore(line, dsu.rep.Keys);
      for i := 0 to |line|
        invariant Valid() && links == old(links)
        invariant dsu.rep.Keys == old(dsu.rep.Keys) + Elements(line[..i])
      {
        EnterPoint(dsu.rep, links, rootNetNames, labels, line[i]);
        OneMore(line, i);
        var _ := dsu.Find(line[i]);
      }
      assert line[..|line|] == line;
      ghost var keys := dsu.rep.Keys;
      assert LineLinks(line[..1]) == {};
      for i := 1 to |line|
        invariant Valid() && dsu.rep.Keys == keys
        invariant links == old(links) + LineLinks(line[..i])
      {
        InElements(line, i - 1);
        InElements(line, i);
        EnterLink(dsu.rep, links, rootNetNames, labels, line[i - 1], line[i]);
        dsu.Union(line[i - 1], line[i]);
        links := links + {(line[i - 1], line[i])};
        assert line[..i + 1][..i] == line[..i];
      }
    }

    /** The components, the labels and the net entries of the wires. */
    method AddWires(wires: seq<Wire>)
      requires Valid() && dsu.rep == map[] && links == {} && labels == {}
      modifies this`links, this`labels, this`rootNetNames, this`netMap, dsu
      ensures Valid()
      ensures links == WireLinks(wires) && labels == WireLabels(wires) && dsu.rep.Keys == Vertices(wires)
      ensures netMap == WithEntries(old(netMap), LabelNames(WireLabels(wires)))
      ensures forall p, q :: p in dsu.rep && q in dsu.rep ==> (dsu.rep[p] == dsu.rep[q] <==> WiresConnect(wires, p, q))
    {
      hide Forest, WiresConnect, Partitions, KeepsLabels, SelfRepresenting, LineLinks, WireLinks, WireLabels;
      hide Vertices, LabelNames, WithEntries, Elements;
      NoWires(netMap);
      assert wires[..0] == [];
      for i := 0 to |wires|
        invariant Valid()
        invariant links == WireLinks(wires[..i]) && labels == WireLabels(wires[..i]) &&
          dsu.rep.Keys == Vertices(wires[..i])
        invariant netMap == WithEntries(old(netMap), LabelNames(WireLabels(wires[..i])))
      {
        var wire := wires[i];
        OneMoreWire(wires, i);
        if wire.line == [] {
          continue;
        }
        EnterLine(wire.line);
        if wire.net != "" {
          WithMoreEntries(old(netMap), LabelNames(labels), {wire.net});
          InElements(wire.line, 0);
          AddNetLabel(wire.line[0], wire.net);
        }
      }
      assert wires[..|wires|] == wires;
      RootsAgreeIffWiresConnect(dsu.rep, wires);
    }

    /** Once all wires are known, names move from former roots to roots. */
    method Renormalise()
      requires Valid()
      modifies this`rootNetNames, dsu
      ensures Valid() && Normal(dsu.rep, rootNetNames) && dsu.rep == old(dsu.rep)
    {
      hide Forest, Partitions, KeepsLabels;
      var entries := rootNetNames.Keys;
      KeptWithinKeys(dsu.rep, rootNetNames, labels);
      while entries != {}
        invariant Valid() && dsu.rep == old(dsu.rep)
        invariant entries <= rootNetNames.Keys <= dsu.rep.Keys
        invariant forall r :: r in rootNetNames && r !in entries ==> dsu.rep[r] == r
      {
        var root :| root in entries;
        entries := entries - {root};
        var normalizedRoot := dsu.Find(root);
        if normalizedRoot != root {
          MovedKeepsLabels(dsu.rep, rootNetNames, labels, root, normalizedRoot);
          var target := if normalizedRoot in rootNetNames then rootNetNames[normalizedRoot] else {};
          rootNetNames := rootNetNames[normalizedRoot := target + rootNetNames[root]] - {root};
        }
      }
    }

    /** Flags and ports attach their names at their points. */
    method AddFlags(components: seq<Component>)
      requires Valid() && Normal(dsu.rep, rootNetNames)
      modifies this`labels, this`rootNetNames, this`netMap, dsu
      ensures Valid() && Normal(dsu.rep, rootNetNames)
      ensures labels == old(labels) + FlagLabels(components)
      ensures dsu.rep.Keys == old(dsu.rep.Keys) + LabelPoints(FlagLabels(components))
      ensures netMap == WithEntries(old(netMap), LabelNames(FlagLabels(components)))
    {
      hide Forest, Partitions, KeepsLabels, SelfRepresenting, Normal, FlagLabels, LabelNames, LabelPoints, WithEntries;
      NoFlags(netMap);
      assert components[..0] == [];
      for i := 0 to |components|
        invariant Valid() && Normal(dsu.rep, rootNetNames)
        invariant labels == old(labels) + FlagLabels(components[..i])
        invariant dsu.rep.Keys == old(dsu.rep.Keys) + LabelPoints(FlagLabels(components[..i]))
        invariant netMap == WithEntries(old(netMap), LabelNames(FlagLabels(components[..i])))
      {
        var c := components[i];
        OneMoreFlag(components, i);
        if (c.kind != "netflag" && c.kind != "netport") || c.net == "" || c.at.None? {
          continue;
        }
        WithMoreEntries(old(netMap), LabelNames(FlagLabels(components[..i])), {c.net});
        AddNetLabel(c.at.value, c.net);
      }
      assert components[..|components|] == components;
    }

    /** The least point of every component, by its root. */
    method CanonicalPoints(before: (Key, Key) -> bool) returns (canonical: map<Key, Key>)
      requires Valid() && StrictTotalOrder(before)
      modifies dsu
      ensures Valid() && dsu.rep == old(dsu.rep)
      ensures IsCanonicalMap(dsu.rep, before, dsu.rep.Keys, canonical)
    {
      hide Forest, Partitions, KeepsLabels, StrictTotalOrder;
      canonical := map[];
      var todo := dsu.parent.Keys;
      ForestIsSelfRepresenting(dsu.parent, dsu.rep, dsu.rank, dsu.height);
      while todo != {}
        invariant Valid() && dsu.rep == old(dsu.rep) && todo <= dsu.rep.Keys
        invariant IsCanonicalMap(dsu.rep, before, dsu.rep.Keys - todo, canonical)
      {
        var p :| p in todo;
        var root := dsu.Find(p);
        ConsiderPoint(dsu.rep, before, dsu.rep.Keys - todo, canonical, p);
        if root !in canonical || before(p, canonical[root]) {
          canonical := canonical[root := p];
        }
        assert dsu.rep.Keys - (todo - {p}) == (dsu.rep.Keys - todo) + {p};
        todo := todo - {p};
      }
      assert dsu.rep.Keys - {} == dsu.rep.Keys;
    }

    /** Every component without a name gets the next free anonymous one, in the order of canonical points. */
    method AddUnnamedWireNetLabels(before: (Key, Key) -> bool)
      requires Valid() && Normal(dsu.rep, rootNetNames) && StrictTotalOrder(before)
      modifies this`rootNetNames, this`netMap, dsu
      ensures dsu.Valid() && dsu.rep == old(dsu.rep)
      ensures AllNamed(dsu.rep, before, old(rootNetNames), old(netMap).Keys, rootNetNames)
      ensures netMap == WithEntries(old(netMap), NewNames(old(rootNetNames), rootNetNames))
    {
      hide Forest, Partitions, KeepsLabels, StrictTotalOrder, IsCanonicalMap, Increasing, FreeNumber, NextFree;
      hide Anonymous, Assigned, Start, WithEntries, AllNamed, NewNames, SelfRepresenting, Elements;
      var canonical := CanonicalPoints(before);
      var unnamedRoots := UnnamedInOrder(canonical, before);
      ghost var names, taken := rootNetNames, netMap.Keys;
      var nextAnonymousNet := 1;
      NamingStarts(netMap, names, unnamedRoots);
      KeptWithinKeys(dsu.rep, names, labels);
      UnnamedRoots(canonical, before, names, unnamedRoots);
      for i := 0 to |unnamedRoots|
        invariant dsu.Valid() && dsu.rep == old(dsu.rep)
        invariant nextAnonymousNet == Start(taken, i)
        invariant NamedUpTo(names, taken, unnamedRoots, i, rootNetNames)
        invariant netMap == WithEntries(old(netMap), Assigned(taken, i))
      {
        EntriesKeys(old(netMap), Assigned(taken, i));
        var netName := NextNetName(nextAnonymousNet, taken, i);
        nextAnonymousNet := netName + 1;
        NameOneMore(old(netMap), names, taken, unnamedRoots, i, rootNetNames);
        rootNetNames := rootNetNames[unnamedRoots[i] := {Anonymous(netName)}];
        EnsureNetEntry(Anonymous(netName));
      }
      NamingEnds(dsu.rep, before, canonical, names, taken, unnamedRoots, rootNetNames);
    }

    method UnnamedInOrder(canonical: map<Key, Key>, before: (Key, Key) -> bool) returns (roots: seq<Key>)
      requires StrictTotalOrder(before) && IsCanonicalMap(dsu.rep, before, dsu.rep.Keys, canonical)
      ensures Increasing(roots, canonical, before) && Elements(roots) == canonical.Keys - rootNetNames.Keys
    {
      hide StrictTotalOrder;
      roots := SortByPoint(canonical.Keys - rootNetNames.Keys, canonical, before);
    }

    method NextNetName(start: nat, ghost taken: set<string>, ghost i: nat) returns (number: nat)
      requires start == Start(taken, i) && netMap.Keys == taken + Assigned(taken, i)
      ensures number == FreeNumber(taken, i)
      ensures Start(taken, i + 1) == number + 1
    {
      hide Anonymous, Assigned, FreeNumber;
      NextFreeAmongAssigned(taken, i);
      number := start;
      while Anonymous(number) in netMap
        invariant start <= number <= NextFree(netMap.Keys, start)
        decreases NextFree(netMap.Keys, start) - number
      {
        number := number + 1;
      }
    }

    /** Every numbered pin is entered, once, in all nets of its coordinate. */
    method AddPins(components: seq<Component>)
      requires dsu.Valid() && rootNetNames.Keys <= dsu.rep.Keys
      requires forall r :: r in rootNetNames ==> "" !in rootNetNames[r] && rootNetNames[r] <= netMap.Keys
      modifies this`netMap, dsu
      ensures dsu.Valid()
      ensures ListsPins(old(netMap), old(dsu.rep), rootNetNames, PinPlaces(components), netMap)
      ensures old(UniqueNodes(netMap)) ==> UniqueNodes(netMap)
      ensures KeepsNodes(old(netMap), netMap) && netMap.Keys == old(netMap).Keys
    {
      hide Forest, PinPlaces, ListsPins, KeepsNodes, UniqueNodes, ComponentPlaces, Anonymous;
      NoPins(netMap, dsu.rep, rootNetNames);
      assert components[..0] == [];
      for i := 0 to |components|
        invariant dsu.Valid() && OnlyEnters(old(dsu.rep), dsu.rep)
        invariant ListsPins(old(netMap), old(dsu.rep), rootNetNames, PinPlaces(components[..i]), netMap)
        invariant old(UniqueNodes(netMap)) ==> UniqueNodes(netMap)
        invariant KeepsNodes(old(netMap), netMap) && netMap.Keys == old(netMap).Keys
      {
        OneMoreComponent(components, i);
        if components[i].designator != "" {
          AddComponentPins(components[i], old(netMap), old(dsu.rep), PinPlaces(components[..i]));
        }
      }
      assert components[..|components|] == components;
    }

    method AddComponentPins(c: Component, ghost nets: NetMap, ghost rep: Partition,
                            ghost places: set<(string, string, Key)>)
      requires dsu.Valid() && OnlyEnters(rep, dsu.rep) && rootNetNames.Keys <= rep.Keys && c.designator != ""
      requires forall r :: r in rootNetNames ==> "" !in rootNetNames[r] && rootNetNames[r] <= netMap.Keys
      requires ListsPins(nets, rep, rootNetNames, places, netMap) && KeepsNodes(nets, netMap)
      modifies this`netMap, dsu
      ensures dsu.Valid() && OnlyEnters(rep, dsu.rep)
      ensures ListsPins(nets, rep, rootNetNames, places + ComponentPlaces(c, c.pins), netMap)
      ensures old(UniqueNodes(netMap)) ==> UniqueNodes(netMap)
      ensures KeepsNodes(nets, netMap) && netMap.Keys == old(netMap).Keys
    {
      hide Forest, ListsPins, KeepsNodes, UniqueNodes, ComponentPlaces, OnlyEnters;
      NoComponentPins(c, places);
      assert c.pins[..0] == [];
      for j := 0 to |c.pins|
        invariant dsu.Valid() && OnlyEnters(rep, dsu.rep)
        invariant ListsPins(nets, rep, rootNetNames, places + ComponentPlaces(c, c.pins[..j]), netMap)
        invariant old(UniqueNodes(netMap)) ==> UniqueNodes(netMap)
        invariant KeepsNodes(nets, netMap) && netMap.Keys == old(netMap).Keys
      {
        var pin := c.pins[j];
        OneMorePin(c, j, places);
        if pin.number == "" || pin.at.None? {
          continue;
        }
        EnteringIsolated(rep, dsu.rep, rootNetNames, pin.at.value);
        var root := dsu.Find(pin.at.value);
        var node := Node(c.designator, pin.number, pin.at);
        ghost var sofar := places + ComponentPlaces(c, c.pins[..j]);
        var names := if root in rootNetNames then rootNetNames[root] else {};
        ghost var middle := netMap;
        EnterNode(names, node);
        NodesEntered(nets, rep, rootNetNames, sofar, pin.at.value, node, middle, netMap);
        KeepsNodesTransitive(nets, middle, netMap);
      }
      assert c.pins[..|c.pins|] == c.pins;
    }

    method EnterNode(names: set<string>, node: Node)
      requires "" !in names && names <= netMap.Keys && node.component != "" && node.pin != ""
      modifies this`netMap
      ensures ListsNode(old(netMap), names, node, netMap)
      ensures old(UniqueNodes(netMap)) ==> UniqueNodes(netMap)
      ensures KeepsNodes(old(netMap), netMap) && netMap.Keys == old(netMap).Keys
    {
      hide Listed;
      var todo := names;
      while todo != {}
        invariant todo <= names
        invariant ListsNode(old(netMap), names - todo, node, netMap)
        invariant old(UniqueNodes(netMap)) ==> UniqueNodes(netMap)
        invariant KeepsNodes(old(netMap), netMap) && netMap.Keys == old(netMap).Keys
      {
        var name :| name in todo;
        PushUniqueNetNode(name, node);
        todo := todo - {name};
      }
    }

    /** The node is entered unless its component and pin are there; a name, component or pin must not be empty. */
    method PushUniqueNetNode(name: string, node: Node)
      modifies this`netMap
      ensures name == "" || node.component == "" || node.pin == "" ==> netMap == old(netMap)
      ensures name != "" && node.component != "" && node.pin != "" ==>
        && ListsNode(old(netMap), {name}, node, netMap) && KeepsNodes(old(netMap), netMap)
        && netMap.Keys == old(netMap).Keys + {name}
        && (if old(Listed(netMap, name, node.component, node.pin)) then netMap == old(netMap) else node in netMap[name])
      ensures old(UniqueNodes(netMap)) ==> UniqueNodes(netMap)
    {
      if name == "" || node.component == "" || node.pin == "" {
        return;
      }
      hide UniqueNodes, ListsNode, KeepsNodes, Listed, WithEntries;
      ghost var was := netMap;
      EnsureNetEntry(name);
      EntryAdded(was, name);
      var nodes := netMap[name];
      var listed := exists item :: item in nodes && item.component == node.component && item.pin == node.pin;
      ListedInEntry(was, name, node, nodes);
      Pushed(was, name, node);
      if listed {
        assert netMap == was;
        return;
      }
      netMap := netMap[name := nodes + [node]];
      assert netMap == was[name := nodes + [node]];
    }
  }

  // ---------- Entering nodes ----------

  /** The names' entries gain the node's pin, nothing else is listed, and no other node is there that was not. */
  ghost predicate ListsNode(nets: NetMap, names: set<string>, node: Node, result: NetMap) {
    && (forall n, c, p :: Listed(result, n, c, p) <==>
          Listed(nets, n, c, p) || (n in names && c == node.component && p == node.pin))
    && (forall n, m :: Has(result, n, m) ==> Has(nets, n, m) || (n in names && m == node))
  }

  ghost predicate KeepsNodes(nets: NetMap, result: NetMap) {
    forall n :: n in nets ==> n in result && nets[n] <= result[n]
  }

  lemma EntryAdded(nets: NetMap, name: string)
    ensures var entered := WithEntries(nets, {name});
            && (name in nets ==> entered == nets) && entered.Keys == nets.Keys + {name}
            && entered[name] == (if name in nets then nets[name] else [])
            && (name !in nets ==> entered == nets[name := []])
  {
  }

  lemma ListedInEntry(nets: NetMap, name: string, node: Node, nodes: seq<Node>)
    requires nodes == if name in nets then nets[name] else []
    ensures Listed(nets, name, node.component, node.pin) <==>
      exists item :: item in nodes && item.component == node.component && item.pin == node.pin
    ensures Listed(nets, name, node.component, node.pin) ==> name in nets
  {
  }

  /** Entering a pin that its net lists already changes nothing. */
  lemma NodeListed(nets: NetMap, name: string, node: Node)
    requires Listed(nets, name, node.component, node.pin)
    ensures ListsNode(nets, {name}, node, nets) && KeepsNodes(nets, nets)
  {
  }

  /** Appending a node whose pin its net does not list lists that pin there, once, and nothing else. */
  lemma NodeAppended(nets: NetMap, name: string, node: Node)
    requires !Listed(nets, name, node.component, node.pin)
    ensures var nodes := if name in nets then nets[name] else [];
            var result := nets[name := nodes + [node]];
            && ListsNode(nets, {name}, node, result) && KeepsNodes(nets, result)
            && (UniqueNodes(nets) ==> UniqueNodes(result))
  {
    var nodes := if name in nets then nets[name] else [];
    var result := nets[name := nodes + [node]];
    forall n, c, p ensures Listed(result, n, c, p) <==>
      Listed(nets, n, c, p) || (n == name && c == node.component && p == node.pin)
    {
      if n == name {
        assert result[n] == nodes + [node];
      }
    }
  }

  /** A node enters its net unless its pin is listed there. */
  lemma Pushed(nets: NetMap, name: string, node: Node)
    ensures var nodes, listed := if name in nets then nets[name] else [], Listed(nets, name, node.component, node.pin);
            var result := if listed then nets else nets[name := nodes + [node]];
            && ListsNode(nets, {name}, node, result) && KeepsNodes(nets, result)
            && result.Keys == nets.Keys + {name}
            && (!listed ==> node in result[name])
            && (UniqueNodes(nets) ==> UniqueNodes(result))
  {
    hide ListsNode, KeepsNodes, UniqueNodes;
    if Listed(nets, name, node.component, node.pin) {
      NodeListed(nets, name, node);
    } else {
      NodeAppended(nets, name, node);
    }
  }

  function NamesAt(rep: Partition, names: RootNames, k: Key): set<string> {
    if k in rep && rep[k] in names then names[rep[k]] else {}
  }

  /** The pins at the given places are listed in all nets of their points, with those points, and nothing else is. */
  ghost predicate ListsPins(nets: NetMap, rep: Partition, names: RootNames, places: set<(string, string, Key)>,
                            result: NetMap) {
    && (forall n, c, p ::
          Listed(result, n, c, p) <==> Listed(nets, n, c, p) || PlacedIn(rep, names, places, n, c, p))
    && (forall n, m :: Has(result, n, m) ==> Has(nets, n, m) || NodePlaced(rep, names, places, n, m))
  }

  predicate NodePlaced(rep: Partition, names: RootNames, places: set<(string, string, Key)>, n: string, m: Node) {
    m.at.Some? && (m.component, m.pin, m.at.value) in places && n in NamesAt(rep, names, m.at.value)
  }

  ghost predicate PlacedIn(rep: Partition, names: RootNames, places: set<(string, string, Key)>, n: string, c: string,
                           p: string) {
    exists k :: (c, p, k) in places && n in NamesAt(rep, names, k)
  }

  ghost predicate OnlyEnters(rep: Partition, more: Partition) {
    && (forall k :: k in rep ==> k in more && more[k] == rep[k])
    && (forall k :: k in more && k !in rep ==> more[k] == k)
  }

  lemma EnteringIsolated(rep: Partition, more: Partition, names: RootNames, k: Key)
    requires OnlyEnters(rep, more) && names.Keys <= rep.Keys
    ensures OnlyEnters(rep, WithKey(more, k))
    ensures var root := WithKey(more, k)[k]; (if root in names then names[root] else {}) == NamesAt(rep, names, k)
  {
  }

  function ComponentPlaces(c: Component, pins: seq<Pin>): set<(string, string, Key)> {
    set p | p in pins && p.number != "" && p.at.Some? :: (c.designator, p.number, p.at.value)
  }

  lemma NoPins(nets: NetMap, rep: Partition, names: RootNames)
    ensures ListsPins(nets, rep, names, PinPlaces([]), nets) && KeepsNodes(nets, nets) && OnlyEnters(rep, rep)
  {
    assert PinPlaces([]) == {};
  }

  lemma NoComponentPins(c: Component, places: set<(string, string, Key)>)
    ensures places + ComponentPlaces(c, []) == places
  {
  }

  lemma OneMoreComponent(components: seq<Component>, i: nat)
    requires i < |components|
    ensures components[i].designator == "" ==> PinPlaces(components[..i + 1]) == PinPlaces(components[..i])
    ensures components[i].designator != "" ==>
      PinPlaces(components[..i + 1]) == PinPlaces(components[..i]) + ComponentPlaces(components[i], components[i].pins)
  {
    assert components[..i + 1] == components[..i] + [components[i]];
  }

  lemma OneMorePin(c: Component, j: nat, places: set<(string, string, Key)>)
    requires j < |c.pins|
    ensures var p := c.pins[j];
            var before, after := places + ComponentPlaces(c, c.pins[..j]), places + ComponentPlaces(c, c.pins[..j + 1]);
            if p.number == "" || p.at.None? then after == before
            else after == before + {(c.designator, p.number, p.at.value)}
  {
    assert c.pins[..j + 1] == c.pins[..j] + [c.pins[j]];
  }

  lemma NodesEntered(nets: NetMap, rep: Partition, names: RootNames, places: set<(string, string, Key)>, k: Key,
                     node: Node,
                     middle: NetMap, result: NetMap)
    requires ListsPins(nets, rep, names, places, middle)
    requires ListsNode(middle, NamesAt(rep, names, k), node, result) && node.at.Some? && node.at.value == k
    ensures ListsPins(nets, rep, names, places + {(node.component, node.pin, k)}, result)
  {
    hide Listed, NamesAt, Has;
    var more := places + {(node.component, node.pin, k)};
    forall n, c, p ensures PlacedIn(rep, names, more, n, c, p) <==>
      PlacedIn(rep, names, places, n, c, p) || (n in NamesAt(rep, names, k) && c == node.component && p == node.pin)
    {
      if n in NamesAt(rep, names, k) && c == node.component && p == node.pin {
        assert (c, p, k) in more;
      }
      if PlacedIn(rep, names, places, n, c, p) {
        var m :| (c, p, m) in places && n in NamesAt(rep, names, m);
        assert (c, p, m) in more;
      }
    }
    forall n, m | Has(result, n, m) ensures Has(nets, n, m) || NodePlaced(rep, names, more, n, m) {
    }
  }

  lemma KeepsNodesTransitive(nets: NetMap, middle: NetMap, result: NetMap)
    requires KeepsNodes(nets, middle) && KeepsNodes(middle, result)
    ensures KeepsNodes(nets, result)
  {
  }

  // ---------- Naming the unnamed ----------

  ghost function NameOf(rep: Partition, before: (Key, Key) -> bool, named: set<Key>, taken: set<string>,
                        w: Key): string {
    Anonymous(FreeNumber(taken, |EarlierPoints(rep, before, named, w)|))
  }

  /** Named components keep their names, and every other gets the free name of its rank. */
  ghost predicate AllNamed(rep: Partition, before: (Key, Key) -> bool, names: RootNames, taken: set<string>,
                           result: RootNames) {
    && (forall r :: r in result ==> r in rep && rep[r] == r)
    && (forall r :: r in names ==> r in result && result[r] == names[r])
    && (forall k :: k in rep ==> rep[k] in result)
    && (forall w :: Least(rep, before, w) && rep[w] !in names ==>
          rep[w] in result && result[rep[w]] == {NameOf(rep, before, names.Keys, taken, w)})
  }

  function NewNames(names: RootNames, result: RootNames): set<string> {
    set r, n | r in result && r !in names && n in result[r] :: n
  }

  /** The first m of the roots have been named in turn. */
  ghost predicate NamedUpTo(names: RootNames, taken: set<string>, roots: seq<Key>, m: nat, result: RootNames)
    requires m <= |roots|
  {
    && result.Keys == names.Keys + Elements(roots[..m])
    && (forall r :: r in names ==> result[r] == names[r])
    && (forall i :: 0 <= i < m ==> roots[i] in result && result[roots[i]] == {Anonymous(FreeNumber(taken, i))})
  }

  lemma NamingStarts(nets: NetMap, names: RootNames, roots: seq<Key>)
    ensures NamedUpTo(names, nets.Keys, roots, 0, names) && nets == WithEntries(nets, Assigned(nets.Keys, 0))
    ensures Start(nets.Keys, 0) == 1
  {
  }

  lemma EntriesKeys(nets: NetMap, names: set<string>)
    ensures WithEntries(nets, names).Keys == nets.Keys + names
  {
  }

  lemma UnnamedRoots(canonical: map<Key, Key>, before: (Key, Key) -> bool, names: RootNames, roots: seq<Key>)
    requires StrictTotalOrder(before) && Increasing(roots, canonical, before)
    requires Elements(roots) == canonical.Keys - names.Keys
    ensures forall i :: 0 <= i < |roots| ==> roots[i] !in names
    ensures forall i, j :: 0 <= j < i < |roots| ==> roots[j] != roots[i]
  {
    forall i | 0 <= i < |roots| ensures roots[i] !in names {
      assert roots[i] in Elements(roots);
    }
  }

  lemma NameOneMore(nets: NetMap, names: RootNames, taken: set<string>, roots: seq<Key>, i: nat, result: RootNames)
    requires i < |roots| && NamedUpTo(names, taken, roots, i, result)
    requires roots[i] !in names && forall j :: 0 <= j < i ==> roots[j] != roots[i]
    ensures NamedUpTo(names, taken, roots, i + 1, result[roots[i] := {Anonymous(FreeNumber(taken, i))}])
    ensures WithEntries(WithEntries(nets, Assigned(taken, i)), {Anonymous(FreeNumber(taken, i))}) ==
            WithEntries(nets, Assigned(taken, i + 1))
  {
    hide FreeNumber, Anonymous, WithEntries;
    assert roots[..i + 1] == roots[..i] + [roots[i]];
    WithMoreEntries(nets, Assigned(taken, i), {Anonymous(FreeNumber(taken, i))});
  }

  lemma NamingEnds(rep: Partition, before: (Key, Key) -> bool, canonical: map<Key, Key>, names: RootNames,
                   taken: set<string>, roots: seq<Key>, result: RootNames)
    requires StrictTotalOrder(before) && IsCanonicalMap(rep, before, rep.Keys, canonical) && SelfRepresenting(rep)
    requires Increasing(roots, canonical, before) && Elements(roots) == canonical.Keys - names.Keys
    requires NamedUpTo(names, taken, roots, |roots|, result) && Normal(rep, names)
    ensures AllNamed(rep, before, names, taken, result)
    ensures NewNames(names, result) == Assigned(taken, |roots|)
  {
    hide StrictTotalOrder, FreeNumber, Anonymous, Increasing, Assigned, EarlierPoints, IsCanonicalMap;
    hide NamedUpTo, NewNames, Least, Elements;
    assert roots[..|roots|] == roots;
    CanonicalKeys(rep, before, canonical);
    LeastIsKey(rep, before);
    forall w | Least(rep, before, w) && rep[w] !in names
      ensures rep[w] in result && result[rep[w]] == {NameOf(rep, before, names.Keys, taken, w)}
    {
      RootNamedByRank(rep, before, canonical, names, taken, roots, result, w);
    }
    NewNamesAssigned(canonical, names, taken, roots, result);
    NamedUpToKeys(names, taken, roots, result);
  }

  lemma CanonicalKeys(rep: Partition, before: (Key, Key) -> bool, canonical: map<Key, Key>)
    requires IsCanonicalMap(rep, before, rep.Keys, canonical) && SelfRepresenting(rep)
    ensures forall k :: k in rep ==> rep[k] in canonical
    ensures forall r :: r in canonical ==> r in rep && rep[r] == r
  {
    forall r | r in canonical ensures r in rep && rep[r] == r {
      assert canonical[r] in rep && rep[canonical[r]] == r;
    }
  }

  lemma LeastIsKey(rep: Partition, before: (Key, Key) -> bool)
    ensures forall w :: Least(rep, before, w) ==> w in rep
  {
  }

  lemma NamedUpToKeys(names: RootNames, taken: set<string>, roots: seq<Key>, result: RootNames)
    requires NamedUpTo(names, taken, roots, |roots|, result)
    ensures result.Keys == names.Keys + Elements(roots)
    ensures forall r :: r in names ==> r in result && result[r] == names[r]
  {
    assert roots[..|roots|] == roots;
  }

  lemma RootNamedByRank(rep: Partition, before: (Key, Key) -> bool, canonical: map<Key, Key>, names: RootNames,
                        taken: set<string>, roots: seq<Key>, result: RootNames, w: Key)
    requires StrictTotalOrder(before) && IsCanonicalMap(rep, before, rep.Keys, canonical)
    requires Increasing(roots, canonical, before) && Elements(roots) == canonical.Keys - names.Keys
    requires NamedUpTo(names, taken, roots, |roots|, result)
    requires Least(rep, before, w) && rep[w] !in names && rep[w] in canonical
    ensures rep[w] in result && result[rep[w]] == {NameOf(rep, before, names.Keys, taken, w)}
  {
    hide StrictTotalOrder, FreeNumber, Anonymous, Increasing, EarlierPoints, IsCanonicalMap;
    CanonicalIsLeast(rep, before, canonical, w);
    assert rep[w] in Elements(roots);
    var m: nat :| m < |roots| && roots[m] == rep[w];
    PositionIsRank(rep, before, canonical, names.Keys, roots, m);
  }

  lemma NewNamesAssigned(canonical: map<Key, Key>, names: RootNames, taken: set<string>, roots: seq<Key>,
                         result: RootNames)
    requires NamedUpTo(names, taken, roots, |roots|, result) && Elements(roots) == canonical.Keys - names.Keys
    ensures NewNames(names, result) == Assigned(taken, |roots|)
  {
    hide *;
    forall n ensures n in NewNames(names, result) <==> n in Assigned(taken, |roots|) {
      AssignedMember(taken, |roots|, n);
      if n in NewNames(names, result) {
        NewNameIsAssigned(names, taken, roots, result, n);
      }
      if i: nat :| i < |roots| && n == Anonymous(FreeNumber(taken, i)) {
        AssignedNameIsNew(canonical, names, taken, roots, result, i);
      }
    }
  }

  lemma NewNameIsAssigned(names: RootNames, taken: set<string>, roots: seq<Key>, result: RootNames, n: string)
    requires NamedUpTo(names, taken, roots, |roots|, result) && n in NewNames(names, result)
    ensures exists i: nat :: i < |roots| && n == Anonymous(FreeNumber(taken, i))
  {
    hide FreeNumber, Anonymous;
    assert roots[..|roots|] == roots;
    var r :| r in result && r !in names && n in result[r];
    assert r in Elements(roots);
    var i: nat :| i < |roots| && roots[i] == r;
    assert n == Anonymous(FreeNumber(taken, i));
  }

  lemma AssignedNameIsNew(canonical: map<Key, Key>, names: RootNames, taken: set<string>, roots: seq<Key>,
                          result: RootNames,
                          i: nat)
    requires NamedUpTo(names, taken, roots, |roots|, result) && Elements(roots) == canonical.Keys - names.Keys
    requires i < |roots|
    ensures Anonymous(FreeNumber(taken, i)) in NewNames(names, result)
  {
    hide FreeNumber, Anonymous;
    assert roots[i] in Elements(roots) && Anonymous(FreeNumber(taken, i)) in result[roots[i]];
  }

  lemma InElements(line: seq<Key>, i: nat)
    requires i < |line|
    ensures line[i] in Elements(line)
  {
  }

  lemma NoMore(line: seq<Key>, keys: set<Key>)
    ensures keys == keys + Elements(line[..0])
  {
  }

  lemma OneMore(line: seq<Key>, i: nat)
    requires i < |line|
    ensures Elements(line[..i + 1]) == Elements(line[..i]) + {line[i]}
  {
    assert line[..i + 1] == line[..i] + [line[i]];
  }

  lemma NoWires(nets: NetMap)
    ensures WireLinks([]) == {} && WireLabels([]) == {} && Vertices([]) == {}
    ensures nets == WithEntries(nets, LabelNames(WireLabels([])))
  {
  }

  lemma NoFlags(nets: NetMap)
    ensures FlagLabels([]) == {} && LabelPoints(FlagLabels([])) == {}
    ensures nets == WithEntries(nets, LabelNames(FlagLabels([])))
  {
  }

  lemma KeptWithinKeys(rep: Partition, names: RootNames, labels: set<Label>)
    requires KeepsLabels(rep, names, labels)
    ensures names.Keys <= rep.Keys
  {
  }

  /** Vertices share a root exactly if a chain of wires sharing vertices joins them. */
  lemma RootsAgreeIffWiresConnect(rep: Partition, wires: seq<Wire>)
    requires Partitions(rep, WireLinks(wires)) && rep.Keys == Vertices(wires)
    ensures forall p, q :: p in rep && q in rep ==> (rep[p] == rep[q] <==> WiresConnect(wires, p, q))
  {
    hide WireLinks, Vertices, Joined;
    forall p, q | p in rep && q in rep ensures rep[p] == rep[q] <==> WiresConnect(wires, p, q) {
      JoinedIffWireChain(wires, p, q);
    }
  }

  lemma OneMoreWire(wires: seq<Wire>, i: nat)
    requires i < |wires|
    ensures var w, before, after := wires[i], wires[..i], wires[..i + 1];
            && WireLinks(after) == WireLinks(before) + LineLinks(w.line)
            && Vertices(after) == Vertices(before) + Elements(w.line)
            && (if w.line != [] && w.net != "" then
                  && WireLabels(after) == WireLabels(before) + {(w.line[0], w.net)}
                  && LabelNames(WireLabels(after)) == LabelNames(WireLabels(before)) + {w.net}
                else WireLabels(after) == WireLabels(before))
    ensures wires[i].line == [] ==> LineLinks(wires[i].line) == {} && Elements(wires[i].line) == {}
  {
    assert wires[..i + 1] == wires[..i] + [wires[i]];
    assert wires[..i + 1][..i] == wires[..i];
  }

  lemma OneMoreFlag(components: seq<Component>, i: nat)
    requires i < |components|
    ensures var c, before, after := components[i], FlagLabels(components[..i]), FlagLabels(components[..i + 1]);
            if IsFlag(c) then
              && after == before + {(c.at.value, c.net)}
              && LabelNames(after) == LabelNames(before) + {c.net}
              && LabelPoints(after) == LabelPoints(before) + {c.at.value}
            else after == before
  {
    assert components[..i + 1] == components[..i] + [components[i]];
  }

  lemma EnterLink(rep: Partition, links: Links, names: RootNames, labels: set<Label>, a: Key, b: Key)
    requires Partitions(rep, links) && SelfRepresenting(rep) && KeepsLabels(rep, names, labels) && a in rep && b in rep
    ensures var more := Merged(rep, a, b);
            && Partitions(more, links + {(a, b)}) && SelfRepresenting(more) && KeepsLabels(more, names, labels)
            && more.Keys == rep.Keys
  {
    hide Partitions, KeepsLabels, SelfRepresenting;
    MergedPartitions(rep, links, a, b);
    MergedCoarser(rep, a, b);
    CoarserKeepsLabels(rep, Merged(rep, a, b), names, labels);
  }

  lemma EnterPoint(rep: Partition, links: Links, names: RootNames, labels: set<Label>, p: Key)
    requires Partitions(rep, links) && SelfRepresenting(rep) && KeepsLabels(rep, names, labels)
    ensures Partitions(WithKey(rep, p), links) && SelfRepresenting(WithKey(rep, p)) &&
      KeepsLabels(WithKey(rep, p), names, labels)
    ensures Normal(rep, names) ==> Normal(WithKey(rep, p), names)
  {
    hide Partitions, KeepsLabels, SelfRepresenting;
    WithKeyPartitions(rep, links, p);
    WithKeyCoarser(rep, p);
    CoarserKeepsLabels(rep, WithKey(rep, p), names, labels);
  }
}
