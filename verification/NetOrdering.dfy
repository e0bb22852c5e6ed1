// Canonical points of components, and the unlabelled components in the order of those points
// (dispatcher.ts, lines 759-768).
module NetOrdering {
  import opened DisjointSets
  import opened NetInventory

  /** For each class with a point in `seen`, the least such point. */
  ghost predicate IsCanonicalMap(rep: Partition, before: (Key, Key) -> bool, seen: set<Key>, canonical: map<Key, Key>) {
    && seen <= rep.Keys
    && (forall k :: k in seen ==> rep[k] in canonical)
    && (forall r :: r in canonical ==> canonical[r] in seen && rep[canonical[r]] == r)
    && (forall k :: k in seen && k != canonical[rep[k]] ==> before(canonical[rep[k]], k))
  }

  lemma ConsiderPoint(rep: Partition, before: (Key, Key) -> bool, seen: set<Key>, canonical: map<Key, Key>, p: Key)
    requires StrictTotalOrder(before) && IsCanonicalMap(rep, before, seen, canonical) && p in rep
    ensures var better := rep[p] !in canonical || before(p, canonical[rep[p]]);
            IsCanonicalMap(rep, before, seen + {p}, if better then canonical[rep[p] := p] else canonical)
  {
  }

  /** u is the least point of its class. */
  ghost predicate Least(rep: Partition, before: (Key, Key) -> bool, u: Key) {
    u in rep && forall v :: v in rep && rep[v] == rep[u] && v != u ==> before(u, v)
  }

  lemma CanonicalIsLeast(rep: Partition, before: (Key, Key) -> bool, canonical: map<Key, Key>, u: Key)
    requires StrictTotalOrder(before) && IsCanonicalMap(rep, before, rep.Keys, canonical) && u in rep
    ensures Least(rep, before, u) <==> u == canonical[rep[u]]
  {
    var c := canonical[rep[u]];
    assert c in rep && rep[c] == rep[u];
    assert Least(rep, before, u) && u != c ==> before(u, c);
  }

  /** The least points before w of classes that hold no name. */
  ghost function EarlierPoints(rep: Partition, before: (Key, Key) -> bool, named: set<Key>, w: Key): set<Key> {
    set u | u in rep && Least(rep, before, u) && rep[u] !in named && before(u, w)
  }

  // ---------- Sorting ----------

  function Elements(line: seq<Key>): set<Key> {
    set k | k in line
  }

  ghost predicate Increasing(roots: seq<Key>, canonical: map<Key, Key>, before: (Key, Key) -> bool) {
    && (forall r :: r in roots ==> r in canonical)
    && (forall i, j :: 0 <= i < j < |roots| ==> before(canonical[roots[i]], canonical[roots[j]]))
  }

  lemma RestIsLater(sorted: seq<Key>, i: nat, r: Key, canonical: map<Key, Key>, before: (Key, Key) -> bool)
    requires StrictTotalOrder(before) && Increasing(sorted, canonical, before) && r in canonical && i <= |sorted|
    requires i < |sorted| ==> !before(canonical[sorted[i]], canonical[r]) && canonical[sorted[i]] != canonical[r]
    ensures forall k :: i <= k < |sorted| ==> before(canonical[r], canonical[sorted[k]])
  {
    forall k | i <= k < |sorted| ensures before(canonical[r], canonical[sorted[k]]) {
      assert before(canonical[r], canonical[sorted[i]]);
      assert k > i ==> before(canonical[sorted[i]], canonical[sorted[k]]);
    }
  }

  lemma InsertedInOrder(sorted: seq<Key>, i: nat, r: Key, canonical: map<Key, Key>, before: (Key, Key) -> bool)
    requires Increasing(sorted, canonical, before) && r in canonical && i <= |sorted|
    requires forall k :: 0 <= k < i ==> before(canonical[sorted[k]], canonical[r])
    requires forall k :: i <= k < |sorted| ==> before(canonical[r], canonical[sorted[k]])
    ensures Increasing(sorted[..i] + [r] + sorted[i..], canonical, before)
  {
    var longer := sorted[..i] + [r] + sorted[i..];
    forall j, k | 0 <= j < k < |longer|
      ensures longer[j] in canonical && longer[k] in canonical && before(canonical[longer[j]], canonical[longer[k]])
    {
      assert longer[j] == if j < i then sorted[j] else if j == i then r else sorted[j - 1];
      assert longer[k] == if k < i then sorted[k] else if k == i then r else sorted[k - 1];
    }
  }

  lemma InsertedElements(sorted: seq<Key>, i: nat, r: Key)
    requires i <= |sorted|
    ensures Elements(sorted[..i] + [r] + sorted[i..]) == Elements(sorted) + {r}
  {
    var longer := sorted[..i] + [r] + sorted[i..];
    forall k ensures k in longer <==> k in sorted || k == r {
      assert sorted == sorted[..i] + sorted[i..];
    }
  }

  method Insert(sorted: seq<Key>, r: Key, canonical: map<Key, Key>, before: (Key, Key) -> bool)
    returns (longer: seq<Key>)
    requires StrictTotalOrder(before) && Increasing(sorted, canonical, before) && r in canonical
    requires forall s :: s in sorted ==> canonical[s] != canonical[r]
    ensures Increasing(longer, canonical, before) && Elements(longer) == Elements(sorted) + {r}
  {
    hide StrictTotalOrder, Elements;
    var i := 0;
    while i < |sorted| && before(canonical[sorted[i]], canonical[r])
      invariant 0 <= i <= |sorted|
      invariant forall k :: 0 <= k < i ==> before(canonical[sorted[k]], canonical[r])
    {
      i := i + 1;
    }
    longer := sorted[..i] + [r] + sorted[i..];
    RestIsLater(sorted, i, r, canonical, before);
    InsertedInOrder(sorted, i, r, canonical, before);
    InsertedElements(sorted, i, r);
  }

  method SortByPoint(roots: set<Key>, canonical: map<Key, Key>, before: (Key, Key) -> bool) returns (sorted: seq<Key>)
    requires StrictTotalOrder(before) && roots <= canonical.Keys
    requires forall r, s :: r in roots && s in roots && canonical[r] == canonical[s] ==> r == s
    ensures Increasing(sorted, canonical, before) && Elements(sorted) == roots
  {
    hide StrictTotalOrder;
    sorted := [];
    var todo := roots;
    while todo != {}
      invariant todo <= roots
      invariant Increasing(sorted, canonical, before) && Elements(sorted) == roots - todo
    {
      var r :| r in todo;
      forall s | s in sorted ensures canonical[s] != canonical[r] {
        assert s in Elements(sorted);
      }
      sorted := Insert(sorted, r, canonical, before);
      todo := todo - {r};
    }
  }

  // ---------- Positions ----------

  ghost function PointsOf(roots: seq<Key>, canonical: map<Key, Key>): set<Key>
    requires forall r :: r in roots ==> r in canonical
  {
    set r | r in roots :: canonical[r]
  }

  lemma {:induction false} PointsCount(roots: seq<Key>, canonical: map<Key, Key>, before: (Key, Key) -> bool)
    requires StrictTotalOrder(before) && Increasing(roots, canonical, before)
    ensures |PointsOf(roots, canonical)| == |roots|
  {
    if roots != [] {
      var last := |roots| - 1;
      var rest := roots[..last];
      assert roots == rest + [roots[last]];
      PointsCount(rest, canonical, before);
      assert PointsOf(roots, canonical) == PointsOf(rest, canonical) + {canonical[roots[last]]};
      assert forall r :: r in rest ==> before(canonical[r], canonical[roots[last]]);
    }
  }

  /** The m-th unnamed component has m canonical points of unnamed components before its own. */
  lemma PositionIsRank(rep: Partition, before: (Key, Key) -> bool, canonical: map<Key, Key>, named: set<Key>,
                       sorted: seq<Key>, m: nat)
    requires StrictTotalOrder(before) && IsCanonicalMap(rep, before, rep.Keys, canonical)
    requires Increasing(sorted, canonical, before) && Elements(sorted) == canonical.Keys - named
    requires m < |sorted|
    ensures |EarlierPoints(rep, before, named, canonical[sorted[m]])| == m
  {
    var w := canonical[sorted[m]];
    var first := sorted[..m];
    PointsCount(first, canonical, before);
    forall u ensures u in EarlierPoints(rep, before, named, w) <==> u in PointsOf(first, canonical) {
      if u in EarlierPoints(rep, before, named, w) {
        EarlierIsPoint(rep, before, canonical, named, sorted, m, u);
      }
      if u in PointsOf(first, canonical) {
        PointIsEarlier(rep, before, canonical, named, sorted, m, u);
      }
    }
    assert EarlierPoints(rep, before, named, w) == PointsOf(first, canonical);
  }

  lemma EarlierIsPoint(rep: Partition, before: (Key, Key) -> bool, canonical: map<Key, Key>, named: set<Key>,
                       sorted: seq<Key>, m: nat, u: Key)
    requires StrictTotalOrder(before) && IsCanonicalMap(rep, before, rep.Keys, canonical)
    requires Increasing(sorted, canonical, before) && Elements(sorted) == canonical.Keys - named
    requires m < |sorted| && u in EarlierPoints(rep, before, named, canonical[sorted[m]])
    ensures u in PointsOf(sorted[..m], canonical)
  {
    CanonicalIsLeast(rep, before, canonical, u);
    assert rep[u] in Elements(sorted);
    var j :| 0 <= j < |sorted| && sorted[j] == rep[u];
    assert sorted[..m][j] == rep[u];
  }

  lemma PointIsEarlier(rep: Partition, before: (Key, Key) -> bool, canonical: map<Key, Key>, named: set<Key>,
                       sorted: seq<Key>, m: nat, u: Key)
    requires StrictTotalOrder(before) && IsCanonicalMap(rep, before, rep.Keys, canonical)
    requires Increasing(sorted, canonical, before) && Elements(sorted) == canonical.Keys - named
    requires m < |sorted| && u in PointsOf(sorted[..m], canonical)
    ensures u in EarlierPoints(rep, before, named, canonical[sorted[m]])
  {
    var r :| r in sorted[..m] && canonical[r] == u;
    var j :| 0 <= j < m && sorted[j] == r;
    assert r in Elements(sorted);
    CanonicalIsLeast(rep, before, canonical, u);
  }
}
