// Connectivity of drawn links, and the path-compressing disjoint set that decides it
// (dispatcher.ts, lines 642-668).
module DisjointSets {
  /** A coordinate on the thousandths grid that point keys are rounded to; distinct points have distinct keys. */
  datatype Key = Key(x: int, y: int)

  // ---------- The specification: reachability over links ----------

  type Links = set<(Key, Key)>

  predicate Step(links: Links, p: Key, q: Key) {
    (p, q) in links || (q, p) in links
  }

  ghost predicate Chain(links: Links, path: seq<Key>) {
    path != [] && forall i {:trigger path[i]} :: 0 <= i < |path| - 1 ==> Step(links, path[i], path[i + 1])
  }

  ghost predicate Joined(links: Links, p: Key, q: Key) {
    exists path :: Chain(links, path) && path[0] == p && path[|path| - 1] == q
  }

  lemma JoinedReflexive(links: Links, p: Key)
    ensures Joined(links, p, p)
  {
    assert Chain(links, [p]);
  }

  lemma JoinedStep(links: Links, p: Key, q: Key)
    requires Step(links, p, q)
    ensures Joined(links, p, q)
  {
    assert Chain(links, [p, q]);
  }

  lemma JoinedTransitive(links: Links, p: Key, q: Key, r: Key)
    requires Joined(links, p, q) && Joined(links, q, r)
    ensures Joined(links, p, r)
  {
    var s :| Chain(links, s) && s[0] == p && s[|s| - 1] == q;
    var t :| Chain(links, t) && t[0] == q && t[|t| - 1] == r;
    var path := s + t[1..];
    forall i | 0 <= i < |path| - 1 ensures Step(links, path[i], path[i + 1]) {
      if i < |s| - 1 {
        assert path[i] == s[i] && path[i + 1] == s[i + 1];
      } else {
        assert path[i] == t[i - |s| + 1] && path[i + 1] == t[i - |s| + 2];
      }
    }
    assert Chain(links, path) && path[0] == p && path[|path| - 1] == r;
  }

  lemma {:induction false} JoinedSymmetric(links: Links, p: Key, q: Key)
    requires Joined(links, p, q)
    ensures Joined(links, q, p)
  {
    var path :| Chain(links, path) && path[0] == p && path[|path| - 1] == q;
    ChainBack(links, path);
  }

  lemma {:induction false} ChainBack(links: Links, path: seq<Key>)
    requires Chain(links, path)
    ensures Joined(links, path[|path| - 1], path[0])
  {
    JoinedReflexive(links, path[0]);
    if |path| > 1 {
      var tail := path[1..];
      assert Chain(links, tail);
      ChainBack(links, tail);
      JoinedStep(links, path[1], path[0]);
      JoinedTransitive(links, path[|path| - 1], path[1], path[0]);
    }
  }

  lemma JoinedMonotone(links: Links, more: Links, p: Key, q: Key)
    requires links <= more && Joined(links, p, q)
    ensures Joined(more, p, q)
  {
    var path :| Chain(links, path) && path[0] == p && path[|path| - 1] == q;
    assert Chain(more, path);
  }

  ghost predicate Within(links: Links, keys: set<Key>) {
    forall e :: e in links ==> e.0 in keys && e.1 in keys
  }

  /** A point that no link ends at is joined to itself only. */
  lemma {:induction false} Isolated(links: Links, keys: set<Key>, p: Key, q: Key)
    requires Within(links, keys) && p !in keys && Joined(links, p, q)
    ensures p == q
  {
    var path :| Chain(links, path) && path[0] == p && path[|path| - 1] == q;
    assert |path| > 1 ==> Step(links, path[0], path[1]);
  }

  ghost predicate Bridged(links: Links, a: Key, b: Key, p: Key, q: Key) {
    || Joined(links, p, q)
    || (Joined(links, p, a) && Joined(links, b, q))
    || (Joined(links, p, b) && Joined(links, a, q))
  }

  /** One more link joins what was joined, and the component of one end to that of the other. */
  lemma JoinedWithLink(links: Links, a: Key, b: Key, p: Key, q: Key)
    ensures Joined(links + {(a, b)}, p, q) <==> Bridged(links, a, b, p, q)
  {
    var more := links + {(a, b)};
    if Bridged(links, a, b, p, q) {
      JoinedStep(more, a, b);
      JoinedStep(more, b, a);
      if Joined(links, p, q) {
        JoinedMonotone(links, more, p, q);
      } else {
        var (c, d) := if Joined(links, p, a) && Joined(links, b, q) then (a, b) else (b, a);
        JoinedMonotone(links, more, p, c);
        JoinedMonotone(links, more, d, q);
        JoinedTransitive(more, p, c, d);
        JoinedTransitive(more, p, d, q);
      }
    }
    if Joined(more, p, q) {
      var path :| Chain(more, path) && path[0] == p && path[|path| - 1] == q;
      ChainWithLink(links, a, b, path);
    }
  }

  lemma {:induction false} ChainWithLink(links: Links, a: Key, b: Key, path: seq<Key>)
    requires Chain(links + {(a, b)}, path)
    ensures Bridged(links, a, b, path[0], path[|path| - 1])
  {
    hide Joined;
    var p, q := path[0], path[|path| - 1];
    JoinedReflexive(links, p);
    if |path| > 1 {
      var r := path[1];
      assert Chain(links + {(a, b)}, path[1..]);
      ChainWithLink(links, a, b, path[1..]);
      if Step(links, p, r) {
        JoinedStep(links, p, r);
        if Joined(links, r, q) {
          JoinedTransitive(links, p, r, q);
        } else if Joined(links, r, a) && Joined(links, b, q) {
          JoinedTransitive(links, p, r, a);
        } else {
          JoinedTransitive(links, p, r, b);
        }
      } else {
        assert (p == a && r == b) || (p == b && r == a);
      }
    }
  }

  // ---------- Partitions by representative ----------

  type Partition = map<Key, Key>

  function WithKey(rep: Partition, key: Key): Partition {
    if key in rep then rep else rep[key := key]
  }

  /** The classes of a and b become one, represented by a's representative. */
  function Merged(rep: Partition, a: Key, b: Key): Partition
    requires a in rep && b in rep
  {
    map k | k in rep :: if rep[k] == rep[b] then rep[a] else rep[k]
  }

  /** The partition has the given keys, and two of them share a class exactly if links join them. */
  ghost predicate Partitions(rep: Partition, links: Links) {
    && Within(links, rep.Keys)
    && forall p, q :: p in rep && q in rep ==> (rep[p] == rep[q] <==> Joined(links, p, q))
  }

  /** Representatives represent themselves. */
  ghost predicate SelfRepresenting(rep: Partition) {
    forall k :: k in rep ==> rep[k] in rep && rep[rep[k]] == rep[k]
  }

  lemma WithKeyPartitions(rep: Partition, links: Links, key: Key)
    requires Partitions(rep, links) && SelfRepresenting(rep)
    ensures Partitions(WithKey(rep, key), links) && SelfRepresenting(WithKey(rep, key))
  {
    hide Joined;
    if key !in rep {
      JoinedReflexive(links, key);
      forall p | p in rep ensures !Joined(links, p, key) && !Joined(links, key, p) {
        if Joined(links, p, key) {
          JoinedSymmetric(links, p, key);
        }
        if Joined(links, key, p) {
          Isolated(links, rep.Keys, key, p);
        }
      }
    }
  }

  lemma MergedPartitions(rep: Partition, links: Links, a: Key, b: Key)
    requires Partitions(rep, links) && SelfRepresenting(rep) && a in rep && b in rep
    ensures Partitions(Merged(rep, a, b), links + {(a, b)}) && SelfRepresenting(Merged(rep, a, b))
  {
    hide Joined;
    var more := links + {(a, b)};
    var merged := Merged(rep, a, b);
    forall p, q | p in merged && q in merged ensures merged[p] == merged[q] <==> Joined(more, p, q) {
      JoinedWithLink(links, a, b, p, q);
    }
  }

  // ---------- The disjoint set ----------

  /**
   * Following parents from a key ends at its representative: ranks grow towards the roots, up to a height.
   */
  ghost predicate Forest(parent: map<Key, Key>, rep: Partition, rank: map<Key, nat>, height: nat) {
    && rep.Keys == parent.Keys && rank.Keys == parent.Keys
    && (forall k {:trigger Placed(parent, rep, rank, height, k)} :: k in parent ==>
      Placed(parent, rep, rank, height, k))
  }

  ghost predicate Placed(parent: map<Key, Key>, rep: Partition, rank: map<Key, nat>, height: nat, k: Key)
    requires k in parent && rep.Keys == parent.Keys && rank.Keys == parent.Keys
  {
    var p, r := parent[k], rep[k];
    && p in parent && r in parent
    && rep[p] == r && rep[r] == r
    && (p == k <==> r == k)
    && (p != k ==> rank[k] < rank[p])
    && rank[k] <= rank[r] <= height
  }

  lemma ForestIsSelfRepresenting(parent: map<Key, Key>, rep: Partition, rank: map<Key, nat>, height: nat)
    requires Forest(parent, rep, rank, height)
    ensures SelfRepresenting(rep) && rep.Keys == parent.Keys == rank.Keys
  {
    forall k | k in rep ensures rep[k] in rep && rep[rep[k]] == rep[k] {
      assert Placed(parent, rep, rank, height, k);
    }
  }

  lemma EnterKey(parent: map<Key, Key>, rep: Partition, rank: map<Key, nat>, height: nat, key: Key)
    requires Forest(parent, rep, rank, height) && key !in parent
    ensures Forest(parent[key := key], rep[key := key], rank[key := 0], height)
  {
    var p, r, n := parent[key := key], rep[key := key], rank[key := 0];
    forall k | k in p ensures Placed(p, r, n, height, k) {
      if k != key {
        assert Placed(parent, rep, rank, height, k);
      }
    }
  }

  lemma Compress(parent: map<Key, Key>, rep: Partition, rank: map<Key, nat>, height: nat, key: Key)
    requires Forest(parent, rep, rank, height) && key in parent && parent[key] != key
    ensures Forest(parent[key := rep[key]], rep, rank, height)
  {
    var p := parent[key := rep[key]];
    assert Placed(parent, rep, rank, height, key);
    assert Placed(parent, rep, rank, height, parent[key]);
    forall k | k in p ensures Placed(p, rep, rank, height, k) {
      assert Placed(parent, rep, rank, height, k);
    }
  }

  lemma Link(parent: map<Key, Key>, rep: Partition, rank: map<Key, nat>, height: nat, ra: Key, rb: Key)
    requires Forest(parent, rep, rank, height)
    requires ra in rep && rb in rep && rep[ra] == ra && rep[rb] == rb && ra != rb
    ensures Forest(parent[rb := ra], Merged(rep, ra, rb), rank[ra := rank[ra] + rank[rb] + 1], height + rank[rb] + 1)
  {
    hide Placed;
    var p, r := parent[rb := ra], Merged(rep, ra, rb);
    var n, h := rank[ra := rank[ra] + rank[rb] + 1], height + rank[rb] + 1;
    assert p.Keys == parent.Keys && r.Keys == rep.Keys && n.Keys == rank.Keys;
    assert Placed(parent, rep, rank, height, ra) && Placed(parent, rep, rank, height, rb);
    forall k | k in p ensures Placed(p, r, n, h, k) {
      assert Placed(parent, rep, rank, height, k);
      LinkPlaces(parent, rep, rank, height, ra, rb, p, r, n, h, k);
    }
  }

  lemma LinkPlaces(parent: map<Key, Key>, rep: Partition, rank: map<Key, nat>, height: nat, ra: Key, rb: Key,
                   p: map<Key, Key>, r: Partition, n: map<Key, nat>, h: nat, k: Key)
    requires rep.Keys == parent.Keys == rank.Keys == p.Keys == r.Keys == n.Keys
    requires k in parent && ra in parent && rb in parent && rep[ra] == ra && rep[rb] == rb && ra != rb
    requires Placed(parent, rep, rank, height, k)
    requires Placed(parent, rep, rank, height, ra) && Placed(parent, rep, rank, height, rb)
    requires p == parent[rb := ra]
    requires forall m :: m in r ==> r[m] == if rep[m] == rb then ra else rep[m]
    requires n == rank[ra := rank[ra] + rank[rb] + 1] && h == height + rank[rb] + 1
    ensures Placed(p, r, n, h, k)
  {
  }

  lemma MergedByRoots(rep: Partition, a: Key, b: Key)
    requires SelfRepresenting(rep) && a in rep && b in rep
    ensures Merged(rep, a, b) == if rep[a] == rep[b] then rep else Merged(rep, rep[a], rep[b])
  {
  }

  class DisjointSet {
    var parent: map<Key, Key>

    /** The root of every key, and the measure by which following parents ends. */
    ghost var rep: Partition
    ghost var rank: map<Key, nat>
    ghost var height: nat

    ghost predicate Valid()
      reads this
    {
      Forest(parent, rep, rank, height)
    }

    constructor ()
      ensures Valid() && rep == map[]
    {
      parent, rep, rank, height := map[], map[], map[], 0;
    }

    /** The root of a key, entering it if it is new.  Compression changes parents but no root. */
    method Find(key: Key) returns (root: Key)
      requires Valid()
      modifies this
      ensures Valid() && rep == WithKey(old(rep), key) && root == rep[key]
      ensures key in old(rep) ==> rank == old(rank) && height == old(height)
      decreases if key in rank then 1 + height - rank[key] else 0
    {
      if key !in parent {
        EnterKey(parent, rep, rank, height, key);
        parent := parent[key := key];
        rep := rep[key := key];
        rank := rank[key := 0];
      }
      assert Placed(parent, rep, rank, height, key);
      var currentParent := parent[key];
      if currentParent == key {
        return key;
      }
      assert Placed(parent, rep, rank, height, currentParent);
      root := Find(currentParent);
      assert Placed(parent, rep, rank, height, key);
      Compress(parent, rep, rank, height, key);
      parent := parent[key := root];
    }

    method Union(a: Key, b: Key)
      requires Valid()
      modifies this
      ensures Valid()
      ensures rep == Merged(WithKey(WithKey(old(rep), a), b), a, b)
    {
      hide Forest, Merged, SelfRepresenting;
      var rootA := Find(a);
      var rootB := Find(b);
      ForestIsSelfRepresenting(parent, rep, rank, height);
      MergedByRoots(rep, a, b);
      if rootA != rootB {
        Link(parent, rep, rank, height, rootA, rootB);
        parent := parent[rootB := rootA];
        rank := rank[rootA := rank[rootA] + rank[rootB] + 1];
        height := height + rank[rootB] + 1;
        rep := Merged(rep, a, b);
      }
    }
  }
}
