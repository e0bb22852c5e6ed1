// Names for wires that carry none: N$1, N$2, ... skipping names in use (dispatcher.ts, lines 769-782).
module NetNaming {
  import opened Decimals

  function Anonymous(n: nat): string {
    "N$" + Decimal(n)
  }

  lemma AnonymousInjective(m: nat, n: nat)
    requires Anonymous(m) == Anonymous(n)
    ensures m == n
  {
    assert Anonymous(m)[2..] == Decimal(m) && Anonymous(n)[2..] == Decimal(n);
    DecimalInjective(m, n);
  }

  /** The least number from n on whose name is not taken. */
  function NextFree(taken: set<string>, n: nat): (r: nat)
    ensures n <= r && Anonymous(r) !in taken
    ensures forall k: nat :: n <= k < r ==> Anonymous(k) in taken
    decreases |taken|
  {
    if Anonymous(n) in taken then
      var rest := taken - {Anonymous(n)};
      var r := NextFree(rest, n + 1);
      assert Anonymous(r) !in taken by {
        if Anonymous(r) == Anonymous(n) {
          AnonymousInjective(r, n);
        }
      }
      r
    else n
  }

  lemma NextFreeUnique(taken: set<string>, n: nat, r: nat)
    requires n <= r && Anonymous(r) !in taken
    requires forall k: nat :: n <= k < r ==> Anonymous(k) in taken
    ensures r == NextFree(taken, n)
  {
    var s := NextFree(taken, n);
    assert Anonymous(r) !in taken && Anonymous(s) !in taken;
  }

  /** The number of the i-th free name. */
  function FreeNumber(taken: set<string>, i: nat): (r: nat)
    ensures Anonymous(r) !in taken
  {
    if i == 0 then NextFree(taken, 1) else NextFree(taken, FreeNumber(taken, i - 1) + 1)
  }

  lemma {:induction false} FreeNumberStep(taken: set<string>, i: nat)
    ensures FreeNumber(taken, i) < FreeNumber(taken, i + 1)
  {
    hide NextFree;
  }

  /** Free numbers increase, so different positions get different names. */
  lemma {:induction false} FreeNumberIncreases(taken: set<string>, i: nat, j: nat)
    requires i < j
    ensures FreeNumber(taken, i) < FreeNumber(taken, j)
    decreases j
  {
    hide FreeNumber;
    FreeNumberStep(taken, j - 1);
    if i < j - 1 {
      FreeNumberIncreases(taken, i, j - 1);
    }
  }

  lemma FreeNamesDistinct(taken: set<string>, i: nat, j: nat)
    requires i != j
    ensures Anonymous(FreeNumber(taken, i)) != Anonymous(FreeNumber(taken, j))
  {
    FreeNumberIncreases(taken, if i < j then i else j, if i < j then j else i);
    if Anonymous(FreeNumber(taken, i)) == Anonymous(FreeNumber(taken, j)) {
      AnonymousInjective(FreeNumber(taken, i), FreeNumber(taken, j));
    }
  }

  /** Where the search for the name at position i starts. */
  function Start(taken: set<string>, i: nat): nat {
    if i == 0 then 1 else FreeNumber(taken, i - 1) + 1
  }

  /** The first count free names. */
  function Assigned(taken: set<string>, count: nat): set<string> {
    if count == 0 then {} else Assigned(taken, count - 1) + {Anonymous(FreeNumber(taken, count - 1))}
  }

  lemma {:induction false} AssignedAreEarlier(taken: set<string>, count: nat, k: nat)
    requires Anonymous(k) in Assigned(taken, count)
    ensures k < Start(taken, count)
  {
    hide FreeNumber, NextFree;
    var last := FreeNumber(taken, count - 1);
    if Anonymous(k) == Anonymous(last) {
      AnonymousInjective(k, last);
    } else {
      AssignedAreEarlier(taken, count - 1, k);
      if count > 1 {
        FreeNumberStep(taken, count - 2);
      }
    }
  }

  /** Names already given out do not change which name is free next. */
  lemma NextFreeAmongAssigned(taken: set<string>, count: nat)
    ensures NextFree(taken + Assigned(taken, count), Start(taken, count)) == FreeNumber(taken, count)
  {
    hide Anonymous, Assigned;
    var r, start := FreeNumber(taken, count), Start(taken, count);
    assert r == NextFree(taken, start);
    if Anonymous(r) in Assigned(taken, count) {
      AssignedAreEarlier(taken, count, r);
    }
    NextFreeUnique(taken + Assigned(taken, count), start, r);
  }

  lemma {:induction false} AssignedMember(taken: set<string>, count: nat, name: string)
    ensures name in Assigned(taken, count) <==> exists i: nat :: i < count && name == Anonymous(FreeNumber(taken, i))
  {
    hide Anonymous, FreeNumber;
    if count > 0 {
      var last := count - 1;
      AssignedMember(taken, last, name);
      if i: nat :| i < count && name == Anonymous(FreeNumber(taken, i)) {
        assert i < last || i == last;
      }
      if name == Anonymous(FreeNumber(taken, last)) {
        assert exists i: nat :: i < count && name == Anonymous(FreeNumber(taken, i));
      }
    }
  }
}
