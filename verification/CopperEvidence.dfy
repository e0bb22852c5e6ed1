// Attributing the outcome of native copper rebuilds from evidence before and after
// (pcb-mutation-operations.ts, lines 75-151, 190-263, 438-717, 777-831).
module CopperEvidence {
  import opened Options

  /** What a native string getter gives: text that is not blank, something else, or an exception. */
  datatype Reading = Text(text: string) | Undefined | Throws

  /** A poured primitive as the editor shows it; the signature is missing if the fills cannot be read. */
  datatype Item = Item(pouredId: Reading, sourceId: Reading, signature: Option<string>)

  datatype Evidence = Evidence(pouredId: string, sourceId: string, fillSignature: string)

  type Snapshot = map<string, Evidence>

  datatype NativeResult = NativeResult(source: Reading, id: Reading)

  /** nativeResult is missing where the call gave undefined or was not made. */
  datatype Attempt = Attempt(pourId: string, nativeResult: Option<NativeResult>, error: Option<string>,
    notInvoked: bool)

  datatype Status = Rebuilt | NoCopper | Failure | ReadbackMissing | ReadbackMismatch

  datatype RebuildItem = RebuildItem(pourId: string, pouredId: Option<string>, status: Status, verified: bool)

  // ---------- Snapshots ----------

  predicate Readable(item: Item) {
    item.pouredId.Text? && item.sourceId.Text? && item.signature.Some?
  }

  function EvidenceOf(item: Item): Evidence
    requires Readable(item)
  {
    Evidence(item.pouredId.text, item.sourceId.text, item.signature.value)
  }

  /** None where the source gives undefined or throws; its callers treat both alike. */
  function SnapshotOf(items: seq<Item>): Option<Snapshot> {
    if items == [] then Some(map[])
    else
      var rest, last := SnapshotOf(items[..|items| - 1]), items[|items| - 1];
      if rest.None? || !Readable(last) || last.sourceId.text in rest.value then None
      else Some(rest.value[last.sourceId.text := EvidenceOf(last)])
  }

  predicate HasSource(items: seq<Item>, i: nat, s: string) {
    i < |items| && items[i].sourceId == Text(s)
  }

  predicate Recorded(item: Item, snapshot: Snapshot) {
    Readable(item) && item.sourceId.text in snapshot && snapshot[item.sourceId.text] == EvidenceOf(item)
  }

  /** The snapshot records every item, every entry comes from an item, and no two items share a source. */
  ghost predicate Describes(items: seq<Item>, snapshot: Snapshot) {
    && (forall i :: 0 <= i < |items| ==> Recorded(items[i], snapshot))
    && (forall s :: s in snapshot ==> exists i: nat :: HasSource(items, i, s))
    && (forall i: nat, j: nat, s :: HasSource(items, i, s) && HasSource(items, j, s) ==> i == j)
  }

  lemma {:induction false} SnapshotDescribes(items: seq<Item>)
    ensures SnapshotOf(items).Some? ==> Describes(items, SnapshotOf(items).value)
  {
    hide Readable;
    if items != [] {
      var rest, last := items[..|items| - 1], items[|items| - 1];
      SnapshotDescribes(rest);
      if SnapshotOf(items).Some? {
        OneMoreDescribed(rest, last, SnapshotOf(rest).value);
        assert items == rest + [last];
      }
    }
  }

  predicate AllReadable(items: seq<Item>) {
    forall i :: 0 <= i < |items| ==> items[i].pouredId.Text? && items[i].sourceId.Text? && items[i].signature.Some?
  }

  predicate SourcesDistinct(items: seq<Item>) {
    forall i, j :: 0 <= i < j < |items| ==> items[i].sourceId != items[j].sourceId
  }

  /** There is a snapshot exactly if every item is readable and no two items share a source. */
  lemma {:induction false} SnapshotExistsIff(items: seq<Item>)
    ensures SnapshotOf(items).Some? <==> AllReadable(items) && SourcesDistinct(items)
  {
    if items != [] {
      var n := |items| - 1;
      var rest, last := items[..n], items[n];
      assert items == rest + [last];
      SnapshotExistsIff(rest);
      SnapshotDescribes(rest);
      if SnapshotOf(rest).Some? && Readable(last) {
        NewSourceIff(rest, last, SnapshotOf(rest).value);
      }
    }
  }

  lemma NewSourceIff(items: seq<Item>, item: Item, snapshot: Snapshot)
    requires Describes(items, snapshot) && Readable(item)
    ensures item.sourceId.text !in snapshot <==> forall i :: 0 <= i < |items| ==> items[i].sourceId != item.sourceId
  {
    assert item.sourceId == Text(item.sourceId.text);
    if item.sourceId.text in snapshot {
      var i: nat :| HasSource(items, i, item.sourceId.text);
    }
    forall i | 0 <= i < |items| && items[i].sourceId == item.sourceId ensures item.sourceId.text in snapshot {
      assert Recorded(items[i], snapshot);
    }
  }

  lemma OneMoreDescribed(items: seq<Item>, item: Item, snapshot: Snapshot)
    requires Describes(items, snapshot) && Readable(item) && item.sourceId.text !in snapshot
    ensures Describes(items + [item], snapshot[item.sourceId.text := EvidenceOf(item)])
  {
    var more, larger := items + [item], snapshot[item.sourceId.text := EvidenceOf(item)];
    forall i | 0 <= i < |more| ensures Recorded(more[i], larger) {
      assert i < |items| ==> more[i] == items[i] && Recorded(items[i], snapshot);
    }
    forall s | s in larger ensures exists i: nat :: HasSource(more, i, s) {
      if s in snapshot {
        var i: nat :| HasSource(items, i, s);
        assert HasSource(more, i, s);
      } else {
        assert item.sourceId == Text(s);
        assert HasSource(more, |items|, s);
      }
    }
    forall i: nat, j: nat, s | HasSource(more, i, s) && HasSource(more, j, s) ensures i == j {
      assert i < |items| ==> HasSource(items, i, s) && Recorded(items[i], snapshot);
      assert j < |items| ==> HasSource(items, j, s) && Recorded(items[j], snapshot);
    }
  }

  method SnapshotPoured(items: seq<Item>) returns (r: Option<Snapshot>)
    ensures r == SnapshotOf(items)
    ensures r.Some? <==> AllReadable(items) && SourcesDistinct(items)
    ensures r.Some? ==> Describes(items, r.value)
  {
    hide SnapshotOf;
    SnapshotDescribes(items);
    SnapshotExistsIff(items);
    var snapshot: Snapshot := map[];
    NothingToRecord(items);
    for i := 0 to |items|
      invariant SnapshotOf(items[..i]) == Some(snapshot)
    {
      var item := items[i];
      OneMoreItem(items, i, snapshot);
      if !Readable(item) || item.sourceId.text in snapshot {
        SnapshotFails(items, i + 1);
        return None;
      }
      snapshot := snapshot[item.sourceId.text := EvidenceOf(item)];
    }
    assert items[..|items|] == items;
    return Some(snapshot);
  }

  lemma NothingToRecord(items: seq<Item>)
    ensures SnapshotOf(items[..0]) == Some(map[])
  {
  }

  lemma OneMoreItem(items: seq<Item>, i: nat, snapshot: Snapshot)
    requires i < |items| && SnapshotOf(items[..i]) == Some(snapshot)
    ensures SnapshotOf(items[..i + 1]) ==
            if !Readable(items[i]) || items[i].sourceId.text in snapshot then None
            else Some(snapshot[items[i].sourceId.text := EvidenceOf(items[i])])
  {
    assert items[..i + 1][..i] == items[..i];
  }

  lemma {:induction false} SnapshotFails(items: seq<Item>, i: nat)
    requires i <= |items| && SnapshotOf(items[..i]).None?
    ensures SnapshotOf(items).None?
    decreases |items|
  {
    if i < |items| {
      assert items[..|items| - 1][..i] == items[..i];
      SnapshotFails(items[..|items| - 1], i);
    } else {
      assert items[..i] == items;
    }
  }

  // ---------- Read-back by source ----------

  predicate GetterThrows(items: seq<Item>) {
    exists i :: 0 <= i < |items| && (items[i].sourceId.Throws? || items[i].pouredId.Throws?)
  }

  /** The poured ids that the read-back shows for a pour, in order. */
  function ReadbackIds(items: seq<Item>, pourId: string): seq<string> {
    if items == [] then []
    else
      var rest, last := items[..|items| - 1], items[|items| - 1];
      var shown := if last.sourceId == Text(pourId) && last.pouredId.Text? then [last.pouredId.text] else [];
      ReadbackIds(rest, pourId) + shown
  }

  method PouredReadbackMap(items: seq<Item>) returns (byPourId: Option<map<string, seq<string>>>)
    ensures byPourId.None? <==> GetterThrows(items)
    ensures byPourId.Some? ==> forall id ::
      ReadbackIds(items, id) == if id in byPourId.value then byPourId.value[id] else []
  {
    hide ReadbackIds, GetterThrows;
    var found: map<string, seq<string>> := map[];
    NothingReadBack(items);
    for i := 0 to |items|
      invariant !GetterThrows(items[..i])
      invariant forall id :: ReadbackIds(items[..i], id) == if id in found then found[id] else []
    {
      var item := items[i];
      OneMoreReadBack(items, i);
      if item.sourceId.Throws? || item.pouredId.Throws? {
        return None;
      }
      if item.sourceId.Text? && item.pouredId.Text? {
        var current := if item.sourceId.text in found then found[item.sourceId.text] else [];
        found := found[item.sourceId.text := current + [item.pouredId.text]];
      }
    }
    assert items[..|items|] == items;
    return Some(found);
  }

  lemma NothingReadBack(items: seq<Item>)
    ensures !GetterThrows(items[..0])
    ensures forall id {:trigger ReadbackIds(items[..0], id)} :: ReadbackIds(items[..0], id) == []
  {
  }

  lemma OneMoreReadBack(items: seq<Item>, i: nat)
    requires i < |items|
    ensures var item := items[i];
            && (GetterThrows(items[..i + 1]) <==>
                  GetterThrows(items[..i]) || item.sourceId.Throws? || item.pouredId.Throws?)
            && (GetterThrows(items[..i + 1]) ==> GetterThrows(items))
            && forall id {:trigger ReadbackIds(items[..i + 1], id)} ::
                 ReadbackIds(items[..i + 1], id) ==
                 ReadbackIds(items[..i], id) +
                   if item.sourceId == Text(id) && item.pouredId.Text? then [item.pouredId.text] else []
  {
    var more := items[..i + 1];
    assert more[..i] == items[..i] && more == items[..i] + [items[i]];
    if GetterThrows(items[..i]) {
      var k :| 0 <= k < i && (items[k].sourceId.Throws? || items[k].pouredId.Throws?);
      assert more[k] == items[k];
    }
    if items[i].sourceId.Throws? || items[i].pouredId.Throws? {
      assert more[i] == items[i];
    }
  }

  lemma {:induction false} SnapshotShowsOne(items: seq<Item>, pourId: string)
    requires SnapshotOf(items).Some?
    ensures var snapshot := SnapshotOf(items).value;
            ReadbackIds(items, pourId) == if pourId in snapshot then [snapshot[pourId].pouredId] else []
  {
    if items != [] {
      var rest := items[..|items| - 1];
      SnapshotShowsOne(rest, pourId);
    }
  }

  // ---------- Changes ----------

  /** No copper of other sources changed, vanished or appeared. */
  predicate SameOutside(before: Snapshot, after: Snapshot, exempt: set<string>) {
    forall s :: s in before.Keys + after.Keys && s !in exempt ==>
      s in before && s in after && after[s].pouredId == before[s].pouredId &&
      after[s].fillSignature == before[s].fillSignature
  }

  method UnexpectedPouredChanges(before: Snapshot, after: Snapshot, exempt: set<string>) returns (changed: bool)
    ensures changed <==> !SameOutside(before, after, exempt)
  {
    var todo := before.Keys;
    while todo != {}
      invariant todo <= before.Keys
      invariant forall s :: s in before && s !in todo && s !in exempt ==>
        s in after && after[s].pouredId == before[s].pouredId && after[s].fillSignature == before[s].fillSignature
    {
      var s :| s in todo;
      todo := todo - {s};
      if s in exempt {
        continue;
      }
      if s !in after || after[s].pouredId != before[s].pouredId || after[s].fillSignature != before[s].fillSignature {
        return true;
      }
    }
    todo := after.Keys;
    while todo != {}
      invariant todo <= after.Keys
      invariant forall s :: s in after && s !in todo && s !in exempt ==> s in before
    {
      var s :| s in todo;
      todo := todo - {s};
      if s !in before && s !in exempt {
        return true;
      }
    }
    return false;
  }

  predicate ExistingUnchanged(before: Snapshot, after: Snapshot) {
    forall s :: s in before ==>
      s in after && after[s].pouredId == before[s].pouredId && after[s].fillSignature == before[s].fillSignature
  }

  predicate OnlyBatchAdded(before: Snapshot, after: Snapshot, batch: set<string>) {
    forall s :: s in after && s !in before ==> s in batch
  }

  // ---------- Results ----------

  /** An empty message counts as no error. */
  predicate Failed(a: Attempt) {
    a.error.Some? && a.error.value != ""
  }

  predicate ReturnedCopper(a: Attempt) {
    !Failed(a) && !a.notInvoked && a.nativeResult.Some?
  }

  function RebuiltIds(attempts: seq<Attempt>): set<string> {
    set i | 0 <= i < |attempts| && ReturnedCopper(attempts[i]) :: attempts[i].pourId
  }

  function First(ids: seq<string>): Option<string> {
    if ids == [] then None else Some(ids[0])
  }

  /** None where the getter of the returned id throws. */
  function NamesPriorCopper(native: NativeResult, before: Snapshot, after: Snapshot, earlier: set<string>): Option<bool>
    requires native.source.Text?
  {
    if native.id.Throws? then None
    else
      var source := native.source.text;
      Some(
        if source in before then Text(before[source].pouredId) == native.id
        else source in earlier && source in after && Text(after[source].pouredId) == native.id)
  }

  /** The target's own poured id where the return named other, earlier copper; None within if not established. */
  function IndependentlyReconciled(a: Attempt, before: Snapshot, post: seq<Item>, batch: set<string>,
                                   earlier: set<string>)
    : Option<Option<string>>
    requires a.nativeResult.Some? && a.nativeResult.value.source.Text?
  {
    match SnapshotOf(post)
    case None => Some(None)
    case Some(after) =>
      if a.pourId in before || a.pourId !in after || after[a.pourId].pouredId != a.pourId ||
         !OnlyBatchAdded(before, after, batch) || !ExistingUnchanged(before, after)
      then Some(None)
      else
        match NamesPriorCopper(a.nativeResult.value, before, after, earlier)
        case None => None
        case Some(names) => Some(if names then Some(after[a.pourId].pouredId) else None)
  }

  function NoCopperItem(pourId: string, ids: seq<string>, before: Snapshot, post: seq<Item>,
                        rebuilt: set<string>): RebuildItem {
    if ids != [] then RebuildItem(pourId, First(ids), ReadbackMismatch, false)
    else if SnapshotOf(post).Some? && SameOutside(before, SnapshotOf(post).value, rebuilt)
    then RebuildItem(pourId, None, NoCopper, true)
    else RebuildItem(pourId, None, ReadbackMismatch, false)
  }

  function DirectItem(pourId: string, pouredId: string, before: Snapshot, post: seq<Item>,
                      rebuilt: set<string>): RebuildItem {
    match SnapshotOf(post)
    case None => RebuildItem(pourId, Some(pouredId), ReadbackMismatch, false)
    case Some(after) =>
      if pourId in after && after[pourId].pouredId == pouredId && SameOutside(before, after, rebuilt)
      then RebuildItem(pourId, Some(pouredId), Rebuilt, true)
      else RebuildItem(pourId, Some(pouredId), ReadbackMismatch, false)
  }

  /** The result of one attempt; None where a native getter throws. */
  function ResultOf(a: Attempt, before: Snapshot, post: seq<Item>, rebuilt: set<string>,
                    earlier: set<string>): Option<RebuildItem> {
    var ids := ReadbackIds(post, a.pourId);
    if Failed(a) then Some(RebuildItem(a.pourId, None, Failure, false))
    else if a.nativeResult.None? then Some(NoCopperItem(a.pourId, ids, before, post, rebuilt))
    else
      var native := a.nativeResult.value;
      if native.source.Throws? then None
      else if native.source.Text? && native.source.text != a.pourId then
        match IndependentlyReconciled(a, before, post, rebuilt, earlier)
        case None => None
        case Some(Some(id)) => Some(RebuildItem(a.pourId, Some(id), Rebuilt, true))
        case Some(None) => Some(RebuildItem(a.pourId, First(ids), ReadbackMismatch, false))
      else if ids == [] then Some(RebuildItem(a.pourId, None, ReadbackMissing, false))
      else if |ids| != 1 then Some(RebuildItem(a.pourId, First(ids), ReadbackMismatch, false))
      else if native.id.Throws? then None
      else if native.id.Text? && native.id.text != ids[0] then
        Some(RebuildItem(a.pourId, First(ids), ReadbackMismatch, false))
      else Some(DirectItem(a.pourId, ids[0], before, post, rebuilt))
  }

  function Earlier(attempts: seq<Attempt>, i: nat): set<string>
    requires i <= |attempts|
  {
    set j | 0 <= j < i && attempts[j].pourId in RebuiltIds(attempts) :: attempts[j].pourId
  }

  /** The results of the first count attempts; None where mapping throws. */
  function Results(attempts: seq<Attempt>, count: nat, before: Snapshot, post: seq<Item>): (r: Option<seq<RebuildItem>>)
    requires count <= |attempts|
    ensures r.Some? ==> |r.value| == count
    ensures r.Some? ==> forall i :: 0 <= i < count ==>
      ResultOf(attempts[i], before, post, RebuiltIds(attempts), Earlier(attempts, i)) == Some(r.value[i])
  {
    if count == 0 then Some([])
    else
      match Results(attempts, count - 1, before, post)
      case None => None
      case Some(items) =>
        match ResultOf(attempts[count - 1], before, post, RebuiltIds(attempts), Earlier(attempts, count - 1))
        case None => None
        case Some(item) => Some(items + [item])
  }

  function FocusChangedResults(attempts: seq<Attempt>): seq<RebuildItem> {
    seq(|attempts|, i requires 0 <= i < |attempts| =>
      RebuildItem(attempts[i].pourId, None, if Failed(attempts[i]) then Failure else ReadbackMismatch, false))
  }

  function MapResults(attempts: seq<Attempt>, before: Snapshot, post: seq<Item>,
                      focusUnchanged: bool): Option<seq<RebuildItem>> {
    if !focusUnchanged then Some(FocusChangedResults(attempts))
    else if GetterThrows(post) then None
    else Results(attempts, |attempts|, before, post)
  }

  function NativeCount(attempts: seq<Attempt>): (n: nat)
    ensures n <= |attempts|
    ensures n == |attempts| ==> forall i :: 0 <= i < |attempts| ==> !attempts[i].notInvoked
  {
    if attempts == [] then 0
    else
      var rest, last := attempts[..|attempts| - 1], attempts[|attempts| - 1];
      NativeCount(rest) + if last.notInvoked then 0 else 1
  }

  function Success(matched: nat, attempts: seq<Attempt>, results: seq<RebuildItem>): bool {
    NativeCount(attempts) == matched && |results| == matched &&
    forall i :: 0 <= i < |results| ==> results[i].status == Rebuilt
  }

  /** The condition on which the latch is released again. */
  predicate FullyVerified(matched: nat, attempts: seq<Attempt>, results: seq<RebuildItem>, focusUnchanged: bool) {
    && focusUnchanged && NativeCount(attempts) == matched && |results| == matched
    && forall i :: 0 <= i < |results| ==>
      results[i].verified && (results[i].status == Rebuilt || results[i].status == NoCopper)
  }

  // ---------- What the verdicts mean ----------

  /** The poured ids and signatures that the editor shows for a source. */
  function Shown(items: seq<Item>, source: string): set<(Reading, Option<string>)> {
    set i | 0 <= i < |items| && items[i].sourceId == Text(source) :: (items[i].pouredId, items[i].signature)
  }

  predicate ShownOnce(items: seq<Item>, source: string) {
    exists i :: 0 <= i < |items| && items[i].sourceId == Text(source) && Readable(items[i]) &&
                forall j :: 0 <= j < |items| && items[j].sourceId == Text(source) ==> j == i
  }

  lemma SnapshotShows(items: seq<Item>, s: string)
    requires SnapshotOf(items).Some?
    ensures var snapshot := SnapshotOf(items).value;
            && (s in snapshot ==> Shown(items, s) == {(Text(snapshot[s].pouredId), Some(snapshot[s].fillSignature))})
            && (s in snapshot ==> ShownOnce(items, s))
            && (s !in snapshot ==> Shown(items, s) == {})
  {
    hide SnapshotOf;
    var snapshot := SnapshotOf(items).value;
    SnapshotDescribes(items);
    if s in snapshot {
      var i: nat :| HasSource(items, i, s);
      assert Recorded(items[i], snapshot);
      forall j: nat | HasSource(items, j, s) ensures j == i {
      }
      assert (items[i].pouredId, items[i].signature) in Shown(items, s);
      assert forall j: nat :: j < |items| && items[j].sourceId == Text(s) ==> HasSource(items, j, s);
    } else {
      assert forall j: nat :: j < |items| ==> Recorded(items[j], snapshot);
    }
  }

  /** A verified result is evidence that nothing outside the batch changed. */
  lemma VerifiedMeansSame(a: Attempt, before: Snapshot, post: seq<Item>, rebuilt: set<string>, earlier: set<string>)
    requires var r := ResultOf(a, before, post, rebuilt, earlier);
             r.Some? && r.value.verified
    ensures SnapshotOf(post).Some? && SameOutside(before, SnapshotOf(post).value, rebuilt)
    ensures var r, after := ResultOf(a, before, post, rebuilt, earlier).value, SnapshotOf(post).value;
            && !Failed(a) && r.pourId == a.pourId
            && (r.status == Rebuilt ==> a.nativeResult.Some? && a.pourId in after)
            && (r.status == NoCopper ==> a.nativeResult.None? && a.pourId !in after)
  {
    hide SnapshotOf, ReadbackIds, SameOutside, NamesPriorCopper;
    if SnapshotOf(post).Some? {
      SnapshotShowsOne(post, a.pourId);
      SameIfKept(before, SnapshotOf(post).value, rebuilt);
    }
  }

  lemma SameIfKept(before: Snapshot, after: Snapshot, batch: set<string>)
    ensures ExistingUnchanged(before, after) && OnlyBatchAdded(before, after, batch) ==>
      SameOutside(before, after, batch)
  {
  }

  /** Sources that did not return copper show the same before and after. */
  lemma Unchanged(pre: seq<Item>, post: seq<Item>, rebuilt: set<string>, s: string)
    requires SnapshotOf(pre).Some? && SnapshotOf(post).Some? && s !in rebuilt
    requires SameOutside(SnapshotOf(pre).value, SnapshotOf(post).value, rebuilt)
    ensures Shown(pre, s) == Shown(post, s)
  {
    hide SnapshotOf, Shown, ShownOnce;
    SnapshotShows(pre, s);
    SnapshotShows(post, s);
  }

  /** Some call for this source returned copper, and nothing with a message was thrown. */
  predicate GaveCopper(attempts: seq<Attempt>, source: string) {
    exists k :: 0 <= k < |attempts| && attempts[k].pourId == source && attempts[k].nativeResult.Some? &&
                !attempts[k].notInvoked && (attempts[k].error.None? || attempts[k].error.value == "")
  }

  lemma RebuiltIdsAre(attempts: seq<Attempt>)
    ensures forall s :: s in RebuiltIds(attempts) <==> GaveCopper(attempts, s)
  {
    forall k | 0 <= k < |attempts| && ReturnedCopper(attempts[k]) ensures GaveCopper(attempts, attempts[k].pourId) {
    }
  }

  lemma EarlierAre(attempts: seq<Attempt>, i: nat)
    requires i <= |attempts|
    ensures forall s :: s in Earlier(attempts, i) <==>
      GaveCopper(attempts, s) && exists j :: 0 <= j < i && attempts[j].pourId == s
  {
    RebuiltIdsAre(attempts);
  }

  /**
   * Released only on evidence: every target was attempted, the read-back shows each that returned copper exactly
   * once and each other target not at all, and all copper of other sources as before.
   */
  lemma FullyVerifiedMeans(targets: seq<string>, attempts: seq<Attempt>, pre: seq<Item>, post: seq<Item>,
                           focusUnchanged: bool)
    requires targets != [] && |attempts| <= |targets|
    requires forall i :: 0 <= i < |attempts| ==> attempts[i].pourId == targets[i]
    requires SnapshotOf(pre).Some?
    ensures var results := MapResults(attempts, SnapshotOf(pre).value, post, focusUnchanged);
            results.Some? && FullyVerified(|targets|, attempts, results.value, focusUnchanged) ==>
              && |attempts| == |targets|
              && (forall i :: 0 <= i < |attempts| ==> !attempts[i].notInvoked && !Failed(attempts[i]))
              && (forall s :: !GaveCopper(attempts, s) ==> Shown(post, s) == Shown(pre, s))
              && (forall i :: 0 <= i < |attempts| && attempts[i].nativeResult.Some? ==> ShownOnce(post, targets[i]))
              && (forall i :: 0 <= i < |attempts| && attempts[i].nativeResult.None? ==> Shown(post, targets[i]) == {})
  {
    hide ResultOf, SnapshotOf, SameOutside, Shown, ShownOnce;
    var before, rebuilt := SnapshotOf(pre).value, RebuiltIds(attempts);
    var results := MapResults(attempts, before, post, focusUnchanged);
    if results.Some? && FullyVerified(|targets|, attempts, results.value, focusUnchanged) {
      forall i | 0 <= i < |attempts|
        ensures !Failed(attempts[i])
        ensures attempts[i].nativeResult.Some? ==> ShownOnce(post, targets[i])
        ensures attempts[i].nativeResult.None? ==> Shown(post, targets[i]) == {}
        ensures SnapshotOf(post).Some? && SameOutside(before, SnapshotOf(post).value, rebuilt)
      {
        VerifiedMeansSame(attempts[i], before, post, rebuilt, Earlier(attempts, i));
        SnapshotShows(post, targets[i]);
      }
      assert SameOutside(before, SnapshotOf(post).value, rebuilt) by {
        assert 0 < |attempts|;
      }
      RebuiltIdsAre(attempts);
      forall s | !GaveCopper(attempts, s) ensures Shown(post, s) == Shown(pre, s) {
        Unchanged(pre, post, rebuilt, s);
      }
    }
  }

  /**
   * Success, whichever mix of direct and reconciled results it rests on: every target has exactly one poured
   * primitive, and every other source has the copper it had, with none added.
   */
  lemma SuccessMeans(targets: seq<string>, attempts: seq<Attempt>, pre: seq<Item>, post: seq<Item>,
                     focusUnchanged: bool)
    requires targets != [] && |attempts| <= |targets|
    requires forall i :: 0 <= i < |attempts| ==> attempts[i].pourId == targets[i]
    requires SnapshotOf(pre).Some?
    ensures var results := MapResults(attempts, SnapshotOf(pre).value, post, focusUnchanged);
            results.Some? && Success(|targets|, attempts, results.value) ==>
              && focusUnchanged
              && (forall i :: 0 <= i < |targets| ==> ShownOnce(post, targets[i]))
              && (forall s :: s !in targets ==> Shown(post, s) == Shown(pre, s))
              && (forall i :: 0 <= i < |post| ==> Readable(post[i]))
  {
    hide SnapshotOf, SameOutside, Shown, ShownOnce, ResultOf;
    var before := SnapshotOf(pre).value;
    var results := MapResults(attempts, before, post, focusUnchanged);
    if results.Some? && Success(|targets|, attempts, results.value) {
      assert |attempts| == |targets|;
      FocusChangedNeverRebuilt(attempts);
      assert focusUnchanged by {
        assert results.value[0].status == Rebuilt;
      }
      assert results == Results(attempts, |attempts|, before, post);
      forall i | 0 <= i < |attempts|
        ensures results.value[i].verified && attempts[i].nativeResult.Some? && SnapshotOf(post).Some?
      {
        var rebuilt, earlier := RebuiltIds(attempts), Earlier(attempts, i);
        assert ResultOf(attempts[i], before, post, rebuilt, earlier) == Some(results.value[i]);
        RebuiltIsVerified(attempts[i], before, post, rebuilt, earlier);
        VerifiedMeansSame(attempts[i], before, post, rebuilt, earlier);
      }
      FullyVerifiedMeans(targets, attempts, pre, post, focusUnchanged);
      assert SnapshotOf(post).Some? by {
        assert 0 < |attempts|;
      }
      SnapshotReadable(post);
    }
  }

  lemma FocusChangedNeverRebuilt(attempts: seq<Attempt>)
    ensures forall i :: 0 <= i < |attempts| ==> FocusChangedResults(attempts)[i].status != Rebuilt
  {
  }

  lemma SnapshotReadable(items: seq<Item>)
    requires SnapshotOf(items).Some?
    ensures forall i :: 0 <= i < |items| ==> Readable(items[i])
  {
    SnapshotDescribes(items);
    assert forall i :: 0 <= i < |items| ==> Recorded(items[i], SnapshotOf(items).value);
  }

  lemma RebuiltIsVerified(a: Attempt, before: Snapshot, post: seq<Item>, rebuilt: set<string>, earlier: set<string>)
    requires var r := ResultOf(a, before, post, rebuilt, earlier);
             r.Some? && r.value.status == Rebuilt
    ensures ResultOf(a, before, post, rebuilt, earlier).value.verified
  {
  }

  // ---------- Exactly when a result is verified ----------

  /** The editor shows copper of the source under this id. */
  predicate Shows(items: seq<Item>, source: string, id: Reading) {
    exists e :: e in Shown(items, source) && e.0 == id
  }

  lemma SnapshotShowsId(items: seq<Item>, s: string, id: Reading)
    requires SnapshotOf(items).Some?
    ensures Shows(items, s, id) <==>
      s in SnapshotOf(items).value && Text(SnapshotOf(items).value[s].pouredId) == id
    ensures Shown(items, s) != {} <==> s in SnapshotOf(items).value
  {
    hide SnapshotOf, Shown;
    SnapshotShows(items, s);
    var snapshot := SnapshotOf(items).value;
    if s in snapshot {
      assert (Text(snapshot[s].pouredId), Some(snapshot[s].fillSignature)) in Shown(items, s);
    }
  }

  /** Every source shows the copper it had, except where the batch rebuilt it. */
  ghost predicate OthersKept(attempts: seq<Attempt>, pre: seq<Item>, post: seq<Item>) {
    forall s :: !GaveCopper(attempts, s) ==> Shown(post, s) == Shown(pre, s)
  }

  /** The target is new copper under its own id. What was there stays, and what was added belongs to the batch. */
  ghost predicate NewBesideOld(attempts: seq<Attempt>, target: string, pre: seq<Item>, post: seq<Item>) {
    && Shown(pre, target) == {} && Shows(post, target, Text(target))
    && (forall s :: Shown(pre, s) != {} ==> Shown(post, s) == Shown(pre, s))
    && (forall s :: Shown(pre, s) == {} && Shown(post, s) != {} ==> GaveCopper(attempts, s))
  }

  /** The return names copper that was there before, or else copper that an earlier target got, by the id it has. */
  ghost predicate NamesKnownCopper(attempts: seq<Attempt>, i: nat, pre: seq<Item>, post: seq<Item>, named: string,
                                   id: Reading)
    requires i < |attempts|
  {
    if Shown(pre, named) != {} then Shows(pre, named, id)
    else
      && GaveCopper(attempts, named) && (exists j :: 0 <= j < i && attempts[j].pourId == named)
      && Shows(post, named, id)
  }

  /** What the editor has to show for the i-th attempt to count as verified. */
  ghost predicate Earned(attempts: seq<Attempt>, i: nat, pre: seq<Item>, post: seq<Item>)
    requires i < |attempts|
  {
    var a := attempts[i];
    && (a.error.None? || a.error.value == "")
    && AllReadable(post) && SourcesDistinct(post)
    && match a.nativeResult
       case None => Shown(post, a.pourId) == {} && OthersKept(attempts, pre, post)
       case Some(NativeResult(source, id)) =>
         if source == Undefined || source == Text(a.pourId) then
           && Shown(post, a.pourId) != {} && (id == Undefined || Shows(post, a.pourId, id))
           && OthersKept(attempts, pre, post)
         else
           && source.Text? && NewBesideOld(attempts, a.pourId, pre, post)
           && NamesKnownCopper(attempts, i, pre, post, source.text, id)
  }

  predicate Verified(r: Option<RebuildItem>) {
    r.Some? && r.value.verified
  }

  lemma SameIffKept(attempts: seq<Attempt>, pre: seq<Item>, post: seq<Item>)
    requires SnapshotOf(pre).Some? && SnapshotOf(post).Some?
    ensures SameOutside(SnapshotOf(pre).value, SnapshotOf(post).value, RebuiltIds(attempts)) <==>
      OthersKept(attempts, pre, post)
  {
    hide SnapshotOf, Shown, ShownOnce, RebuiltIds, GaveCopper;
    RebuiltIdsAre(attempts);
    forall s
      ensures SameEvidence(SnapshotOf(pre).value, SnapshotOf(post).value, s) <==> Shown(post, s) == Shown(pre, s)
    {
      SameEvidenceShown(pre, post, s);
    }
  }

  predicate SameEvidence(before: Snapshot, after: Snapshot, s: string) {
    if s in before then
      s in after && after[s].pouredId == before[s].pouredId && after[s].fillSignature == before[s].fillSignature
    else
      s !in after
  }

  lemma SameEvidenceShown(pre: seq<Item>, post: seq<Item>, s: string)
    requires SnapshotOf(pre).Some? && SnapshotOf(post).Some?
    ensures SameEvidence(SnapshotOf(pre).value, SnapshotOf(post).value, s) <==> Shown(post, s) == Shown(pre, s)
  {
    hide SnapshotOf, Shown, ShownOnce;
    SnapshotShows(pre, s);
    SnapshotShows(post, s);
    var before, after := SnapshotOf(pre).value, SnapshotOf(post).value;
    if s in before && s in after && Shown(post, s) == Shown(pre, s) {
      assert (Text(before[s].pouredId), Some(before[s].fillSignature)) in Shown(post, s);
    }
  }

  lemma NoCopperVerifiedIff(attempts: seq<Attempt>, i: nat, pre: seq<Item>, post: seq<Item>)
    requires i < |attempts| && SnapshotOf(pre).Some? && attempts[i].nativeResult.None? && !Failed(attempts[i])
    ensures var ids := ReadbackIds(post, attempts[i].pourId);
            var r := NoCopperItem(attempts[i].pourId, ids, SnapshotOf(pre).value, post, RebuiltIds(attempts));
            (r.verified <==> Earned(attempts, i, pre, post)) && (r.verified ==> r.status == NoCopper)
  {
    hide SnapshotOf, SameOutside, RebuiltIds, Shown, ShownOnce, OthersKept, ReadbackIds;
    SnapshotExistsIff(post);
    if SnapshotOf(post).Some? {
      SnapshotShowsOne(post, attempts[i].pourId);
      SnapshotShowsId(post, attempts[i].pourId, Undefined);
      SameIffKept(attempts, pre, post);
    }
  }

  lemma DirectVerifiedIff(attempts: seq<Attempt>, i: nat, pre: seq<Item>, post: seq<Item>)
    requires i < |attempts| && SnapshotOf(pre).Some? && attempts[i].nativeResult.Some? && !Failed(attempts[i])
    requires attempts[i].nativeResult.value.source in {Undefined, Text(attempts[i].pourId)}
    ensures var r := ResultOf(attempts[i], SnapshotOf(pre).value, post, RebuiltIds(attempts), Earlier(attempts, i));
            && (Verified(r) <==> Earned(attempts, i, pre, post))
            && (Verified(r) ==> r.value.status == Rebuilt)
  {
    hide SnapshotOf, SameOutside, RebuiltIds, Earlier, Shown, ShownOnce, OthersKept, ReadbackIds, Shows;
    var a := attempts[i];
    SnapshotExistsIff(post);
    if SnapshotOf(post).Some? {
      SnapshotShowsOne(post, a.pourId);
      SnapshotShowsId(post, a.pourId, a.nativeResult.value.id);
      SameIffKept(attempts, pre, post);
    }
  }

  lemma NewBesideOldIff(attempts: seq<Attempt>, target: string, pre: seq<Item>, post: seq<Item>)
    requires SnapshotOf(pre).Some? && SnapshotOf(post).Some?
    ensures var before, after := SnapshotOf(pre).value, SnapshotOf(post).value;
            NewBesideOld(attempts, target, pre, post) <==>
              && target !in before && target in after && after[target].pouredId == target
              && ExistingUnchanged(before, after) && OnlyBatchAdded(before, after, RebuiltIds(attempts))
  {
    hide SnapshotOf, Shown, ShownOnce, RebuiltIds, GaveCopper, Shows;
    var before, after := SnapshotOf(pre).value, SnapshotOf(post).value;
    RebuiltIdsAre(attempts);
    SnapshotShowsId(post, target, Text(target));
    forall s
      ensures SameEvidence(before, after, s) <==> Shown(post, s) == Shown(pre, s)
      ensures Shown(pre, s) != {} <==> s in before
      ensures Shown(post, s) != {} <==> s in after
    {
      SameEvidenceShown(pre, post, s);
      SnapshotShowsId(pre, s, Undefined);
      SnapshotShowsId(post, s, Undefined);
    }
  }

  lemma NamesKnownIff(attempts: seq<Attempt>, i: nat, pre: seq<Item>, post: seq<Item>, native: NativeResult)
    requires i < |attempts| && SnapshotOf(pre).Some? && SnapshotOf(post).Some? && native.source.Text?
    ensures NamesPriorCopper(native, SnapshotOf(pre).value, SnapshotOf(post).value, Earlier(attempts, i)) == Some(true)
            <==> NamesKnownCopper(attempts, i, pre, post, native.source.text, native.id)
  {
    hide SnapshotOf, Shown, Earlier, GaveCopper, Shows;
    EarlierAre(attempts, i);
    SnapshotShowsId(pre, native.source.text, native.id);
    SnapshotShowsId(post, native.source.text, native.id);
  }

  lemma ForeignVerifiedIff(attempts: seq<Attempt>, i: nat, pre: seq<Item>, post: seq<Item>)
    requires i < |attempts| && SnapshotOf(pre).Some? && attempts[i].nativeResult.Some? && !Failed(attempts[i])
    requires var source := attempts[i].nativeResult.value.source; source.Text? && source.text != attempts[i].pourId
    ensures var r := ResultOf(attempts[i], SnapshotOf(pre).value, post, RebuiltIds(attempts), Earlier(attempts, i));
            && (Verified(r) <==> Earned(attempts, i, pre, post))
            && (Verified(r) ==> r.value.status == Rebuilt && r.value.pouredId == Some(attempts[i].pourId))
  {
    hide SnapshotOf, RebuiltIds, Earlier, ReadbackIds, NewBesideOld, NamesKnownCopper, NamesPriorCopper, OnlyBatchAdded,
      ExistingUnchanged, AllReadable, SourcesDistinct;
    SnapshotExistsIff(post);
    if SnapshotOf(post).Some? {
      NewBesideOldIff(attempts, attempts[i].pourId, pre, post);
      NamesKnownIff(attempts, i, pre, post, attempts[i].nativeResult.value);
    }
  }

  /**
   * A result is verified exactly on what the editor shows: no copper where none was returned, the target's copper under
   * the returned id, or, where the return names another source, new copper of the target's own beside old copper that
   * the return can have meant.
   */
  lemma VerifiedIff(attempts: seq<Attempt>, i: nat, pre: seq<Item>, post: seq<Item>)
    requires i < |attempts| && SnapshotOf(pre).Some?
    ensures var r := ResultOf(attempts[i], SnapshotOf(pre).value, post, RebuiltIds(attempts), Earlier(attempts, i));
            && (Verified(r) <==> Earned(attempts, i, pre, post))
            && (Verified(r) ==> r.value.status == if attempts[i].nativeResult.None? then NoCopper else Rebuilt)
  {
    hide SnapshotOf, RebuiltIds, Earlier, ReadbackIds, NewBesideOld, NamesKnownCopper, NoCopperItem, DirectItem,
      IndependentlyReconciled, OthersKept, Shown, Shows, AllReadable, SourcesDistinct;
    var a := attempts[i];
    if Failed(a) {
    } else if a.nativeResult.None? {
      NoCopperVerifiedIff(attempts, i, pre, post);
    } else if a.nativeResult.value.source.Throws? {
    } else if a.nativeResult.value.source == Undefined || a.nativeResult.value.source == Text(a.pourId) {
      DirectVerifiedIff(attempts, i, pre, post);
    } else {
      ForeignVerifiedIff(attempts, i, pre, post);
    }
  }

  /** What each status says; one that claims copper, or none, is always verified. */
  lemma StatusMeans(attempts: seq<Attempt>, i: nat, pre: seq<Item>, post: seq<Item>)
    requires i < |attempts| && SnapshotOf(pre).Some?
    ensures var a := attempts[i];
            var r, ids := ResultOf(a, SnapshotOf(pre).value, post, RebuiltIds(attempts), Earlier(attempts, i)),
              ReadbackIds(post, a.pourId);
            r.Some? ==>
              && r.value.pourId == a.pourId
              && (r.value.status == Failure <==> a.error.Some? && a.error.value != "")
              && (r.value.status == ReadbackMissing <==>
                    && (a.error.None? || a.error.value == "") && a.nativeResult.Some?
                    && a.nativeResult.value.source in {Undefined, Text(a.pourId)} && ids == [])
              && (r.value.status == Rebuilt || r.value.status == NoCopper <==> r.value.verified)
              && (r.value.status == Rebuilt ==>
                    r.value.pouredId.Some? && Shows(post, a.pourId, Text(r.value.pouredId.value)))
              && (r.value.status == ReadbackMismatch ==>
                    r.value.pouredId == if ids == [] then None else Some(ids[0]))
              && (r.value.status in {Failure, NoCopper, ReadbackMissing} ==> r.value.pouredId.None?)
  {
    hide SnapshotOf, ReadbackIds, SameOutside, NamesPriorCopper, RebuiltIds, Earlier, Shows, OnlyBatchAdded,
      ExistingUnchanged;
    var a := attempts[i];
    var r := ResultOf(a, SnapshotOf(pre).value, post, RebuiltIds(attempts), Earlier(attempts, i));
    if SnapshotOf(post).Some? && r.Some? && r.value.status == Rebuilt {
      SnapshotShowsId(post, a.pourId, Text(r.value.pouredId.value));
    }
  }

  /** After a change of focus nothing is verified, and only errors are told apart. */
  lemma FocusChangedMeans(attempts: seq<Attempt>, before: Snapshot, post: seq<Item>)
    ensures var results := MapResults(attempts, before, post, false);
            && results.Some? && |results.value| == |attempts|
            && forall i :: 0 <= i < |attempts| ==>
                 && results.value[i].pourId == attempts[i].pourId
                 && results.value[i].pouredId.None? && !results.value[i].verified
                 && results.value[i].status ==
                    if attempts[i].error.Some? && attempts[i].error.value != "" then Failure else ReadbackMismatch
  {
  }

  /** A returned id other than the one read back is never taken for the target's copper. */
  lemma OtherIdIsNeverVerified(attempts: seq<Attempt>, i: nat, pre: seq<Item>, post: seq<Item>, id: string)
    requires i < |attempts| && SnapshotOf(pre).Some? && attempts[i].nativeResult.Some?
    requires attempts[i].nativeResult.value.source in {Undefined, Text(attempts[i].pourId)}
    requires attempts[i].nativeResult.value.id == Text(id) && !Shows(post, attempts[i].pourId, Text(id))
    ensures !Verified(ResultOf(attempts[i], SnapshotOf(pre).value, post, RebuiltIds(attempts), Earlier(attempts, i)))
  {
    hide ResultOf, SnapshotOf;
    VerifiedIff(attempts, i, pre, post);
  }

  /** All attempts earned their results, on the same PCB. */
  ghost predicate AllEarned(targets: seq<string>, attempts: seq<Attempt>, pre: seq<Item>, post: seq<Item>) {
    && |attempts| == |targets|
    && forall i :: 0 <= i < |attempts| ==> !attempts[i].notInvoked && Earned(attempts, i, pre, post)
  }

  lemma {:induction false} ResultsOfVerified(attempts: seq<Attempt>, count: nat, before: Snapshot, post: seq<Item>)
    requires count <= |attempts|
    requires forall i :: 0 <= i < count ==>
      ResultOf(attempts[i], before, post, RebuiltIds(attempts), Earlier(attempts, i)).Some?
    ensures Results(attempts, count, before, post).Some?
  {
    hide ResultOf, RebuiltIds, Earlier;
    if count > 0 {
      ResultsOfVerified(attempts, count - 1, before, post);
    }
  }

  /** The results of attempts that all earned them. */
  lemma EarnedResults(targets: seq<string>, attempts: seq<Attempt>, pre: seq<Item>, post: seq<Item>)
    requires targets != [] && SnapshotOf(pre).Some? && AllEarned(targets, attempts, pre, post)
    ensures var results := MapResults(attempts, SnapshotOf(pre).value, post, true);
            && results.Some? && |results.value| == |targets| && NativeCount(attempts) == |targets|
            && (forall i :: 0 <= i < |targets| ==> results.value[i].verified)
            && forall i :: 0 <= i < |targets| ==>
                 results.value[i].status == if attempts[i].nativeResult.None? then NoCopper else Rebuilt
  {
    hide SnapshotOf, ResultOf, RebuiltIds, Earlier, Earned;
    forall i | 0 <= i < |attempts|
      ensures var r := ResultOf(attempts[i], SnapshotOf(pre).value, post, RebuiltIds(attempts), Earlier(attempts, i));
              Verified(r) && r.value.status == if attempts[i].nativeResult.None? then NoCopper else Rebuilt
    {
      VerifiedIff(attempts, i, pre, post);
    }
    ResultsOfVerified(attempts, |attempts|, SnapshotOf(pre).value, post);
    AllInvoked(attempts);
    EarnedIsReadable(attempts, 0, pre, post);
  }

  lemma EarnedIsReadable(attempts: seq<Attempt>, i: nat, pre: seq<Item>, post: seq<Item>)
    requires i < |attempts| && Earned(attempts, i, pre, post)
    ensures !GetterThrows(post)
  {
  }

  /** Verified results of invoked attempts were earned. */
  lemma VerifiedAreEarned(targets: seq<string>, attempts: seq<Attempt>, pre: seq<Item>, post: seq<Item>)
    requires SnapshotOf(pre).Some? && |attempts| <= |targets| && NativeCount(attempts) == |targets|
    requires var results := MapResults(attempts, SnapshotOf(pre).value, post, true);
             results.Some? && forall i :: 0 <= i < |attempts| ==> results.value[i].verified
    ensures AllEarned(targets, attempts, pre, post)
  {
    hide SnapshotOf, ResultOf, RebuiltIds, Earlier, Earned, GetterThrows;
    var results := MapResults(attempts, SnapshotOf(pre).value, post, true);
    forall i | 0 <= i < |attempts| ensures Earned(attempts, i, pre, post) {
      VerifiedIff(attempts, i, pre, post);
      assert results.value[i].verified;
    }
  }

  /** The condition for reopening the latch holds exactly if every attempt was made and earned its result. */
  lemma FullyVerifiedIff(targets: seq<string>, attempts: seq<Attempt>, pre: seq<Item>, post: seq<Item>,
                         focusUnchanged: bool)
    requires targets != [] && |attempts| <= |targets| && SnapshotOf(pre).Some?
    ensures var results := MapResults(attempts, SnapshotOf(pre).value, post, focusUnchanged);
            results.Some? && FullyVerified(|targets|, attempts, results.value, focusUnchanged) <==>
              focusUnchanged && AllEarned(targets, attempts, pre, post)
  {
    hide SnapshotOf, MapResults, AllEarned;
    var results := MapResults(attempts, SnapshotOf(pre).value, post, focusUnchanged);
    if focusUnchanged && AllEarned(targets, attempts, pre, post) {
      EarnedResults(targets, attempts, pre, post);
    }
    if results.Some? && FullyVerified(|targets|, attempts, results.value, focusUnchanged) {
      VerifiedAreEarned(targets, attempts, pre, post);
    }
  }

  /** Success: the same, with copper returned for every target. */
  lemma SuccessIff(targets: seq<string>, attempts: seq<Attempt>, pre: seq<Item>, post: seq<Item>, focusUnchanged: bool)
    requires targets != [] && |attempts| <= |targets| && SnapshotOf(pre).Some?
    ensures var results := MapResults(attempts, SnapshotOf(pre).value, post, focusUnchanged);
            results.Some? && Success(|targets|, attempts, results.value) <==>
              && focusUnchanged && AllEarned(targets, attempts, pre, post)
              && forall i :: 0 <= i < |attempts| ==> attempts[i].nativeResult.Some?
  {
    hide SnapshotOf, MapResults, AllEarned;
    var results := MapResults(attempts, SnapshotOf(pre).value, post, focusUnchanged);
    if focusUnchanged && AllEarned(targets, attempts, pre, post) {
      EarnedResults(targets, attempts, pre, post);
      AllEarnedLength(targets, attempts, pre, post);
    }
    if results.Some? && Success(|targets|, attempts, results.value) {
      SuccessIsVerified(targets, attempts, pre, post, focusUnchanged);
      VerifiedAreEarned(targets, attempts, pre, post);
    }
  }

  lemma AllEarnedLength(targets: seq<string>, attempts: seq<Attempt>, pre: seq<Item>, post: seq<Item>)
    requires AllEarned(targets, attempts, pre, post)
    ensures |attempts| == |targets|
  {
  }

  lemma SuccessIsVerified(targets: seq<string>, attempts: seq<Attempt>, pre: seq<Item>, post: seq<Item>,
                          focusUnchanged: bool)
    requires targets != [] && SnapshotOf(pre).Some?
    requires var results := MapResults(attempts, SnapshotOf(pre).value, post, focusUnchanged);
             results.Some? && Success(|targets|, attempts, results.value)
    ensures focusUnchanged && |attempts| == |targets|
    ensures forall i :: 0 <= i < |attempts| ==>
      && attempts[i].nativeResult.Some?
      && MapResults(attempts, SnapshotOf(pre).value, post, focusUnchanged).value[i].verified
  {
    hide SnapshotOf, ResultOf, RebuiltIds, Earlier, GetterThrows;
    var results := MapResults(attempts, SnapshotOf(pre).value, post, focusUnchanged);
    FocusChangedNeverRebuilt(attempts);
    assert focusUnchanged by {
      assert results.value[0].status == Rebuilt;
    }
    forall i | 0 <= i < |attempts| ensures results.value[i].verified && attempts[i].nativeResult.Some? {
      var rebuilt, earlier := RebuiltIds(attempts), Earlier(attempts, i);
      RebuiltIsVerified(attempts[i], SnapshotOf(pre).value, post, rebuilt, earlier);
      VerifiedMeansSame(attempts[i], SnapshotOf(pre).value, post, rebuilt, earlier);
    }
  }

  // ---------- When a rebuild does succeed ----------

  /** The call returned copper that is, as far as it says, the target's own. */
  predicate ReturnedOwn(a: Attempt, after: Snapshot) {
    && a.error.None? && !a.notInvoked && a.nativeResult.Some? && a.pourId in after
    && (var n := a.nativeResult.value;
        && (n.source == Undefined || n.source == Text(a.pourId))
        && (n.id == Undefined || n.id == Text(after[a.pourId].pouredId)))
  }

  lemma ReturnedOwnIsRebuilt(a: Attempt, before: Snapshot, post: seq<Item>, rebuilt: set<string>, earlier: set<string>)
    requires SnapshotOf(post).Some? && ReturnedOwn(a, SnapshotOf(post).value)
    requires SameOutside(before, SnapshotOf(post).value, rebuilt)
    ensures ResultOf(a, before, post, rebuilt, earlier) ==
            Some(RebuildItem(a.pourId, Some(SnapshotOf(post).value[a.pourId].pouredId), Rebuilt, true))
  {
    hide SnapshotOf, ReadbackIds, SameOutside;
    SnapshotShowsOne(post, a.pourId);
  }

  lemma {:induction false} ResultsAllRebuilt(attempts: seq<Attempt>, count: nat, before: Snapshot, post: seq<Item>)
    requires count <= |attempts| && SnapshotOf(post).Some?
    requires forall i :: 0 <= i < count ==> ReturnedOwn(attempts[i], SnapshotOf(post).value)
    requires SameOutside(before, SnapshotOf(post).value, RebuiltIds(attempts))
    ensures var r := Results(attempts, count, before, post);
            r.Some? && forall i :: 0 <= i < count ==> r.value[i].status == Rebuilt && r.value[i].verified
  {
    hide SnapshotOf, SameOutside, ResultOf, ReturnedOwn;
    if count > 0 {
      ResultsAllRebuilt(attempts, count - 1, before, post);
      ReturnedOwnIsRebuilt(attempts[count - 1], before, post, RebuiltIds(attempts), Earlier(attempts, count - 1));
    }
  }

  lemma {:induction false} AllInvoked(attempts: seq<Attempt>)
    requires forall i :: 0 <= i < |attempts| ==> !attempts[i].notInvoked
    ensures NativeCount(attempts) == |attempts|
  {
    if attempts != [] {
      AllInvoked(attempts[..|attempts| - 1]);
    }
  }

  lemma ReadableNeverThrows(items: seq<Item>)
    requires SnapshotOf(items).Some?
    ensures !GetterThrows(items)
  {
    SnapshotReadable(items);
  }

  /**
   * A well-behaved rebuild does succeed and opens the latch: every call returns its own target's copper, the read-back
   * shows it, and nothing outside the batch has changed.
   */
  lemma WellBehavedRebuildSucceeds(attempts: seq<Attempt>, before: Snapshot, post: seq<Item>)
    requires SnapshotOf(post).Some?
    requires forall i :: 0 <= i < |attempts| ==> ReturnedOwn(attempts[i], SnapshotOf(post).value)
    requires SameOutside(before, SnapshotOf(post).value, RebuiltIds(attempts))
    ensures var results := MapResults(attempts, before, post, true);
            && results.Some? && Success(|attempts|, attempts, results.value)
            && FullyVerified(|attempts|, attempts, results.value, true)
  {
    hide SnapshotOf, SameOutside, Results, GetterThrows;
    ReadableNeverThrows(post);
    ResultsAllRebuilt(attempts, |attempts|, before, post);
    AllInvoked(attempts);
  }
}
