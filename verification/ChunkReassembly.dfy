// Putting chunked payloads together again (manager.ts, lines 38-59, 505-590).
module ChunkReassembly {
  import opened Options
  import opened Utf16

  const CHUNK_ASSEMBLY_TTL_MS := 60000
  const CHUNK_AGGREGATE_MULTIPLIER := 8

  type Piece = seq<Unit>

  /** A chunk envelope; a field of the wrong type is read as an empty id or as no data. */
  datatype Envelope = Envelope(id: string, number: int, total: int, data: Option<Piece>)

  predicate WellFormed(e: Envelope) {
    e.id != "" && 0 <= e.number < e.total && 1 <= e.total <= 4096 && e.data.Some?
  }

  datatype Outcome = Invalid | Stored | Conflicting | TooLarge | Complete(text: seq<Unit>)

  // ---------- The specification: a table of received pieces ----------

  datatype Partial = Partial(pieces: seq<Option<Piece>>, startedAt: int)

  type Table = map<string, Partial>

  function TextOf(piece: Option<Piece>): Piece {
    if piece.Some? then piece.value else []
  }

  /** The pieces joined, the missing ones as nothing. */
  function Joined(pieces: seq<Option<Piece>>): seq<Unit> {
    if pieces == [] then [] else TextOf(pieces[0]) + Joined(pieces[1..])
  }

  predicate AllPresent(pieces: seq<Option<Piece>>) {
    forall k :: 0 <= k < |pieces| ==> pieces[k].Some?
  }

  function Unexpired(table: Table, now: int): Table {
    map id | id in table && now - table[id].startedAt <= 60000 :: table[id]
  }

  function Missing(total: nat): seq<Option<Piece>> {
    seq(total, _ => None)
  }

  /**
   * A piece is refused exactly if the text joined so far would be larger than the cap in UTF-8, and the text is
   * complete exactly when no piece is missing.
   */
  function Deliver(table: Table, cap: nat, e: Envelope, now: int): (Table, Outcome) {
    if !WellFormed(e) then (table, Invalid)
    else
      var live := Unexpired(table, now);
      var entry := if e.id in live then live[e.id] else Partial(Missing(e.total), now);
      if |entry.pieces| != e.total then (live - {e.id}, Conflicting)
      else
        var pieces := entry.pieces[e.number := e.data];
        if Utf8Size(Joined(pieces)) > cap then (live - {e.id}, TooLarge)
        else if AllPresent(pieces) then (live - {e.id}, Complete(Joined(pieces)))
        else (live[e.id := Partial(pieces, entry.startedAt)], Stored)
  }

  // ---------- Sums of sizes ----------

  function PieceSize(piece: Option<Piece>): nat {
    Utf8Size(TextOf(piece))
  }

  /** The sum of the sizes of the pieces, each taken alone. */
  function SizeSum(pieces: seq<Option<Piece>>): nat {
    if pieces == [] then 0 else PieceSize(pieces[0]) + SizeSum(pieces[1..])
  }

  function Count(pieces: seq<Option<Piece>>): nat {
    if pieces == [] then 0 else (if pieces[0].Some? then 1 else 0) + Count(pieces[1..])
  }

  lemma {:induction false} JoinedIsNoLarger(pieces: seq<Option<Piece>>)
    ensures Utf8Size(Joined(pieces)) <= SizeSum(pieces)
  {
    if pieces != [] {
      JoinedIsNoLarger(pieces[1..]);
      SizeOfJoin(TextOf(pieces[0]), Joined(pieces[1..]));
    }
  }

  lemma {:induction false} SizeSumUpdate(pieces: seq<Option<Piece>>, k: nat, piece: Option<Piece>)
    requires k < |pieces|
    ensures SizeSum(pieces[k := piece]) == SizeSum(pieces) - PieceSize(pieces[k]) + PieceSize(piece)
  {
    hide PieceSize;
    if k > 0 {
      SizeSumUpdate(pieces[1..], k - 1, piece);
      assert pieces[k := piece][1..] == pieces[1..][k - 1 := piece];
    } else {
      assert pieces[k := piece][1..] == pieces[1..];
    }
  }

  lemma {:induction false} CountUpdate(pieces: seq<Option<Piece>>, k: nat, piece: Piece)
    requires k < |pieces|
    ensures Count(pieces[k := Some(piece)]) == Count(pieces) + if pieces[k].None? then 1 else 0
  {
    if k > 0 {
      CountUpdate(pieces[1..], k - 1, piece);
      assert pieces[k := Some(piece)][1..] == pieces[1..][k - 1 := Some(piece)];
    } else {
      assert pieces[k := Some(piece)][1..] == pieces[1..];
    }
  }

  lemma {:induction false} CountIsFull(pieces: seq<Option<Piece>>)
    ensures Count(pieces) <= |pieces|
    ensures Count(pieces) == |pieces| <==> AllPresent(pieces)
  {
    if pieces != [] {
      CountIsFull(pieces[1..]);
      if AllPresent(pieces[1..]) && pieces[0].Some? {
        forall k | 0 <= k < |pieces| ensures pieces[k].Some? {
          assert k > 0 ==> pieces[k] == pieces[1..][k - 1];
        }
      }
      if AllPresent(pieces) {
        assert forall k :: 0 <= k < |pieces[1..]| ==> pieces[1..][k] == pieces[k + 1];
      }
    }
  }

  lemma {:induction false} NothingReceived(total: nat)
    ensures SizeSum(Missing(total)) == 0 && Count(Missing(total)) == 0
  {
    if total > 0 {
      NothingReceived(total - 1);
      assert Missing(total)[1..] == Missing(total - 1);
    }
  }

  // ---------- The code ----------

  /**
   * The accounting for one replacement.  The sum of sizes may exceed the size of the joined text, so only above
   * the cap is the text joined and measured; the verdict is exact either way.
   */
  function ReplacementChunkBytes(chunks: seq<Option<Piece>>, number: nat, total: int, piece: Piece, cap: nat)
    : (r: (int, int))
    requires number < |chunks| && total == SizeSum(chunks)
    ensures var candidate := chunks[number := Some(piece)];
            && r.0 == SizeSum(candidate)
            && Utf8Size(Joined(candidate)) <= r.1 <= r.0
            && (r.1 > cap <==> Utf8Size(Joined(candidate)) > cap)
  {
    SizeSumUpdate(chunks, number, Some(piece));
    JoinedIsNoLarger(chunks[number := Some(piece)]);
    var conservative := total - PieceSize(chunks[number]) + Utf8Size(piece);
    if conservative <= cap then (conservative, conservative)
    else (conservative, Utf8Size(Joined(chunks[number := Some(piece)])))
  }

  datatype Assembly = Assembly(chunks: seq<Option<Piece>>, total: nat, received: nat, bytes: int, startedAt: int)

  /** The counters of an assembly agree with its pieces, and some piece is missing. */
  ghost predicate Accounted(a: Assembly, cap: nat) {
    && |a.chunks| == a.total && 1 <= a.total <= 4096
    && a.received == Count(a.chunks) < a.total
    && a.bytes == SizeSum(a.chunks)
    && Utf8Size(Joined(a.chunks)) <= cap
  }

  ghost function Contents(assemblies: map<string, Assembly>): Table {
    map id | id in assemblies :: Partial(assemblies[id].chunks, assemblies[id].startedAt)
  }

  lemma ContentsUpdates(assemblies: map<string, Assembly>, id: string, a: Assembly)
    ensures Contents(assemblies - {id}) == Contents(assemblies) - {id}
    ensures Contents(assemblies[id := a]) == Contents(assemblies)[id := Partial(a.chunks, a.startedAt)]
  {
  }

  lemma ContentsOf(assemblies: map<string, Assembly>, id: string)
    ensures id in Contents(assemblies) <==> id in assemblies
    ensures id in assemblies ==> Contents(assemblies)[id] == Partial(assemblies[id].chunks, assemblies[id].startedAt)
  {
  }

  lemma AssemblyCounts(assemblies: map<string, Assembly>, id: string, cap: nat)
    requires id in assemblies ==> Accounted(assemblies[id], cap)
    ensures id in assemblies ==>
      var a := assemblies[id]; |a.chunks| == a.total && a.received == Count(a.chunks) && a.bytes == SizeSum(a.chunks)
  {
  }

  lemma KeptIsAccounted(a: Assembly, cap: nat)
    requires |a.chunks| == a.total && 1 <= a.total <= 4096 && a.received == Count(a.chunks) < a.total
    requires a.bytes == SizeSum(a.chunks) && Utf8Size(Joined(a.chunks)) <= cap
    ensures Accounted(a, cap)
  {
  }

  lemma MissingLength(total: nat)
    ensures |Missing(total)| == total
  {
  }

  class ChunkReassembler {
    const aggregateCap: nat
    var assemblies: map<string, Assembly>
    var closed: bool

    ghost predicate Valid()
      reads this
    {
      forall id :: id in assemblies ==> Accounted(assemblies[id], aggregateCap)
    }

    constructor (maxPayload: nat)
      ensures Valid() && aggregateCap == 8 * maxPayload && Contents(assemblies) == map[] && !closed
    {
      aggregateCap, assemblies, closed := maxPayload * CHUNK_AGGREGATE_MULTIPLIER, map[], false;
    }

    method DropExpired(now: int)
      requires Valid()
      modifies this`assemblies
      ensures Valid() && Contents(assemblies) == Unexpired(old(Contents(assemblies)), now)
    {
      hide Accounted;
      var keys := assemblies.Keys;
      while keys != {}
        invariant Valid() && keys <= assemblies.Keys <= old(assemblies).Keys
        invariant forall id :: id in assemblies ==> assemblies[id] == old(assemblies)[id]
        invariant forall id :: id in old(assemblies) && id !in keys ==>
          (id in assemblies <==> now - old(assemblies)[id].startedAt <= CHUNK_ASSEMBLY_TTL_MS)
      {
        var key :| key in keys;
        keys := keys - {key};
        if now - assemblies[key].startedAt > CHUNK_ASSEMBLY_TTL_MS {
          assemblies := assemblies - {key};
        }
      }
    }

    /** Takes in one envelope; a complete text is handed on, and a payload over the cap closes the socket. */
    method HandleChunk(e: Envelope, now: int) returns (outcome: Outcome)
      requires Valid()
      modifies this`assemblies, this`closed
      ensures Valid()
      ensures (Contents(assemblies), outcome) == Deliver(old(Contents(assemblies)), aggregateCap, e, now)
      ensures closed == (old(closed) || outcome.TooLarge?)
    {
      if e.id == "" || e.number < 0 || e.total < 1 || e.total > 4096 || e.number >= e.total || e.data.None? {
        return Invalid;
      }
      hide Accounted, Contents, SizeSum, Count, Missing, Utf8Size, Joined, AllPresent, Unexpired;
      DropExpired(now);
      ContentsOf(assemblies, e.id);
      ContentsUpdates(assemblies, e.id, Assembly([], 0, 0, 0, 0));
      NothingReceived(e.total);
      AssemblyCounts(assemblies, e.id, aggregateCap);
      MissingLength(e.total);
      var assembly: Assembly;
      if e.id in assemblies {
        assembly := assemblies[e.id];
      } else {
        assembly := Assembly(Missing(e.total), e.total, 0, 0, now);
      }
      if assembly.total != e.total {
        assemblies := assemblies - {e.id};
        return Conflicting;
      }
      outcome := Store(assembly, e);
    }

    method Store(assembly: Assembly, e: Envelope) returns (outcome: Outcome)
      requires Valid() && WellFormed(e) && assembly.total == |assembly.chunks| == e.total
      requires assembly.received == Count(assembly.chunks) && assembly.bytes == SizeSum(assembly.chunks)
      modifies this`assemblies, this`closed
      ensures Valid()
      ensures var pieces := assembly.chunks[e.number := e.data];
              var before, after := old(Contents(assemblies)), Contents(assemblies);
              if Utf8Size(Joined(pieces)) > aggregateCap then after == before - {e.id} && outcome == TooLarge
              else if AllPresent(pieces) then after == before - {e.id} && outcome == Complete(Joined(pieces))
              else after == before[e.id := Partial(pieces, assembly.startedAt)] && outcome == Stored
      ensures closed == (old(closed) || outcome.TooLarge?)
    {
      hide Accounted, Contents, SizeSum, Count, Missing, Utf8Size, Joined, AllPresent;
      var piece := e.data.value;
      var previous := assembly.chunks[e.number];
      var (conservative, measured) :=
        ReplacementChunkBytes(assembly.chunks, e.number, assembly.bytes, piece, aggregateCap);
      ContentsUpdates(assemblies, e.id, assembly);
      if measured > aggregateCap {
        assemblies := assemblies - {e.id};
        closed := true;
        return TooLarge;
      }
      var received := assembly.received + if previous.None? then 1 else 0;
      var chunks := assembly.chunks[e.number := Some(piece)];
      CountUpdate(assembly.chunks, e.number, piece);
      CountIsFull(chunks);
      if received == assembly.total {
        assemblies := assemblies - {e.id};
        return Complete(Joined(chunks));
      }
      var kept := Assembly(chunks, assembly.total, received, conservative, assembly.startedAt);
      KeptIsAccounted(kept, aggregateCap);
      ContentsUpdates(assemblies, e.id, kept);
      assemblies := assemblies[e.id := kept];
      return Stored;
    }
  }
}
