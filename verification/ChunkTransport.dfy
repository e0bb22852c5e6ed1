// Splitting a payload into chunk envelopes (send, index.ts, lines 862-890), and its journey through the reassembler.
module ChunkTransport {
  import opened Options
  import opened Decimals
  import opened Utf16
  import opened ChunkReassembly

  const MIN_CHUNK := 16384

  function ChunkSize(maxPayload: nat): (size: nat)
    ensures size >= MIN_CHUNK
  {
    if maxPayload / 4 > MIN_CHUNK then maxPayload / 4 else MIN_CHUNK
  }

  /** length / size, rounded up. */
  function Total(length: nat, size: nat): nat
    requires size > 0
  {
    (length + size - 1) / size
  }

  function Cut(length: nat, size: nat, k: nat): (at: nat)
    ensures at <= length
  {
    if k * size < length then k * size else length
  }

  lemma CutsInOrder(length: nat, size: nat, k: nat)
    ensures Cut(length, size, k) <= Cut(length, size, k + 1) <= Cut(length, size, k) + size
  {
    assert (k + 1) * size == k * size + size;
  }

  /** The k-th slice of the payload; the last may be shorter. */
  function Slice(payload: seq<Unit>, size: nat, k: nat): Piece {
    CutsInOrder(|payload|, size, k);
    payload[Cut(|payload|, size, k)..Cut(|payload|, size, k + 1)]
  }

  function EnvelopeOf(id: string, payload: seq<Unit>, size: nat, k: nat): Envelope
    requires size > 0
  {
    Envelope(id, k, Total(|payload|, size), Some(Slice(payload, size, k)))
  }

  function ChunkId(now: nat, counter: nat): string {
    "chk_" + Decimal(now) + "_" + Decimal(counter)
  }

  datatype Message = Whole(text: seq<Unit>) | Chunk(envelope: Envelope)

  function ChunksOf(id: string, payload: seq<Unit>, size: nat, count: nat): seq<Message>
    requires size > 0
  {
    seq(count, k requires 0 <= k => Chunk(EnvelopeOf(id, payload, size, k)))
  }

  class ChunkSender {
    var chunkIdCounter: nat
    var bridgeMaxPayloadSize: nat
    var serverSupportsChunking: bool

    constructor ()
      ensures chunkIdCounter == 0 && bridgeMaxPayloadSize == 1048576 && !serverSupportsChunking
    {
      chunkIdCounter, bridgeMaxPayloadSize, serverSupportsChunking := 0, 1048576, false;
    }

    method Send(payload: seq<Unit>, now: nat) returns (messages: seq<Message>)
      modifies this`chunkIdCounter
      ensures !serverSupportsChunking || |payload| <= bridgeMaxPayloadSize / 2 ==>
        messages == [Whole(payload)] && chunkIdCounter == old(chunkIdCounter)
      ensures serverSupportsChunking && |payload| > bridgeMaxPayloadSize / 2 ==>
        && chunkIdCounter == old(chunkIdCounter) + 1
        && var size := ChunkSize(bridgeMaxPayloadSize);
           && messages == ChunksOf(ChunkId(now, chunkIdCounter), payload, size, Total(|payload|, size))
           && ChunkId(now, chunkIdCounter) == "chk_" + Decimal(now) + "_" + Decimal(chunkIdCounter)
    {
      if serverSupportsChunking && |payload| > bridgeMaxPayloadSize / 2 {
        var chunkSize := ChunkSize(bridgeMaxPayloadSize);
        var total := Total(|payload|, chunkSize);
        chunkIdCounter := chunkIdCounter + 1;
        var id := ChunkId(now, chunkIdCounter);
        messages := [];
        for k := 0 to total
          invariant messages == ChunksOf(id, payload, chunkSize, k)
        {
          messages := messages + [Chunk(Envelope(id, k, total, Some(Slice(payload, chunkSize, k))))];
        }
        return;
      }
      return [Whole(payload)];
    }
  }

  // ---------- Identifiers ----------

  lemma ChunkIdSuffix(now: nat, counter: nat)
    ensures var id, d := ChunkId(now, counter), Decimal(counter);
            && |d| < |id| && id[|id| - |d|..] == d && id[|id| - |d| - 1] == '_'
  {
    var prefix := "chk_" + Decimal(now);
    assert ChunkId(now, counter) == prefix + "_" + Decimal(counter);
  }

  /** Sends with different counters use different ids, whatever the clock says. */
  lemma ChunkIdsDiffer(now: nat, counter: nat, later: nat, other: nat)
    requires counter != other
    ensures ChunkId(now, counter) != ChunkId(later, other)
  {
    var id, d, e := ChunkId(now, counter), Decimal(counter), Decimal(other);
    if id == ChunkId(later, other) {
      ChunkIdSuffix(now, counter);
      ChunkIdSuffix(later, other);
      assert |d| < |e| ==> e[|e| - |d| - 1] == id[|id| - |d| - 1] == '_';
      assert |e| < |d| ==> d[|d| - |e| - 1] == id[|id| - |e| - 1] == '_';
      DecimalIsDigits(counter);
      DecimalIsDigits(other);
      assert d == e;
      DecimalInjective(counter, other);
    }
  }

  // ---------- Any pieces of a payload are no larger than the payload ----------

  /** The slices whose numbers are in the set, the others missing. */
  function Received(payload: seq<Unit>, size: nat, total: nat, seen: set<int>): seq<Option<Piece>> {
    seq(total, k requires 0 <= k => if k in seen then Some(Slice(payload, size, k)) else None)
  }

  /** p has the pieces of q or lacks them. */
  predicate Lacks(p: seq<Option<Piece>>, q: seq<Option<Piece>>) {
    |p| == |q| && forall k :: 0 <= k < |p| ==> p[k] == q[k] || p[k] == None
  }

  lemma {:induction false} LackingShrinks(before: seq<Unit>, p: seq<Option<Piece>>, q: seq<Option<Piece>>)
    requires Lacks(p, q)
    ensures Utf8Size(before + Joined(p)) <= Utf8Size(before + Joined(q))
    decreases |p|
  {
    hide Utf8Size, Joined;
    if p != [] {
      assert Lacks(p[1..], q[1..]);
      JoinedFront(before, p);
      JoinedFront(before, q);
      if p[0] == q[0] {
        LackingShrinks(before + TextOf(p[0]), p[1..], q[1..]);
      } else {
        LackingShrinks(before, p[1..], q[1..]);
        CuttingShrinks(before, TextOf(q[0]), Joined(q[1..]));
      }
    }
  }

  lemma JoinedFront(before: seq<Unit>, p: seq<Option<Piece>>)
    requires p != []
    ensures before + Joined(p) == before + TextOf(p[0]) + Joined(p[1..])
    ensures p[0].None? ==> before + Joined(p) == before + Joined(p[1..])
  {
    assert before + (TextOf(p[0]) + Joined(p[1..])) == before + TextOf(p[0]) + Joined(p[1..]);
    assert p[0].None? ==> before + TextOf(p[0]) == before;
  }

  lemma TotalCovers(length: nat, size: nat)
    requires size > 0
    ensures Cut(length, size, 0) == 0 && Cut(length, size, Total(length, size)) == length
    ensures length > 0 ==> Total(length, size) > 0 && (Total(length, size) - 1) * size < length
  {
    var t := Total(length, size);
    assert length + size - 1 < t * size + size;
    assert t * size >= length;
  }

  lemma {:induction false} SlicesJoin(payload: seq<Unit>, size: nat, total: nat, pieces: seq<Option<Piece>>, k: nat)
    requires size > 0 && k <= total == |pieces| && Cut(|payload|, size, total) == |payload|
    requires forall m :: 0 <= m < total ==> pieces[m] == Some(Slice(payload, size, m))
    ensures Joined(pieces[k..]) == payload[Cut(|payload|, size, k)..]
    decreases total - k
  {
    if k < total {
      SlicesJoin(payload, size, total, pieces, k + 1);
      CutsInOrder(|payload|, size, k);
      assert pieces[k..][1..] == pieces[k + 1..];
      var from, to := Cut(|payload|, size, k), Cut(|payload|, size, k + 1);
      assert payload[from..] == payload[from..to] + payload[to..];
    }
  }

  /** All slices together are the payload, and any of them take no more bytes than it. */
  lemma ReceivedTexts(payload: seq<Unit>, size: nat, seen: set<int>)
    requires size > 0
    ensures var total := Total(|payload|, size);
            && Utf8Size(Joined(Received(payload, size, total, seen))) <= Utf8Size(payload)
            && ((forall k :: 0 <= k < total ==> k in seen) ==> Joined(Received(payload, size, total, seen)) == payload)
  {
    hide Utf8Size, Joined, Slice, Total, Cut;
    var total := Total(|payload|, size);
    var whole: seq<Option<Piece>> := seq(total, k requires 0 <= k => Some(Slice(payload, size, k)));
    TotalCovers(|payload|, size);
    SlicesJoin(payload, size, total, whole, 0);
    assert whole[0..] == whole && payload[0..] == payload;
    LackingShrinks([], Received(payload, size, total, seen), whole);
    assert [] + Joined(whole) == Joined(whole);
    assert [] + Joined(Received(payload, size, total, seen)) == Joined(Received(payload, size, total, seen));
    if forall k :: 0 <= k < total ==> k in seen {
      assert Received(payload, size, total, seen) == whole;
    }
  }

  // ---------- Runs of the reassembler ----------

  datatype Arrival = Arrival(envelope: Envelope, at: int)

  function Run(table: Table, cap: nat, arrivals: seq<Arrival>): (r: (Table, seq<Outcome>))
    ensures |r.1| == |arrivals|
  {
    if arrivals == [] then (table, [])
    else
      var before := Run(table, cap, arrivals[..|arrivals| - 1]);
      var last := arrivals[|arrivals| - 1];
      var (after, outcome) := Deliver(before.0, cap, last.envelope, last.at);
      (after, before.1 + [outcome])
  }

  /** The numbers of the pieces of the payload that have arrived. */
  function Seen(arrivals: seq<Arrival>, id: string): set<int> {
    set i | 0 <= i < |arrivals| && arrivals[i].envelope.id == id :: arrivals[i].envelope.number
  }

  function FirstAt(arrivals: seq<Arrival>, id: string): Option<int> {
    if arrivals == [] then None
    else
      var before, last := FirstAt(arrivals[..|arrivals| - 1], id), arrivals[|arrivals| - 1];
      if before.None? && last.envelope.id == id then Some(last.at) else before
  }

  predicate Covers(seen: set<int>, total: nat) {
    forall k :: 0 <= k < total ==> k in seen
  }

  /**
   * Envelopes with the id carry pieces of the payload, in any order and any number of times and mixed with other
   * envelopes, all within the time limit from the first; not all pieces are there before the last arrival.
   */
  predicate Transmission(arrivals: seq<Arrival>, id: string, payload: seq<Unit>, size: nat)
    requires size > 0
  {
    && (forall i :: 0 <= i < |arrivals| && arrivals[i].envelope.id == id ==>
      IsPiece(arrivals[i].envelope, id, payload, size))
    && (forall i :: 0 <= i < |arrivals| ==> InTime(arrivals, i, id))
    && (arrivals != [] ==> !Covers(Seen(arrivals[..|arrivals| - 1], id), Total(|payload|, size)))
  }

  predicate IsPiece(e: Envelope, id: string, payload: seq<Unit>, size: nat)
    requires size > 0
  {
    0 <= e.number < Total(|payload|, size) && e == EnvelopeOf(id, payload, size, e.number)
  }

  /** The i-th arrival comes within the time limit from the first piece before it, if there is one. */
  predicate InTime(arrivals: seq<Arrival>, i: nat, id: string)
    requires i < |arrivals|
  {
    var first := FirstAt(arrivals[..i], id);
    first.Some? ==> arrivals[i].at - first.value <= 60000
  }

  lemma TransmissionPrefix(arrivals: seq<Arrival>, id: string, payload: seq<Unit>, size: nat)
    requires size > 0 && arrivals != [] && Transmission(arrivals, id, payload, size)
    ensures Transmission(arrivals[..|arrivals| - 1], id, payload, size)
    ensures arrivals[|arrivals| - 1].envelope.id == id ==> IsPiece(arrivals[|arrivals| - 1].envelope, id, payload, size)
    ensures InTime(arrivals, |arrivals| - 1, id)
  {
    hide IsPiece;
    var n := |arrivals| - 1;
    var prefix := arrivals[..n];
    forall i | 0 <= i < n ensures InTime(prefix, i, id) {
      assert InTime(arrivals, i, id) && prefix[..i] == arrivals[..i];
    }
    if prefix != [] {
      assert Seen(prefix[..n - 1], id) <= Seen(prefix, id);
    }
  }

  /** What the table holds for the id once the given pieces have arrived. */
  ghost predicate Holds(table: Table, id: string, payload: seq<Unit>, size: nat, seen: set<int>, first: Option<int>)
    requires size > 0
  {
    if first.None? then id !in table
    else
      id in table &&
      table[id] == Partial(Received(payload, size, Total(|payload|, size), seen), first.value)
  }

  lemma SeenGrows(arrivals: seq<Arrival>, id: string)
    requires arrivals != []
    ensures var last := arrivals[|arrivals| - 1].envelope;
            Seen(arrivals, id) == Seen(arrivals[..|arrivals| - 1], id) + if last.id == id then {last.number} else {}
  {
    assert arrivals == arrivals[..|arrivals| - 1] + [arrivals[|arrivals| - 1]];
  }

  /** Another payload's envelope leaves the entry alone, as long as it is in time. */
  lemma OtherDelivered(table: Table, cap: nat, e: Envelope, now: int, id: string)
    requires e.id != id
    requires id in table ==> now - table[id].startedAt <= 60000
    ensures var after := Deliver(table, cap, e, now).0;
            (id in after <==> id in table) && (id in table ==> after[id] == table[id])
  {
    hide Joined, Utf8Size, AllPresent;
  }

  lemma NoneFirst(arrivals: seq<Arrival>, id: string)
    requires FirstAt(arrivals, id).None?
    ensures Seen(arrivals, id) == {}
  {
    if arrivals != [] {
      SeenGrows(arrivals, id);
      NoneFirst(arrivals[..|arrivals| - 1], id);
    }
  }

  lemma PieceDelivered(table: Table, cap: nat, e: Envelope, now: int, id: string, payload: seq<Unit>, size: nat,
                       seen: set<int>, first: Option<int>)
    requires size > 0 && id != "" && Total(|payload|, size) <= 4096 && Utf8Size(payload) <= cap
    requires IsPiece(e, id, payload, size) && Holds(table, id, payload, size, seen, first)
    requires first.None? ==> seen == {}
    requires first.Some? ==> now - first.value <= 60000
    ensures var (after, outcome) := Deliver(table, cap, e, now);
            var more := seen + {e.number};
            if Covers(more, Total(|payload|, size)) then id !in after && outcome == Complete(payload)
            else outcome == Stored &&
                 Holds(after, id, payload, size, more, if first.None? then Some(now) else first)
  {
    hide Joined, Utf8Size, Total, Slice;
    var total := Total(|payload|, size);
    var more := seen + {e.number};
    ReceivedTexts(payload, size, more);
    var live := Unexpired(table, now);
    var entry := if e.id in live then live[e.id] else Partial(Missing(e.total), now);
    assert entry.pieces == Received(payload, size, total, seen);
    assert entry.pieces[e.number := e.data] == Received(payload, size, total, more);
    AllReceived(payload, size, total, more);
  }

  lemma AllReceived(payload: seq<Unit>, size: nat, total: nat, seen: set<int>)
    ensures AllPresent(Received(payload, size, total, seen)) <==> Covers(seen, total)
  {
    var pieces := Received(payload, size, total, seen);
    assert forall k :: 0 <= k < total ==> (pieces[k].Some? <==> k in seen);
  }

  /**
   * The round trip: however the pieces arrive, each is stored, none is refused, and when the last missing one
   * arrives the outcome is exactly the payload.
   */
  lemma {:induction false} Reassembles(table: Table, cap: nat, arrivals: seq<Arrival>, id: string, payload: seq<Unit>,
                                       size: nat)
    requires size > 0 && id != "" && id !in table && payload != []
    requires Total(|payload|, size) <= 4096 && Utf8Size(payload) <= cap
    requires Transmission(arrivals, id, payload, size)
    ensures var (after, outcomes) := Run(table, cap, arrivals);
            var complete := Covers(Seen(arrivals, id), Total(|payload|, size));
            && (forall i :: 0 <= i < |arrivals| && arrivals[i].envelope.id == id ==>
                  outcomes[i] == if complete && i == |arrivals| - 1 then Complete(payload) else Stored)
            && (if complete then arrivals != [] && arrivals[|arrivals| - 1].envelope.id == id && id !in after
                else Holds(after, id, payload, size, Seen(arrivals, id), FirstAt(arrivals, id)))
  {
    hide Deliver, Total, Transmission, IsPiece, Covers, Seen, Utf8Size, Received, InTime;
    var total := Total(|payload|, size);
    NothingCovers(|payload|, size);
    if arrivals != [] {
      var n := |arrivals| - 1;
      var prefix, last := arrivals[..n], arrivals[n];
      TransmissionPrefix(arrivals, id, payload, size);
      NotYetCovered(arrivals, id, payload, size);
      Reassembles(table, cap, prefix, id, payload, size);
      SeenGrows(arrivals, id);
      if last.envelope.id == id {
        if FirstAt(prefix, id).None? {
          NoneFirst(prefix, id);
        }
        FirstInTime(arrivals, id);
        PieceDelivered(Run(table, cap, prefix).0, cap, last.envelope, last.at, id, payload, size,
                       Seen(prefix, id), FirstAt(prefix, id));
      } else {
        FirstInTime(arrivals, id);
        assert Seen(arrivals, id) == Seen(prefix, id);
        OtherDelivered(Run(table, cap, prefix).0, cap, last.envelope, last.at, id);
      }
    }
  }

  lemma FirstInTime(arrivals: seq<Arrival>, id: string)
    requires arrivals != [] && InTime(arrivals, |arrivals| - 1, id)
    ensures var first := FirstAt(arrivals[..|arrivals| - 1], id);
            first.Some? ==> arrivals[|arrivals| - 1].at - first.value <= 60000
  {
  }

  lemma NotYetCovered(arrivals: seq<Arrival>, id: string, payload: seq<Unit>, size: nat)
    requires size > 0 && arrivals != [] && Transmission(arrivals, id, payload, size)
    ensures !Covers(Seen(arrivals[..|arrivals| - 1], id), Total(|payload|, size))
  {
  }

  lemma NothingCovers(length: nat, size: nat)
    requires size > 0 && length > 0
    ensures !Covers(Seen([], ""), Total(length, size)) && forall id :: Seen([], id) == {}
  {
    TotalCovers(length, size);
    assert 0 !in Seen([], "");
  }

  // ---------- Limits ----------

  /** A payload within the aggregate cap never needs more than 33 pieces, far below what the server accepts. */
  lemma FewPieces(payload: seq<Unit>, maxPayload: nat)
    requires Utf8Size(payload) <= 8 * maxPayload
    ensures Total(|payload|, ChunkSize(maxPayload)) <= 33
  {
    NoLessThanLength(payload);
    var size, length := ChunkSize(maxPayload), |payload|;
    assert length <= 32 * size + 24;
    QuotientBound(length + size - 1, size, 34);
  }

  lemma QuotientBound(n: nat, d: nat, limit: nat)
    requires d > 0 && n < limit * d
    ensures n / d < limit
  {
    var q := n / d;
    assert n == q * d + n % d;
    assert q >= limit ==> q * d == limit * d + (q - limit) * d;
  }

  /**
   * From send to the parser: the pieces of a payload within the aggregate cap never close the socket, and the last
   * missing one to arrive yields the payload.
   */
  lemma SentPayloadArrives(table: Table, maxPayload: nat, arrivals: seq<Arrival>, id: string, payload: seq<Unit>)
    requires id != "" && id !in table
    requires |payload| > maxPayload / 2 && Utf8Size(payload) <= 8 * maxPayload
    ensures var size := ChunkSize(maxPayload);
            Transmission(arrivals, id, payload, size) ==>
              var (after, outcomes) := Run(table, 8 * maxPayload, arrivals);
              var complete := Covers(Seen(arrivals, id), Total(|payload|, size));
              && (forall i :: 0 <= i < |arrivals| && arrivals[i].envelope.id == id ==>
                    outcomes[i] == if complete && i == |arrivals| - 1 then Complete(payload) else Stored)
              && (complete ==> arrivals != [] && arrivals[|arrivals| - 1].envelope.id == id && id !in after)
  {
    hide Transmission, Run, Total, Covers, Seen, Utf8Size;
    FewPieces(payload, maxPayload);
    var size := ChunkSize(maxPayload);
    if Transmission(arrivals, id, payload, size) {
      Reassembles(table, 8 * maxPayload, arrivals, id, payload, size);
    }
  }
}
