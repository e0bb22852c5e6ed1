// The bridge session and its pending requests (manager.ts, lines 646-805, 956-1093, 1130-1206).
module BridgeSession {
  import opened Options
  import opened Decimals

  type Socket = nat

  datatype Connection = Disconnected | Connecting | Connected | InError

  datatype Pending = Pending(startedAt: int, timeoutMs: int)

  datatype Settlement = Answered(ok: bool) | TimedOut | Swept | Replaced | SocketClosed | ShutDown

  /** The pending requests and their timers; how often each request was settled, and how it was last. */
  datatype Ledger = Ledger(
    pending: map<string, Pending>,
    timers: set<string>,
    settlements: multiset<string>,
    outcomes: map<string, Settlement>)

  /** The fields of the manager; on which socket each request was sent; and which sockets it has asked to close. */
  datatype State = State(
    ws: Option<Socket>,
    connection: Connection,
    extensionVersion: Option<string>,
    heartbeatTimer: bool,
    staleSweepTimer: bool,
    counter: nat,
    ledger: Ledger,
    issued: map<string, Socket>,
    closing: set<Socket>)

  const INITIAL := State(None, Disconnected, None, false, false, 0, Ledger(map[], {}, multiset{}, map[]), map[], {})

  function RequestId(n: nat): string {
    "req_" + Decimal(n)
  }

  lemma RequestIdInjective(m: nat, n: nat)
    requires RequestId(m) == RequestId(n)
    ensures m == n
  {
    assert RequestId(m)[4..] == Decimal(m) && RequestId(n)[4..] == Decimal(n);
    DecimalInjective(m, n);
  }

  // ---------- Steps ----------

  /**
   * What can happen.  A response may come from any socket, shaken hands or not; a handshake carries whether it passed
   * validation and whether the current socket is still open; a failing connect may fall at any time.
   */
  datatype Event =
    | Call(timeoutMs: int, now: int)
    | TimerFires(id: string)
    | Response(sender: Socket, id: string, ok: bool)
    | Sweep(now: int)
    | Handshake(socket: Socket, valid: bool, version: Option<string>, currentOpen: bool)
    | Closed(socket: Socket)
    | Disconnect
    | ConnectStarts
    | ConnectFails

  predicate Enabled(s: State, e: Event) {
    match e
    case TimerFires(id) => id in s.ledger.timers
    case Sweep(_) => s.staleSweepTimer
    case _ => true
  }

  /** The requests are taken from the map, their timers cleared, and their callers told. */
  function Settle(l: Ledger, ids: set<string>, how: Settlement): Ledger {
    Ledger(l.pending - ids, l.timers - ids, l.settlements + multiset(ids), l.outcomes + map id | id in ids :: how)
  }

  predicate Expired(p: Pending, now: int) {
    now - p.startedAt >= p.timeoutMs
  }

  function ExpiredIds(pending: map<string, Pending>, now: int): set<string> {
    set id | id in pending && Expired(pending[id], now)
  }

  predicate StaleTakeover(s: State, version: Option<string>, currentOpen: bool, serverVersion: string) {
    s.ws.Some? && currentOpen && s.extensionVersion == Some(serverVersion) && version != Some(serverVersion)
  }

  function SettleAll(l: Ledger, how: Settlement): Ledger {
    Settle(l, l.pending.Keys, how)
  }

  function Replacing(s: State, socket: Socket): State {
    if s.ws.Some? && s.ws.value != socket then
      s.(ledger := SettleAll(s.ledger, Replaced), closing := s.closing + {s.ws.value})
    else s
  }

  function Issue(s: State, ws: Socket, p: Pending): State {
    var id := RequestId(s.counter + 1);
    var l := s.ledger;
    s.(counter := s.counter + 1, ledger := l.(pending := l.pending[id := p], timers := l.timers + {id}),
       issued := s.issued[id := ws])
  }

  function Step(s: State, e: Event, serverVersion: string): State {
    match e
    case Call(timeoutMs, now) =>
      if s.connection != Connected || s.ws.None? then s else Issue(s, s.ws.value, Pending(now, timeoutMs))
    case TimerFires(id) => s.(ledger := Settle(s.ledger, {id}, TimedOut))
    case Response(_, id, ok) => if id in s.ledger.pending then s.(ledger := Settle(s.ledger, {id}, Answered(ok))) else s
    case Sweep(now) => s.(ledger := Settle(s.ledger, ExpiredIds(s.ledger.pending, now), Swept))
    case Handshake(socket, valid, version, currentOpen) =>
      if !valid || StaleTakeover(s, version, currentOpen, serverVersion) then s.(closing := s.closing + {socket})
      else
        Replacing(s, socket).(ws := Some(socket), connection := Connected, extensionVersion := version,
                              heartbeatTimer := true, staleSweepTimer := true)
    case Closed(socket) =>
      if s.ws != Some(socket) then s
      else
        s.(ledger := SettleAll(s.ledger, SocketClosed), ws := None, connection := Connecting, extensionVersion := None,
           heartbeatTimer := false, staleSweepTimer := false)
    case Disconnect =>
      s.(ledger := SettleAll(s.ledger, ShutDown), ws := None, connection := Disconnected, extensionVersion := None,
         heartbeatTimer := false, staleSweepTimer := false,
         closing := s.closing + if s.ws.Some? then {s.ws.value} else {})
    case ConnectStarts =>
      if s.connection == Connected || s.connection == Connecting then s else s.(connection := Connecting)
    case ConnectFails => s.(connection := InError)
  }

  // ---------- What every step keeps ----------

  ghost predicate Invariant(s: State) {
    && Accounted(s.ledger, s.issued.Keys)
    && SentOnCurrent(s.ledger.pending.Keys, s.issued, s.ws)
    && (s.connection == Connected ==> s.ws.Some?)
    && s.heartbeatTimer == s.staleSweepTimer == s.ws.Some?
    && IdsBelow(s.issued.Keys, s.counter)
  }

  /** The map holds exactly the requests issued and not settled, each with its timer; none has been settled twice. */
  ghost predicate Accounted(l: Ledger, issued: set<string>) {
    && l.pending.Keys <= issued
    && (forall id :: l.settlements[id] == if id in issued && id !in l.pending then 1 else 0)
    && l.timers == l.pending.Keys
    && l.outcomes.Keys == issued - l.pending.Keys
  }

  ghost predicate SentOnCurrent(pending: set<string>, issued: map<string, Socket>, ws: Option<Socket>) {
    forall id :: id in pending ==> id in issued && ws == Some(issued[id])
  }

  ghost predicate IdsBelow(ids: set<string>, counter: nat) {
    forall id :: id in ids ==> exists n: nat :: 0 < n <= counter && id == RequestId(n)
  }

  lemma FreshId(ids: set<string>, counter: nat)
    requires IdsBelow(ids, counter)
    ensures RequestId(counter + 1) !in ids
    ensures IdsBelow(ids + {RequestId(counter + 1)}, counter + 1)
  {
    var id := RequestId(counter + 1);
    if id in ids {
      var n: nat :| 0 < n <= counter && id == RequestId(n);
      RequestIdInjective(n, counter + 1);
    }
  }

  lemma SettleKeeps(l: Ledger, issued: set<string>, ids: set<string>, how: Settlement)
    requires Accounted(l, issued) && ids <= l.pending.Keys
    ensures Accounted(Settle(l, ids, how), issued)
    ensures Settle(l, ids, how).pending.Keys == l.pending.Keys - ids
    ensures forall id :: id in l.outcomes ==>
      id in Settle(l, ids, how).outcomes && Settle(l, ids, how).outcomes[id] == l.outcomes[id]
  {
    var t := Settle(l, ids, how);
    forall id ensures t.settlements[id] == l.settlements[id] + if id in ids then 1 else 0 {
      assert multiset(ids)[id] == if id in ids then 1 else 0;
    }
  }

  lemma SettleAllKeeps(l: Ledger, issued: set<string>, how: Settlement)
    requires Accounted(l, issued)
    ensures Accounted(SettleAll(l, how), issued) && SettleAll(l, how).pending == map[] && SettleAll(l, how).timers == {}
    ensures forall id :: id in l.outcomes ==>
      id in SettleAll(l, how).outcomes && SettleAll(l, how).outcomes[id] == l.outcomes[id]
    ensures forall id :: id in l.pending ==> id in SettleAll(l, how).outcomes && SettleAll(l, how).outcomes[id] == how
  {
    hide Accounted;
    SettleKeeps(l, issued, l.pending.Keys, how);
    TimersCleared(SettleAll(l, how), issued);
  }

  lemma TimersCleared(l: Ledger, issued: set<string>)
    requires Accounted(l, issued) && l.pending.Keys == {}
    ensures l.pending == map[] && l.timers == {}
  {
  }

  lemma IssueKeeps(s: State, ws: Socket, p: Pending)
    requires Invariant(s) && s.ws == Some(ws)
    ensures Invariant(Issue(s, ws, p)) && RequestId(s.counter + 1) !in s.issued
  {
    hide IdsBelow, RequestId;
    FreshId(s.issued.Keys, s.counter);
    var t := Issue(s, ws, p);
    assert t.issued.Keys == s.issued.Keys + {RequestId(s.counter + 1)};
  }

  lemma StepKeepsInvariant(s: State, e: Event, serverVersion: string)
    requires Invariant(s) && Enabled(s, e)
    ensures Invariant(Step(s, e, serverVersion))
  {
    hide IdsBelow, Accounted, Settle, SettleAll, Issue;
    var l, issued := s.ledger, s.issued.Keys;
    match e
    case Call(timeoutMs, now) =>
      if s.ws.Some? {
        IssueKeeps(s, s.ws.value, Pending(now, timeoutMs));
      }
    case TimerFires(id) =>
      TimedArePending(l, issued);
      SettleKeeps(l, issued, {id}, TimedOut);
    case Response(_, id, ok) =>
      if id in l.pending {
        SettleKeeps(l, issued, {id}, Answered(ok));
      }
    case Sweep(now) => SettleKeeps(l, issued, ExpiredIds(l.pending, now), Swept);
    case Handshake(socket, valid, version, currentOpen) => SettleAllKeeps(l, issued, Replaced);
    case Closed(socket) => SettleAllKeeps(l, issued, SocketClosed);
    case Disconnect => SettleAllKeeps(l, issued, ShutDown);
    case _ =>
  }

  lemma TimedArePending(l: Ledger, issued: set<string>)
    requires Accounted(l, issued)
    ensures l.timers == l.pending.Keys
  {
  }

  // ---------- Whole histories ----------

  ghost predicate History(trace: seq<State>, events: seq<Event>, serverVersion: string) {
    && |trace| == |events| + 1 && trace[0] == INITIAL
    && forall i {:trigger events[i]} :: 0 <= i < |events| ==>
         Enabled(trace[i], events[i]) && trace[i + 1] == Step(trace[i], events[i], serverVersion)
  }

  lemma {:induction false} HistoryKeepsInvariant(trace: seq<State>, events: seq<Event>, serverVersion: string, n: nat)
    requires History(trace, events, serverVersion) && n < |trace|
    ensures Invariant(trace[n])
  {
    hide Invariant, Step;
    if n == 0 {
      InitialInvariant();
    } else {
      HistoryKeepsInvariant(trace, events, serverVersion, n - 1);
      var e := events[n - 1];
      StepKeepsInvariant(trace[n - 1], e, serverVersion);
    }
  }

  lemma InitialInvariant()
    ensures Invariant(INITIAL)
  {
  }

  /**
   * In every reachable state: the pending map holds exactly the requests issued and not yet settled; all were sent on
   * the current socket, so it is empty without one; every one still has its timer; and no request was settled twice.
   */
  lemma PendingIsExact(trace: seq<State>, events: seq<Event>, serverVersion: string, n: nat)
    requires History(trace, events, serverVersion) && n < |trace|
    ensures var s, l := trace[n], trace[n].ledger;
            && (forall id :: id in l.pending <==> id in s.issued && l.settlements[id] == 0)
            && (forall id :: l.settlements[id] <= 1)
            && (forall id :: id in l.pending ==> s.ws == Some(s.issued[id]) && id in l.timers)
            && (s.ws.None? ==> l.pending == map[] && s.connection != Connected)
  {
    HistoryKeepsInvariant(trace, events, serverVersion, n);
  }

  /** What has been issued or settled stays so. */
  lemma StepKeepsHistory(s: State, e: Event, serverVersion: string)
    requires Invariant(s) && Enabled(s, e)
    ensures var t := Step(s, e, serverVersion);
            && (forall id :: id in s.issued ==> id in t.issued && t.issued[id] == s.issued[id])
            && (forall id :: id in s.ledger.outcomes ==>
                  id in t.ledger.outcomes && t.ledger.outcomes[id] == s.ledger.outcomes[id])
  {
    hide IdsBelow, RequestId, Accounted, Settle, SettleAll;
    var l, issued := s.ledger, s.issued.Keys;
    match e
    case Call(timeoutMs, now) => FreshId(issued, s.counter);
    case TimerFires(id) =>
      TimedArePending(l, issued);
      SettleKeeps(l, issued, {id}, TimedOut);
    case Response(_, id, ok) =>
      if id in l.pending {
        SettleKeeps(l, issued, {id}, Answered(ok));
      }
    case Sweep(now) => SettleKeeps(l, issued, ExpiredIds(l.pending, now), Swept);
    case Handshake(socket, valid, version, currentOpen) => SettleAllKeeps(l, issued, Replaced);
    case Closed(socket) => SettleAllKeeps(l, issued, SocketClosed);
    case Disconnect => SettleAllKeeps(l, issued, ShutDown);
    case _ =>
  }

  lemma {:induction false} HistoryGrows(trace: seq<State>, events: seq<Event>, serverVersion: string, m: nat, n: nat)
    requires History(trace, events, serverVersion) && m <= n < |trace|
    ensures forall id :: id in trace[m].issued ==> id in trace[n].issued && trace[n].issued[id] == trace[m].issued[id]
    ensures forall id :: id in trace[m].ledger.outcomes ==>
      id in trace[n].ledger.outcomes && trace[n].ledger.outcomes[id] == trace[m].ledger.outcomes[id]
    decreases n
  {
    hide Step, Invariant;
    if m < n {
      HistoryGrows(trace, events, serverVersion, m, n - 1);
      HistoryKeepsInvariant(trace, events, serverVersion, n - 1);
      var e := events[n - 1];
      StepKeepsHistory(trace[n - 1], e, serverVersion);
    }
  }

  /** Two calls that are both issued get different ids, however far apart they are. */
  lemma IdsNeverReused(trace: seq<State>, events: seq<Event>, serverVersion: string, m: nat, n: nat)
    requires History(trace, events, serverVersion) && m < n < |events|
    requires trace[m].counter < trace[m + 1].counter && trace[n].counter < trace[n + 1].counter
    ensures RequestId(trace[m].counter + 1) in trace[m + 1].issued
    ensures RequestId(trace[m].counter + 1) in trace[n].issued && RequestId(trace[n].counter + 1) !in trace[n].issued
  {
    hide RequestId, Invariant, IdsBelow, Settle;
    var e := events[m];
    HistoryKeepsInvariant(trace, events, serverVersion, n);
    HistoryGrows(trace, events, serverVersion, m + 1, n);
    InvariantFreshId(trace[n]);
    CounterGrowsByCalls(trace[m], e, serverVersion);
  }

  lemma InvariantFreshId(s: State)
    requires Invariant(s)
    ensures RequestId(s.counter + 1) !in s.issued
  {
    FreshId(s.issued.Keys, s.counter);
  }

  lemma CounterGrowsByCalls(s: State, e: Event, serverVersion: string)
    requires s.counter < Step(s, e, serverVersion).counter
    ensures RequestId(s.counter + 1) in Step(s, e, serverVersion).issued
  {
  }

  /** Once settled, a request keeps its outcome: later responses, timers, sweeps and closes do not touch it. */
  lemma OutcomeIsFinal(trace: seq<State>, events: seq<Event>, serverVersion: string, m: nat, n: nat, id: string)
    requires History(trace, events, serverVersion) && m <= n < |trace| && id in trace[m].ledger.outcomes
    ensures id in trace[n].ledger.outcomes && trace[n].ledger.outcomes[id] == trace[m].ledger.outcomes[id]
    ensures trace[m].ledger.settlements[id] == trace[n].ledger.settlements[id] == 1
  {
    HistoryKeepsInvariant(trace, events, serverVersion, m);
    HistoryKeepsInvariant(trace, events, serverVersion, n);
    HistoryGrows(trace, events, serverVersion, m, n);
  }

  /** A takeover, a close or a disconnect leaves no request behind. */
  lemma NothingLeftBehind(s: State, e: Event, serverVersion: string)
    requires Invariant(s)
    requires e.Disconnect? || (e.Closed? && s.ws == Some(e.socket)) ||
             (e.Handshake? && s.ws.Some? && s.ws.value != e.socket && e.valid &&
              !(e.currentOpen && s.extensionVersion == Some(serverVersion) && e.version != Some(serverVersion)))
    ensures var t := Step(s, e, serverVersion);
            && t.ledger.pending == map[] && t.ledger.timers == {}
            && (forall id :: id in s.ledger.pending ==>
                  id in t.ledger.outcomes && t.ledger.outcomes[id] in {Replaced, SocketClosed, ShutDown})
            && (!e.Closed? && s.ws.Some? ==> s.ws.value in t.closing)
  {
    hide Accounted, SettleAll, IdsBelow;
    SettleAllKeeps(s.ledger, s.issued.Keys,
      if e.Disconnect? then ShutDown else if e.Closed? then SocketClosed else Replaced);
  }

  /** What an event is for a pending request: the reason it is settled for, or nothing. */
  function ReasonFor(s: State, e: Event, id: string, serverVersion: string): Option<Settlement>
    requires id in s.ledger.pending
  {
    match e
    case TimerFires(timed) => if timed == id then Some(TimedOut) else None
    case Response(_, answered, ok) => if answered == id then Some(Answered(ok)) else None
    case Sweep(now) =>
      var Pending(startedAt, timeoutMs) := s.ledger.pending[id];
      if now - startedAt >= timeoutMs then Some(Swept) else None
    case Handshake(socket, valid, version, currentOpen) =>
      var protected := currentOpen && s.extensionVersion == Some(serverVersion) && version != Some(serverVersion);
      if valid && !protected && s.ws != Some(socket) then Some(Replaced) else None
    case Closed(socket) => if s.ws == Some(socket) then Some(SocketClosed) else None
    case Disconnect => Some(ShutDown)
    case _ => None
  }

  /**
   * A pending request is settled by exactly the events that concern it: its own timer or response, a sweep once its own
   * timeout has passed, and whatever ends its socket's session.
   */
  lemma SettledExactlyByItsEvents(s: State, e: Event, id: string, serverVersion: string)
    requires Invariant(s) && Enabled(s, e) && id in s.ledger.pending
    ensures var t, reason := Step(s, e, serverVersion), ReasonFor(s, e, id, serverVersion);
            if reason.None? then id in t.ledger.pending && t.ledger.pending[id] == s.ledger.pending[id]
            else id !in t.ledger.pending && id in t.ledger.outcomes && t.ledger.outcomes[id] == reason.value
  {
    hide IdsBelow, RequestId, Accounted, Settle, ExpiredIds;
    var l := s.ledger;
    match e
    case Call(timeoutMs, now) => IssueSpares(s, id);
    case TimerFires(timed) => SettledOrSpared(l, {timed}, TimedOut, id);
    case Response(_, answered, ok) => SettledOrSpared(l, {answered}, Answered(ok), id);
    case Sweep(now) =>
      ExpiredExactly(l.pending, now, id);
      SettledOrSpared(l, ExpiredIds(l.pending, now), Swept, id);
    case Handshake(_, _, _, _) => SettledOrSpared(l, l.pending.Keys, Replaced, id);
    case Closed(_) => SettledOrSpared(l, l.pending.Keys, SocketClosed, id);
    case Disconnect => SettledOrSpared(l, l.pending.Keys, ShutDown, id);
    case _ =>
  }

  lemma SettledOrSpared(l: Ledger, ids: set<string>, how: Settlement, id: string)
    requires id in l.pending
    ensures var t := Settle(l, ids, how);
            if id in ids then id !in t.pending && id in t.outcomes && t.outcomes[id] == how
            else id in t.pending && t.pending[id] == l.pending[id]
  {
  }

  lemma ExpiredExactly(pending: map<string, Pending>, now: int, id: string)
    requires id in pending
    ensures id in ExpiredIds(pending, now) <==> Expired(pending[id], now)
  {
  }

  lemma IssueSpares(s: State, id: string)
    requires Invariant(s) && id in s.ledger.pending
    ensures id != RequestId(s.counter + 1)
  {
    InvariantFreshId(s);
    PendingWereIssued(s.ledger, s.issued.Keys);
  }

  // ---------- Who may answer ----------

  lemma LateAnswer(s: State, sender: Socket, id: string, ok: bool, serverVersion: string)
    requires Invariant(s) && s.ws != Some(sender)
    requires id in s.issued ==> s.issued[id] == sender
    ensures Step(s, Response(sender, id, ok), serverVersion) == s
  {
    hide IdsBelow, Accounted;
    PendingWereIssued(s.ledger, s.issued.Keys);
  }

  lemma PendingWereIssued(l: Ledger, issued: set<string>)
    requires Accounted(l, issued)
    ensures l.pending.Keys <= issued
  {
  }

  lemma ForeignAnswer(s: State, sender: Socket, id: string, ok: bool, serverVersion: string)
    requires Invariant(s) && s.ws != Some(sender)
    ensures var t := Step(s, Response(sender, id, ok), serverVersion);
            && (t != s <==> id in s.ledger.pending)
            && (t != s ==> id in s.issued && s.ws == Some(s.issued[id]) && t.ledger.settlements[id] == 1)
            && (t != s ==> id in t.ledger.outcomes && t.ledger.outcomes[id] == Answered(ok))
  {
    hide IdsBelow;
    if id in s.ledger.pending {
      SettledExactlyByItsEvents(s, Response(sender, id, ok), id, serverVersion);
      StepKeepsInvariant(s, Response(sender, id, ok), serverVersion);
    }
  }

  /**
   * The id alone decides: in any run, the answer of another socket than the current one settles a request exactly if
   * the request is pending, and that request then went out on the current socket.
   */
  lemma ForeignAnswerSettlesIffPending(trace: seq<State>, events: seq<Event>, serverVersion: string, n: nat)
    requires History(trace, events, serverVersion) && n < |events|
    requires events[n].Response? && trace[n].ws != Some(events[n].sender)
    ensures var s, t, id := trace[n], trace[n + 1], events[n].id;
            && (t != s <==> id in s.ledger.pending)
            && (t != s ==> id in s.issued && s.ws == Some(s.issued[id]) && t.ledger.settlements[id] == 1)
            && (t != s ==> id in t.ledger.outcomes && t.ledger.outcomes[id] == Answered(events[n].ok))
  {
    hide Invariant, Step;
    var e := events[n];
    HistoryKeepsInvariant(trace, events, serverVersion, n);
    ForeignAnswer(trace[n], e.sender, e.id, e.ok, serverVersion);
  }

  // ---------- Superseded sockets ----------

  /** Socket a was replaced and has not shaken hands again since. */
  ghost predicate SupersededSince(trace: seq<State>, events: seq<Event>, a: Socket, m: nat, n: nat)
    requires m <= n < |trace| == |events| + 1
  {
    trace[m].ws != Some(a) && forall i :: m <= i < n ==> !(events[i].Handshake? && events[i].socket == a)
  }

  lemma {:induction false} SupersededStaysOut(trace: seq<State>, events: seq<Event>, serverVersion: string, a: Socket,
                                              m: nat, n: nat)
    requires History(trace, events, serverVersion) && m <= n < |trace| && SupersededSince(trace, events, a, m, n)
    ensures trace[n].ws != Some(a)
    decreases n
  {
    if m < n {
      SupersededStaysOut(trace, events, serverVersion, a, m, n - 1);
      var e := events[n - 1];
    }
  }

  /** The close of a superseded socket, whenever it comes, changes nothing. */
  lemma SupersededCloseIsIgnored(trace: seq<State>, events: seq<Event>, serverVersion: string, a: Socket, m: nat,
                                 n: nat)
    requires History(trace, events, serverVersion) && m <= n < |events| && SupersededSince(trace, events, a, m, n)
    requires events[n] == Closed(a)
    ensures trace[n + 1] == trace[n]
  {
    SupersededStaysOut(trace, events, serverVersion, a, m, n);
  }

  /** Its answers to requests that went out on it change nothing either, whenever they come. */
  lemma SupersededAnswerIsIgnored(trace: seq<State>, events: seq<Event>, serverVersion: string, a: Socket, m: nat,
                                  n: nat)
    requires History(trace, events, serverVersion) && m <= n < |events| && SupersededSince(trace, events, a, m, n)
    requires events[n].Response? && events[n].sender == a
    requires events[n].id in trace[n].issued ==> trace[n].issued[events[n].id] == a
    ensures trace[n + 1] == trace[n]
  {
    hide Invariant, Step;
    var e := events[n];
    SupersededStaysOut(trace, events, serverVersion, a, m, n);
    HistoryKeepsInvariant(trace, events, serverVersion, n);
    LateAnswer(trace[n], a, e.id, e.ok, serverVersion);
  }

  /** An open session of the server's own version is replaced only by one of the same version. */
  lemma ExactVersionStays(s: State, e: Event, serverVersion: string)
    requires e.Handshake? && e.currentOpen && s.ws.Some? && s.extensionVersion == Some(serverVersion)
    ensures var t := Step(s, e, serverVersion);
            t.extensionVersion == Some(serverVersion) &&
            (e.version != Some(serverVersion) ==> t == s.(closing := s.closing + {e.socket}))
  {
  }
}
