// The remote relay client: one desired connection, its socket and its timers
// (remote-client.ts, lines 114-215, 226-240, 258-299, 359-429).
module RelayClient {
  import opened Options

  type Socket = nat

  /** What connect asked for: the relay's address, the mode and the pairing code, as one value. */
  type Target = string

  datatype Link = Disconnected | Connecting | Connected | Paired

  const RECONNECT_BASE_MS := 1000
  const RECONNECT_MAX_MS := 30000

  /**
   * The client's fields; the approvals being decided with the socket that asked for each; the answers sent; and how
   * many sockets have been created.
   */
  datatype State = State(
    socket: Option<Socket>,
    link: Link,
    desired: Option<Target>,
    reconnectTimer: Option<Target>,
    heartbeatTimer: bool,
    attempts: nat,
    delay: Option<nat>,
    approvals: map<string, Socket>,
    answers: seq<(Socket, string)>,
    created: nat)

  const INITIAL := State(None, Disconnected, None, None, false, 0, None, map[], [], 0)

  /**
   * Whether an address is valid, whether a socket can be created and whether closing one throws are up to the
   * environment.
   */
  datatype Event =
    | Connect(target: Target, valid: bool, creates: bool)
    | Disconnect
    | Opened(sender: Socket)
    | Registered(sender: Socket, paired: bool)
    | Closed(sender: Socket)
    | ReconnectFires(creates: bool)
    | LivenessCheck(stale: bool, closeThrows: bool)
    | ApprovalAsked(sender: Socket, id: string, toolName: string)
    | ApprovalDecided(id: string)

  predicate Enabled(s: State, e: Event) {
    match e
    case ReconnectFires(_) => s.reconnectTimer.Some?
    case LivenessCheck(_, _) => s.heartbeatTimer
    case ApprovalDecided(id) => id in s.approvals
    case _ => true
  }

  // ---------- Backoff ----------

  function Doubled(n: nat): nat {
    if n == 0 then RECONNECT_BASE_MS else 2 * Doubled(n - 1)
  }

  function Delay(attempt: nat): nat
    requires attempt > 0
  {
    if Doubled(attempt - 1) < RECONNECT_MAX_MS then Doubled(attempt - 1) else RECONNECT_MAX_MS
  }

  lemma {:induction false} DoubledGrows(m: nat, n: nat)
    requires m <= n
    ensures 1000 <= Doubled(m) <= Doubled(n)
    decreases n
  {
    if m < n {
      DoubledGrows(m, n - 1);
    } else if n > 0 {
      DoubledGrows(n - 1, n - 1);
    }
  }

  /** One second, doubled for every further attempt, and half a minute from the sixth on. */
  function Wait(attempt: nat): nat
    requires attempt > 0
  {
    if attempt == 1 then 1000
    else if attempt == 2 then 2000
    else if attempt == 3 then 4000
    else if attempt == 4 then 8000
    else if attempt == 5 then 16000
    else 30000
  }

  lemma DelayIsWait(attempt: nat)
    requires attempt > 0
    ensures Delay(attempt) == Wait(attempt)
  {
    assert Doubled(0) == 1000 && Doubled(1) == 2000 && Doubled(2) == 4000 && Doubled(3) == 8000;
    assert Doubled(4) == 16000 && Doubled(5) == 32000;
    if attempt >= 6 {
      DoubledGrows(5, attempt - 1);
    }
  }

  /** Delays grow from one second to half a minute, which every attempt from the sixth on waits. */
  lemma DelaysGrow(m: nat, n: nat)
    requires 0 < m <= n
    ensures 1000 <= Delay(m) <= Delay(n) <= 30000
    ensures Delay(m) == 30000 <==> m >= 6
  {
    hide Delay;
    DelayIsWait(m);
    DelayIsWait(n);
  }

  // ---------- Steps ----------

  function Dropped(s: State): State {
    s.(socket := None, link := Disconnected, desired := None, reconnectTimer := None, heartbeatTimer := false,
      delay := None)
  }

  function Scheduled(s: State, target: Target): State {
    s.(heartbeatTimer := false, link := Connecting, attempts := s.attempts + 1, delay := Some(Delay(s.attempts + 1)),
       reconnectTimer := Some(target))
  }

  function Opening(s: State, target: Target, creates: bool): State {
    var t := s.(reconnectTimer := None);
    if creates then t.(socket := Some(s.created), created := s.created + 1)
    else if s.desired.Some? then Scheduled(t.(socket := None), s.desired.value)
    else t.(socket := None)
  }

  predicate Current(s: State, socket: Socket) {
    s.socket == Some(socket)
  }

  function Step(s: State, e: Event): State
    requires Enabled(s, e)
  {
    match e
    case Connect(target, valid, creates) =>
      if !valid then Dropped(s)
      else Opening(Dropped(s).(desired := Some(target), link := Connecting, attempts := 0), target, creates)
    case Disconnect => Dropped(s)
    case Opened(sender) =>
      if !Current(s, sender) then s else s.(link := Connected, delay := None, heartbeatTimer := true)
    case Registered(sender, paired) =>
      if !Current(s, sender) then s else s.(link := if paired then Paired else Connected)
    case Closed(sender) =>
      if !Current(s, sender) then s
      else
        var t := s.(socket := None, heartbeatTimer := false);
        if s.desired.Some? then Scheduled(t, s.desired.value) else t.(link := Disconnected)
    case ReconnectFires(creates) =>
      var t := s.(reconnectTimer := None);
      if s.desired.Some? then Opening(t, s.reconnectTimer.value, creates) else t
    case LivenessCheck(stale, closeThrows) =>
      if s.socket.Some? && stale && closeThrows && s.desired.Some? then Scheduled(s, s.desired.value) else s
    case ApprovalAsked(sender, id, toolName) =>
      if !Current(s, sender) || id == "" || toolName == "" || id in s.approvals then s
      else s.(approvals := s.approvals[id := sender])
    case ApprovalDecided(id) =>
      var asker := s.approvals[id];
      var t := s.(approvals := s.approvals - {id});
      if Current(s, asker) then t.(answers := s.answers + [(asker, id)]) else t
  }

  // ---------- What every step keeps ----------

  ghost predicate Invariant(s: State) {
    // Without a desired connection nothing is left.
    && (s.desired.None? ==> s.socket.None? && s.reconnectTimer.None? && !s.heartbeatTimer && s.link == Disconnected)
    // With one, the client has a socket or will try again.
    && (s.desired.Some? ==> s.socket.Some? || s.reconnectTimer.Some?)
    && (s.heartbeatTimer ==> s.socket.Some?)
    && (s.reconnectTimer.Some? ==> s.reconnectTimer == s.desired)
    && (s.link == Connected || s.link == Paired ==> s.socket.Some?)
    && (s.delay.Some? ==> s.attempts > 0 && s.delay.value == Delay(s.attempts))
    && (s.socket.Some? ==> s.socket.value < s.created)
  }

  lemma StepKeepsInvariant(s: State, e: Event)
    requires Invariant(s) && Enabled(s, e)
    ensures Invariant(Step(s, e))
  {
    hide Delay, Opening, Scheduled;
    match e
    case Connect(target, valid, creates) =>
      var t := Dropped(s).(desired := Some(target), link := Connecting, attempts := 0);
      OpeningKeeps(t, target, creates);
    case Closed(sender) =>
      if s.desired.Some? {
        SchedulingKeeps(s.(socket := None, heartbeatTimer := false), s.desired.value);
      }
    case ReconnectFires(creates) =>
      if s.desired.Some? {
        OpeningKeeps(s.(reconnectTimer := None), s.reconnectTimer.value, creates);
      }
    case LivenessCheck(stale, closeThrows) =>
      if s.desired.Some? {
        SchedulingKeeps(s, s.desired.value);
      }
    case _ =>
  }

  /** Setting the reconnect timer restores the invariant even where the socket has just been lost. */
  lemma SchedulingKeeps(s: State, target: Target)
    requires s.desired == Some(target) && (s.socket.Some? ==> s.socket.value < s.created)
    ensures Invariant(Scheduled(s, target))
  {
    hide Delay;
  }

  lemma OpeningKeeps(s: State, target: Target, creates: bool)
    requires s.desired == Some(target)
    requires s.delay.Some? ==> s.attempts > 0 && s.delay.value == Delay(s.attempts)
    ensures Invariant(Opening(s, target, creates))
  {
    hide Delay, Scheduled;
    SchedulingKeeps(s.(reconnectTimer := None, socket := None), target);
  }

  /** Events of a socket that is not the current one change nothing. */
  lemma SupersededEventsIgnored(s: State, e: Event, sender: Socket)
    requires e == Opened(sender) || e == Closed(sender) || (e.Registered? && e.sender == sender) ||
      (e.ApprovalAsked? && e.sender == sender)
    requires s.socket != Some(sender)
    ensures Step(s, e) == s
  {
  }

  // ---------- Whole runs ----------

  ghost predicate History(trace: seq<State>, events: seq<Event>) {
    && |trace| == |events| + 1 && trace[0] == INITIAL
    && forall i {:trigger events[i]} :: 0 <= i < |events| ==>
      Enabled(trace[i], events[i]) && trace[i + 1] == Step(trace[i], events[i])
  }

  lemma {:induction false} HistoryKeepsInvariant(trace: seq<State>, events: seq<Event>, n: nat)
    requires History(trace, events) && n < |trace|
    ensures Invariant(trace[n])
  {
    hide Step, Enabled;
    if n > 0 {
      HistoryKeepsInvariant(trace, events, n - 1);
      var e := events[n - 1];
      StepKeepsInvariant(trace[n - 1], e);
    }
  }

  /** In every reachable state: the claims of the invariant that a user sees. */
  lemma ReachableStatesAreConsistent(trace: seq<State>, events: seq<Event>, n: nat)
    requires History(trace, events) && n < |trace|
    ensures var s := trace[n];
            && (s.desired.None? ==>
                  s.socket.None? && s.reconnectTimer.None? && !s.heartbeatTimer && s.link == Disconnected)
            && (s.desired.Some? ==> s.socket.Some? || s.reconnectTimer == s.desired)
            && (s.heartbeatTimer ==> s.socket.Some?)
            && (s.reconnectTimer.Some? ==> s.reconnectTimer == s.desired)
  {
    HistoryKeepsInvariant(trace, events, n);
  }

  /** Sockets are created in order, so one that was replaced never becomes current again. */
  lemma {:induction false} ReplacedNeverReturns(trace: seq<State>, events: seq<Event>, m: nat, n: nat, sender: Socket)
    requires History(trace, events) && m <= n < |trace| && sender < trace[m].created && trace[m].socket != Some(sender)
    ensures trace[n].socket != Some(sender) && sender < trace[n].created
    decreases n
  {
    if m < n {
      ReplacedNeverReturns(trace, events, m, n - 1, sender);
      var e := events[n - 1];
    }
  }

  /** So its events are ignored for the rest of the run. */
  lemma ReplacedSocketIsMute(trace: seq<State>, events: seq<Event>, m: nat, n: nat, sender: Socket)
    requires History(trace, events) && m <= n < |events| && sender < trace[m].created && trace[m].socket != Some(sender)
    requires events[n] == Opened(sender) || events[n] == Closed(sender) ||
      (events[n].Registered? && events[n].sender == sender)
    ensures trace[n + 1] == trace[n]
  {
    ReplacedNeverReturns(trace, events, m, n, sender);
    SupersededEventsIgnored(trace[n], events[n], sender);
  }

  // ---------- Backoff over a run ----------

  /** The event makes the client set a reconnect timer. */
  predicate Schedules(s: State, e: Event) {
    match e
    case Connect(_, valid, creates) => valid && !creates
    case Closed(sender) => Current(s, sender) && s.desired.Some?
    case ReconnectFires(creates) => s.desired.Some? && !creates
    case LivenessCheck(stale, closeThrows) => s.socket.Some? && stale && closeThrows && s.desired.Some?
    case _ => false
  }

  predicate Connects(e: Event) {
    e.Connect? && e.valid
  }

  /** How many reconnects the events from m up to n schedule. */
  ghost function ScheduledBetween(trace: seq<State>, events: seq<Event>, m: nat, n: nat): nat
    requires m <= n <= |events| && |trace| == |events| + 1
    decreases n
  {
    if m == n then 0
    else ScheduledBetween(trace, events, m, n - 1) + if Schedules(trace[n - 1], events[n - 1]) then 1 else 0
  }

  lemma AttemptsCountSchedules(s: State, e: Event)
    requires Enabled(s, e)
    ensures var t, start := Step(s, e), if Connects(e) then 0 else s.attempts;
            if Schedules(s, e) then
              t.attempts == start + 1 && t.delay == Some(Delay(t.attempts)) && t.reconnectTimer == t.desired != None
            else t.attempts == start
  {
    hide Delay;
  }

  /**
   * The count of attempts is the number of reconnects scheduled since the last valid connect: nothing in between,
   * and no connection that opens, sets it back.
   */
  lemma {:induction false} AttemptsSinceConnect(trace: seq<State>, events: seq<Event>, c: nat, n: nat)
    requires History(trace, events) && c < n <= |events| && Connects(events[c])
    requires forall i :: c < i < n ==> !Connects(events[i])
    ensures trace[n].attempts == ScheduledBetween(trace, events, c, n)
    decreases n
  {
    hide Step, Schedules;
    var e := events[n - 1];
    AttemptsCountSchedules(trace[n - 1], e);
    if c < n - 1 {
      AttemptsSinceConnect(trace, events, c, n - 1);
    } else {
      assert ScheduledBetween(trace, events, c, c) == 0;
    }
  }

  /** So the k-th reconnect since a valid connect waits as long as k says: from the sixth on half a minute. */
  lemma KthReconnectWaits(trace: seq<State>, events: seq<Event>, c: nat, n: nat)
    requires History(trace, events) && c <= n < |events| && Connects(events[c])
    requires forall i :: c < i <= n ==> !Connects(events[i])
    requires Schedules(trace[n], events[n])
    ensures var k := ScheduledBetween(trace, events, c, n + 1);
            && k > 0 && trace[n + 1].delay == Some(Wait(k))
            && trace[n + 1].reconnectTimer == trace[n + 1].desired != None
            && (trace[n + 1].delay == Some(30000) <==> k >= 6)
  {
    hide Step, Schedules, Delay;
    var e := events[n];
    AttemptsSinceConnect(trace, events, c, n + 1);
    AttemptsCountSchedules(trace[n], e);
    var k := ScheduledBetween(trace, events, c, n + 1);
    DelayIsWait(k);
  }

  // ---------- What the client is connected to ----------

  /** What the user wants after these events: the target of the last connect, unless it was invalid or is over. */
  function Wanted(events: seq<Event>): Option<Target> {
    if events == [] then None
    else
      match events[|events| - 1]
      case Connect(target, valid, _) => if valid then Some(target) else None
      case Disconnect => None
      case _ => Wanted(events[..|events| - 1])
  }

  /**
   * In every reachable state the desired connection is the one that the user wants.  Once it is given up, by a
   * disconnect or an invalid connect, there is no socket, reconnect or heartbeat until the next valid connect.
   */
  lemma {:induction false} DesiredIsWanted(trace: seq<State>, events: seq<Event>, n: nat)
    requires History(trace, events) && n < |trace|
    ensures trace[n].desired == Wanted(events[..n])
    ensures Wanted(events[..n]).None? ==>
      var s := trace[n];
      s.socket.None? && s.reconnectTimer.None? && !s.heartbeatTimer && s.link == Disconnected && s.delay.None?
  {
    HistoryKeepsInvariant(trace, events, n);
    if n > 0 {
      var e := events[n - 1];
      DesiredIsWanted(trace, events, n - 1);
      DesiredFollows(trace[n - 1], e);
      assert events[..n][..n - 1] == events[..n - 1];
    }
  }

  lemma DesiredFollows(s: State, e: Event)
    requires Enabled(s, e)
    ensures var t := Step(s, e);
            if e.Connect? then t.desired == if e.valid then Some(e.target) else None
            else if e.Disconnect? then t.desired.None? else t.desired == s.desired
    ensures e.Disconnect? || (e.Connect? && !e.valid) || (s.desired.None? && s.delay.None? && !e.Connect?) ==>
      Step(s, e).delay.None?
  {
    hide Delay;
  }

  /** A decision is answered exactly if the socket that asked is still the current one, and on that socket. */
  lemma AnswersGoToTheAsker(s: State, e: Event)
    requires Enabled(s, e)
    ensures Step(s, e).answers != s.answers <==> e.ApprovalDecided? && s.socket == Some(s.approvals[e.id])
    ensures Step(s, e).answers != s.answers ==> Step(s, e).answers == s.answers + [(s.approvals[e.id], e.id)]
  {
    if e.ApprovalDecided? {
      assert |s.answers + [(s.approvals[e.id], e.id)]| == |s.answers| + 1;
    }
  }

  // ---------- The client object ----------

  class RemoteRelayClient {
    var socket: Option<Socket>
    var link: Link
    var desiredConnection: Option<Target>
    var reconnectTimer: Option<Target>
    var heartbeatTimer: bool
    var reconnectAttempts: nat
    var nextReconnectDelayMs: Option<nat>
    var pendingApprovals: map<string, Socket>
    var created: nat
    ghost var answers: seq<(Socket, string)>

    ghost function Now(): State
      reads this
    {
      State(socket, link, desiredConnection, reconnectTimer, heartbeatTimer, reconnectAttempts, nextReconnectDelayMs,
            pendingApprovals, answers, created)
    }

    ghost predicate Valid()
      reads this
    {
      Invariant(Now())
    }

    constructor ()
      ensures Valid() && Now() == INITIAL
    {
      socket, link, desiredConnection, reconnectTimer, heartbeatTimer := None, Disconnected, None, None, false;
      reconnectAttempts, nextReconnectDelayMs, pendingApprovals, answers, created := 0, None, map[], [], 0;
    }

    method DropConnection()
      modifies this
      ensures Now() == old(Dropped(Now()))
    {
      desiredConnection := None;
      reconnectTimer := None;
      heartbeatTimer := false;
      socket := None;
      link, nextReconnectDelayMs := Disconnected, None;
    }

    method ScheduleReconnect()
      modifies this
      ensures Now() ==
              if old(desiredConnection).None? then old(Now()) else old(Scheduled(Now(), desiredConnection.value))
    {
      if desiredConnection.None? {
        return;
      }
      heartbeatTimer := false;
      reconnectTimer := None;
      var nextAttempt := reconnectAttempts + 1;
      link, reconnectAttempts, nextReconnectDelayMs := Connecting, nextAttempt, Some(Delay(nextAttempt));
      reconnectTimer := desiredConnection;
    }

    method OpenSocket(target: Target, creates: bool)
      modifies this
      ensures Now() == old(Opening(Now(), target, creates))
    {
      reconnectTimer := None;
      if creates {
        socket := Some(created);
        created := created + 1;
      } else {
        socket := None;
        ScheduleReconnect();
      }
    }

    method Connect(target: Target, valid: bool, creates: bool)
      requires Valid()
      modifies this
      ensures Valid() && Now() == old(Step(Now(), Event.Connect(target, valid, creates)))
    {
      hide Invariant, Delay;
      StepKeepsInvariant(Now(), Event.Connect(target, valid, creates));
      DropConnection();
      if !valid {
        return;
      }
      desiredConnection := Some(target);
      link, reconnectAttempts := Connecting, 0;
      OpenSocket(target, creates);
    }

    method Disconnect()
      requires Valid()
      modifies this
      ensures Valid() && Now() == old(Step(Now(), Event.Disconnect))
    {
      hide Invariant;
      StepKeepsInvariant(Now(), Event.Disconnect);
      DropConnection();
    }

    method HandleOpen(sender: Socket)
      requires Valid()
      modifies this
      ensures Valid() && Now() == old(Step(Now(), Opened(sender)))
    {
      hide Invariant;
      StepKeepsInvariant(Now(), Opened(sender));
      if socket != Some(sender) {
        return;
      }
      link, nextReconnectDelayMs := Connected, None;
      heartbeatTimer := true;
    }

    method HandleRegistered(sender: Socket, paired: bool)
      requires Valid()
      modifies this
      ensures Valid() && Now() == old(Step(Now(), Registered(sender, paired)))
    {
      hide Invariant;
      StepKeepsInvariant(Now(), Registered(sender, paired));
      if socket != Some(sender) {
        return;
      }
      link := if paired then Paired else Connected;
    }

    method HandleClose(sender: Socket)
      requires Valid()
      modifies this
      ensures Valid() && Now() == old(Step(Now(), Closed(sender)))
    {
      hide Invariant, Delay;
      StepKeepsInvariant(Now(), Closed(sender));
      if socket != Some(sender) {
        return;
      }
      socket := None;
      heartbeatTimer := false;
      if desiredConnection.None? {
        link := Disconnected;
        return;
      }
      ScheduleReconnect();
    }

    method ReconnectTimerFires(creates: bool)
      requires Valid() && reconnectTimer.Some?
      modifies this
      ensures Valid() && Now() == old(Step(Now(), ReconnectFires(creates)))
    {
      hide Invariant, Delay;
      StepKeepsInvariant(Now(), ReconnectFires(creates));
      var desired := reconnectTimer.value;
      reconnectTimer := None;
      if desiredConnection.Some? {
        OpenSocket(desired, creates);
      }
    }

    /** A stale socket is closed; only if closing it throws is the reconnect scheduled here. */
    method CheckHeartbeatLiveness(stale: bool, closeThrows: bool)
      requires Valid() && heartbeatTimer
      modifies this
      ensures Valid() && Now() == old(Step(Now(), LivenessCheck(stale, closeThrows)))
    {
      hide Invariant, Delay;
      StepKeepsInvariant(Now(), LivenessCheck(stale, closeThrows));
      if socket.None? || !stale {
        return;
      }
      if closeThrows {
        ScheduleReconnect();
      }
    }

    /** An approval already being decided is not asked for again. */
    method HandleApprovalRequest(sender: Socket, id: string, toolName: string) returns (prompted: bool)
      requires Valid()
      modifies this
      ensures Valid() && Now() == old(Step(Now(), ApprovalAsked(sender, id, toolName)))
      ensures prompted <==> old(socket) == Some(sender) && id != "" && toolName != "" && id !in old(pendingApprovals)
    {
      hide Invariant;
      StepKeepsInvariant(Now(), ApprovalAsked(sender, id, toolName));
      if socket != Some(sender) || id == "" || toolName == "" || id in pendingApprovals {
        return false;
      }
      pendingApprovals := pendingApprovals[id := sender];
      return true;
    }

    method ApprovalSettled(id: string)
      requires Valid() && id in pendingApprovals
      modifies this
      ensures Valid() && Now() == old(Step(Now(), ApprovalDecided(id)))
    {
      hide Invariant;
      StepKeepsInvariant(Now(), ApprovalDecided(id));
      var asker := pendingApprovals[id];
      pendingApprovals := pendingApprovals - {id};
      if socket == Some(asker) {
        answers := answers + [(asker, id)];
      }
    }
  }
}
