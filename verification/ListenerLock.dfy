// The lock directory that makes one process the bridge listener (listener-ownership.ts, lines 123-287), as atomic steps
// of any number of instances in processes that may die at any point.
module ListenerLock {
  import opened Options

  const INITIALIZATION_GRACE_MS := 5000
  const MAX_ACQUIRE_ATTEMPTS := 4

  /** Tokens identify instances; negative ones belong to none that takes part. */
  type Token = int
  type Instance = nat
  type Pid = nat

  datatype Record = Record(token: Token, pid: Pid)

  /** The lock path: absent, or there with its modification time, its owner record, and whether it is a directory. */
  datatype Lock = Absent | Present(mtime: int, owner: Option<Record>, regular: bool)

  // ---------- Decisions of one instance ----------

  datatype Verdict = OwnedElsewhere | NotReclaimable | Stale(expected: Option<Token>)

  /** What acquire makes of a snapshot of a lock that is there. */
  function Judge(snapshot: Lock, alive: set<Pid>, now: int): Verdict
    requires snapshot.Present?
  {
    if snapshot.owner.Some? then
      if snapshot.owner.value.pid in alive then OwnedElsewhere else Stale(Some(snapshot.owner.value.token))
    else if !snapshot.regular || now - snapshot.mtime < INITIALIZATION_GRACE_MS then NotReclaimable
    else Stale(None)
  }

  predicate IsStillStale(current: Lock, expected: Option<Token>, mtime: int, alive: set<Pid>)
    requires current.Present?
  {
    && current.mtime == mtime
    && match expected
       case None => current.owner.None? && current.regular
       case Some(token) =>
         current.owner.Some? && current.owner.value.token == token && current.owner.value.pid !in alive
  }

  // ---------- Interleaved steps ----------

  datatype Phase =
    | Idle
    | Trying(attempt: nat)
    | Initialising(since: int)
    | Looking(attempt: nat)
    | Deciding(attempt: nat, snapshot: Lock)
    | Reclaiming(attempt: nat, expected: Option<Token>, mtime: int)
    | Holding
    | Released
    | Failed

  datatype State = State(lock: Lock, now: int, alive: set<Pid>, phases: map<Instance, Phase>)

  /** What an instance does; a record may fail to be written. */
  datatype Action =
    | Begin
    | MakeDirectory
    | WriteRecord
    | WriteFails
    | ReadSnapshot
    | Decide
    | Reclaim
    | UpdatePort
    | Release

  datatype Event = Act(i: Instance, action: Action) | Die(pid: Pid) | Tick(to: int)

  /** The process each instance lives in. */
  type Processes = Instance -> Pid

  predicate Live(s: State, procs: Processes, i: Instance) {
    i in s.phases && procs(i) in s.alive
  }

  /** Every live instance that has made the directory and not yet its record has less than this behind it. */
  predicate Within(s: State, procs: Processes, time: int, bound: int) {
    forall i :: i in s.phases && procs(i) in s.alive && s.phases[i].Initialising? ==>
      time - s.phases[i].since < bound
  }

  predicate WithinGrace(s: State, procs: Processes, time: int) {
    Within(s, procs, time, 5000)
  }

  predicate CanAct(s: State, p: Phase, action: Action) {
    match action
    case Begin => p.Idle?
    case MakeDirectory => p.Trying?
    case WriteRecord => p.Initialising? && s.lock.Present?
    case WriteFails => p.Initialising?
    case ReadSnapshot => p.Looking?
    case Decide => p.Deciding? && p.snapshot.Present?
    case Reclaim => p.Reclaiming?
    case UpdatePort => p.Holding? && s.lock.Present?
    case Release => p.Holding?
  }

  predicate Enabled(s: State, procs: Processes, e: Event) {
    match e
    case Act(i, action) => Live(s, procs, i) && CanAct(s, s.phases[i], action)
    case Die(pid) => pid in s.alive
    case Tick(to) => s.now <= to
  }

  function To(s: State, i: Instance, p: Phase): State {
    s.(phases := s.phases[i := p])
  }

  /** One more attempt, or none left. */
  function Retry(attempt: nat): Phase {
    if attempt + 1 < MAX_ACQUIRE_ATTEMPTS then Trying(attempt + 1) else Failed
  }

  function Decision(p: Phase, alive: set<Pid>, now: int): Phase
    requires p.Deciding? && p.snapshot.Present?
  {
    match Judge(p.snapshot, alive, now)
    case Stale(expected) => Reclaiming(p.attempt, expected, p.snapshot.mtime)
    case _ => Failed
  }

  predicate OwnLock(s: State, i: Instance) {
    s.lock.Present? && s.lock.owner.Some? && s.lock.owner.value.token == i
  }

  function Perform(s: State, procs: Processes, i: Instance, action: Action): State
    requires Live(s, procs, i) && CanAct(s, s.phases[i], action)
  {
    var p := s.phases[i];
    match action
    case Begin => To(s, i, Trying(0))
    case MakeDirectory =>
      if s.lock.Absent? then To(s, i, Initialising(s.now)).(lock := Present(s.now, None, true))
      else To(s, i, Looking(p.attempt))
    case WriteRecord => To(s, i, Holding).(lock := Present(s.now, Some(Record(i, procs(i))), s.lock.regular))
    case WriteFails => To(s, i, Failed).(lock := Absent)
    case ReadSnapshot => To(s, i, if s.lock.Absent? then Failed else Deciding(p.attempt, s.lock))
    case Decide => To(s, i, Decision(p, s.alive, s.now))
    case Reclaim =>
      if s.lock.Absent? || !IsStillStale(s.lock, p.expected, p.mtime, s.alive) then To(s, i, Retry(p.attempt))
      else To(s, i, Retry(p.attempt)).(lock := Absent)
    case UpdatePort => s.(lock := Present(s.now, Some(Record(i, procs(i))), s.lock.regular))
    case Release => if OwnLock(s, i) then To(s, i, Released).(lock := Absent) else To(s, i, Released)
  }

  function Step(s: State, procs: Processes, e: Event): State
    requires Enabled(s, procs, e)
  {
    match e
    case Act(i, action) => Perform(s, procs, i, action)
    case Die(pid) => s.(alive := s.alive - {pid})
    case Tick(to) => s.(now := to)
  }

  /** One instance takes these steps in turn, with no other event in between. */
  ghost predicate Runs(procs: Processes, i: Instance, s: State, actions: seq<Action>, t: State)
    decreases |actions|
  {
    if actions == [] then s == t
    else
      && Live(s, procs, i) && CanAct(s, s.phases[i], actions[0])
      && Runs(procs, i, Perform(s, procs, i, actions[0]), actions[1..], t)
  }

  lemma {:induction false} RunsOn(procs: Processes, i: Instance, s: State, first: seq<Action>, t: State,
                                   second: seq<Action>, u: State)
    requires Runs(procs, i, s, first, t) && Runs(procs, i, t, second, u)
    ensures Runs(procs, i, s, first + second, u)
    decreases |first|
  {
    hide Perform, CanAct;
    if first == [] {
      assert first + second == second;
    } else {
      RunsOn(procs, i, Perform(s, procs, i, first[0]), first[1..], t, second, u);
      assert (first + second)[1..] == first[1..] + second;
    }
  }

  // ---------- Mutual exclusion ----------

  /** The instance has the lock: it has made the directory and not given it up, and its process lives. */
  predicate Holds(s: State, procs: Processes, i: Instance) {
    Live(s, procs, i) && (s.phases[i].Initialising? || s.phases[i].Holding?)
  }

  /** What the lock looks like to its live holder. */
  predicate Reflects(s: State, procs: Processes, i: Instance)
    requires i in s.phases
  {
    && s.lock.Present? && s.lock.regular
    && (s.phases[i].Holding? ==> s.lock.owner == Some(Record(i, procs(i))))
    && (s.phases[i].Initialising? ==> s.lock.owner.None? && s.lock.mtime == s.phases[i].since <= s.now)
  }

  ghost predicate Invariant(s: State, procs: Processes) {
    && (forall i {:trigger Holds(s, procs, i)} :: Holds(s, procs, i) ==> Reflects(s, procs, i))
    && (forall i, j {:trigger Holds(s, procs, i), Holds(s, procs, j)} ::
          Holds(s, procs, i) && Holds(s, procs, j) ==> i == j)
    && WithinGrace(s, procs, s.now)
    && (forall i {:trigger s.phases[i]} :: i in s.phases && s.phases[i].Reclaiming? && s.phases[i].expected.None? ==>
          s.now - s.phases[i].mtime >= 5000)
  }

  /** The assumption on time: no instance takes five seconds to write its record, unless its process dies. */
  predicate Timely(s: State, procs: Processes, e: Event) {
    e.Tick? ==> WithinGrace(s, procs, e.to)
  }

  lemma OnlyPhaseChanged(s: State, procs: Processes, i: Instance, p: Phase)
    requires Invariant(s, procs) && i in s.phases && !p.Initialising? && (p.Holding? ==> s.phases[i].Holding?)
    requires p.Reclaiming? && p.expected.None? ==> s.now - p.mtime >= 5000
    ensures Invariant(To(s, i, p), procs)
    ensures forall j {:trigger Holds(To(s, i, p), procs, j)} :: Holds(To(s, i, p), procs, j) ==> Holds(s, procs, j)
    ensures Holds(To(s, i, p), procs, i) ==> p.Holding?
  {
    var t := To(s, i, p);
    forall j | Holds(t, procs, j) ensures Holds(s, procs, j) && Reflects(t, procs, j) {
      assert t.phases[j] == if j == i then p else s.phases[j];
      assert Holds(s, procs, j);
    }
  }

  /** With nobody holding, the lock may change in any way. */
  lemma LockFree(s: State, procs: Processes, lock: Lock)
    requires Invariant(s, procs) && forall i {:trigger Holds(s, procs, i)} :: !Holds(s, procs, i)
    ensures Invariant(s.(lock := lock), procs)
  {
    var t := s.(lock := lock);
    assert forall i {:trigger Holds(t, procs, i)} :: Holds(t, procs, i) == Holds(s, procs, i);
  }

  lemma DirectoryMade(s: State, procs: Processes, i: Instance)
    requires Invariant(s, procs) && Live(s, procs, i) && s.lock.Absent?
    ensures Invariant(To(s, i, Initialising(s.now)).(lock := Present(s.now, None, true)), procs)
  {
    var t := To(s, i, Initialising(s.now)).(lock := Present(s.now, None, true));
    forall j ensures Holds(t, procs, j) <==> j == i {
      assert j != i && Holds(t, procs, j) ==> t.phases[j] == s.phases[j] && Holds(s, procs, j);
    }
  }

  lemma RecordWritten(s: State, procs: Processes, i: Instance)
    requires Invariant(s, procs) && Holds(s, procs, i) && s.lock.Present?
    ensures Invariant(To(s, i, Holding).(lock := Present(s.now, Some(Record(i, procs(i))), s.lock.regular)), procs)
  {
    var t := To(s, i, Holding).(lock := Present(s.now, Some(Record(i, procs(i))), s.lock.regular));
    forall j ensures Holds(t, procs, j) ==> j == i {
      assert j != i && Holds(t, procs, j) ==> t.phases[j] == s.phases[j] && Holds(s, procs, j);
    }
    assert Reflects(s, procs, i);
  }

  /** The directory goes away together with the hold of its only holder. */
  lemma GivenUp(s: State, procs: Processes, i: Instance, p: Phase)
    requires Invariant(s, procs) && Holds(s, procs, i) && (p.Failed? || p.Released?)
    ensures Invariant(To(s, i, p).(lock := Absent), procs)
  {
    OnlyPhaseChanged(s, procs, i, p);
    LockFree(To(s, i, p), procs, Absent);
  }

  /** A reclaim that goes through finds nobody holding. */
  lemma ReclaimedIsFree(s: State, procs: Processes, i: Instance)
    requires Invariant(s, procs) && i in s.phases && s.phases[i].Reclaiming? && s.lock.Present?
    requires IsStillStale(s.lock, s.phases[i].expected, s.phases[i].mtime, s.alive)
    ensures forall j {:trigger Holds(s, procs, j)} :: !Holds(s, procs, j)
  {
    forall j ensures !Holds(s, procs, j) {
    }
  }

  lemma ActionKeepsInvariant(s: State, procs: Processes, i: Instance, action: Action)
    requires Invariant(s, procs) && Live(s, procs, i) && CanAct(s, s.phases[i], action)
    ensures Invariant(Perform(s, procs, i, action), procs)
  {
    hide Invariant;
    var p := s.phases[i];
    match action
    case Begin => OnlyPhaseChanged(s, procs, i, Trying(0));
    case MakeDirectory =>
      if s.lock.Absent? {
        DirectoryMade(s, procs, i);
      } else {
        OnlyPhaseChanged(s, procs, i, Looking(p.attempt));
      }
    case WriteRecord => RecordWritten(s, procs, i);
    case WriteFails => GivenUp(s, procs, i, Failed);
    case ReadSnapshot => OnlyPhaseChanged(s, procs, i, if s.lock.Absent? then Failed else Deciding(p.attempt, s.lock));
    case Decide => OnlyPhaseChanged(s, procs, i, Decision(p, s.alive, s.now));
    case Reclaim =>
      OnlyPhaseChanged(s, procs, i, Retry(p.attempt));
      if s.lock.Present? && IsStillStale(s.lock, p.expected, p.mtime, s.alive) {
        ReclaimedIsFree(s, procs, i);
        LockFree(To(s, i, Retry(p.attempt)), procs, Absent);
      }
    case UpdatePort =>
      RecordWritten(s, procs, i);
      assert s.phases[i := Holding] == s.phases;
    case Release =>
      GivenUp(s, procs, i, Released);
      OnlyPhaseChanged(s, procs, i, Released);
  }

  lemma StepKeepsInvariant(s: State, procs: Processes, e: Event)
    requires Invariant(s, procs) && Enabled(s, procs, e) && Timely(s, procs, e)
    ensures Invariant(Step(s, procs, e), procs)
  {
    hide Invariant, Perform;
    match e
    case Act(i, action) => ActionKeepsInvariant(s, procs, i, action);
    case Die(pid) => DeathKeeps(s, procs, pid);
    case Tick(to) => TickKeeps(s, procs, to);
  }

  lemma DeathKeeps(s: State, procs: Processes, pid: Pid)
    requires Invariant(s, procs)
    ensures Invariant(s.(alive := s.alive - {pid}), procs)
  {
    var t := s.(alive := s.alive - {pid});
    forall j | Holds(t, procs, j) ensures Holds(s, procs, j) && Reflects(t, procs, j) {
      assert Holds(s, procs, j);
    }
  }

  lemma TickKeeps(s: State, procs: Processes, to: int)
    requires Invariant(s, procs) && s.now <= to && WithinGrace(s, procs, to)
    ensures Invariant(s.(now := to), procs)
  {
    var t := s.(now := to);
    forall j | Holds(t, procs, j) ensures Holds(s, procs, j) && Reflects(t, procs, j) {
      assert Holds(s, procs, j);
    }
  }

  // ---------- Whole histories ----------

  /** Everyone starts idle; the lock may be in any state, left by whomever. */
  predicate Start(s: State) {
    forall i :: i in s.phases ==> s.phases[i].Idle?
  }

  ghost predicate History(procs: Processes, trace: seq<State>, events: seq<Event>) {
    && |trace| == |events| + 1 && Start(trace[0])
    && forall n {:trigger events[n]} :: 0 <= n < |events| ==> Follows(procs, trace[n], events[n], trace[n + 1])
  }

  ghost predicate Follows(procs: Processes, s: State, e: Event, t: State) {
    Enabled(s, procs, e) && t == Step(s, procs, e)
  }

  ghost predicate TimelyHistory(procs: Processes, trace: seq<State>, events: seq<Event>)
    requires |trace| == |events| + 1
  {
    forall n {:trigger events[n]} :: 0 <= n < |events| ==> Timely(trace[n], procs, events[n])
  }

  lemma {:induction false} HistoryKeepsInvariant(procs: Processes, trace: seq<State>, events: seq<Event>, n: nat)
    requires History(procs, trace, events) && TimelyHistory(procs, trace, events) && n < |trace|
    ensures Invariant(trace[n], procs)
  {
    hide Invariant, Step, Enabled, Timely;
    if n == 0 {
      StartInvariant(trace[0], procs);
    } else {
      HistoryKeepsInvariant(procs, trace, events, n - 1);
      var e := events[n - 1];
      StepKeepsInvariant(trace[n - 1], procs, e);
    }
  }

  lemma StartInvariant(s: State, procs: Processes)
    requires Start(s)
    ensures Invariant(s, procs)
  {
  }

  /**
   * Mutual exclusion: with the re-check and the rename of a reclaim as one step, and every record written within the
   * grace period, at most one live instance holds the lock, whoever dies when.
   */
  lemma AtMostOneHolder(procs: Processes, trace: seq<State>, events: seq<Event>, n: nat, i: Instance, j: Instance)
    requires History(procs, trace, events) && TimelyHistory(procs, trace, events) && n < |trace|
    requires Holds(trace[n], procs, i) && Holds(trace[n], procs, j)
    ensures i == j
  {
    HistoryKeepsInvariant(procs, trace, events, n);
  }

  /**
   * A lock whose recorded owner is alive changes only by that owner's own steps: it goes away only when the owner
   * releases it, and else stays a directory with the same record in it.
   */
  lemma LiveOwnerIsNeverReclaimed(procs: Processes, trace: seq<State>, events: seq<Event>, n: nat)
    requires History(procs, trace, events) && TimelyHistory(procs, trace, events) && n < |events|
    requires var l := trace[n].lock; l.Present? && l.owner.Some? && l.owner.value.pid in trace[n].alive
    ensures var l, after, e := trace[n].lock, trace[n + 1].lock, events[n];
            && (after != l ==>
                  e.Act? && (e.action.UpdatePort? || e.action.Release?) && e.i == l.owner.value.token)
            && (after.Absent? ==> e.Act? && e.action.Release?)
            && (after.Present? ==> after.owner == l.owner && after.regular == l.regular)
  {
    HistoryKeepsInvariant(procs, trace, events, n);
    var s, e := trace[n], events[n];
    assert Follows(procs, s, e, trace[n + 1]);
    if e.Act? && (s.phases[e.i].Initialising? || s.phases[e.i].Holding?) {
      assert Holds(s, procs, e.i);
    }
  }

  // ---------- How often an instance tries ----------

  /** How often the instance has tried to make the directory. */
  function Tries(events: seq<Event>, i: Instance): nat {
    if events == [] then 0
    else Tries(events[..|events| - 1], i) + if events[|events| - 1] == Act(i, MakeDirectory) then 1 else 0
  }

  predicate CountsTries(p: Phase, tries: nat) {
    match p
    case Idle => tries == 0
    case Trying(attempt) => tries == attempt < 4
    case Looking(attempt) => tries == attempt + 1 <= 4
    case Deciding(attempt, _) => tries == attempt + 1 <= 4
    case Reclaiming(attempt, _, _) => tries == attempt + 1 <= 4
    case _ => 1 <= tries <= 4
  }

  lemma {:induction false} PhaseCountsTries(procs: Processes, trace: seq<State>, events: seq<Event>, n: nat,
                                           i: Instance)
    requires History(procs, trace, events) && n < |trace| && i in trace[n].phases
    ensures CountsTries(trace[n].phases[i], Tries(events[..n], i))
  {
    if n > 0 {
      var e := events[n - 1];
      assert Follows(procs, trace[n - 1], e, trace[n]);
      PhaseCountsTries(procs, trace, events, n - 1, i);
      assert events[..n][..n - 1] == events[..n - 1];
    }
  }

  /** Nobody tries more than four times; a reclaim leads to the next try, or to failure after the fourth. */
  lemma FourTries(procs: Processes, trace: seq<State>, events: seq<Event>, n: nat, i: Instance)
    requires History(procs, trace, events) && n < |trace| && i in trace[n].phases
    ensures Tries(events[..n], i) <= 4
    ensures n > 0 && events[n - 1] == Act(i, Reclaim) ==>
      trace[n].phases[i] == if Tries(events[..n], i) < 4 then Trying(Tries(events[..n], i)) else Failed
  {
    PhaseCountsTries(procs, trace, events, n, i);
    if n > 0 && events[n - 1] == Act(i, Reclaim) {
      assert Follows(procs, trace[n - 1], events[n - 1], trace[n]);
      PhaseCountsTries(procs, trace, events, n - 1, i);
      assert events[..n][..n - 1] == events[..n - 1];
    }
  }

  // ---------- How long an initialisation may take ----------

  const AGED := Present(0, None, true)
  const RECENT := Present(5000, None, true)

  function Stage(procs: Processes, k: nat): State
    requires k < 10
  {
    var alive := {procs(0), procs(1)};
    if k == 0 then State(Absent, 0, alive, map[0 := Idle, 1 := Idle])
    else if k == 1 then State(Absent, 0, alive, map[0 := Trying(0), 1 := Idle])
    else if k == 2 then State(AGED, 0, alive, map[0 := Initialising(0), 1 := Idle])
    else if k == 3 then State(AGED, 5000, alive, map[0 := Initialising(0), 1 := Idle])
    else if k == 4 then State(AGED, 5000, alive, map[0 := Initialising(0), 1 := Trying(0)])
    else if k == 5 then State(AGED, 5000, alive, map[0 := Initialising(0), 1 := Looking(0)])
    else if k == 6 then State(AGED, 5000, alive, map[0 := Initialising(0), 1 := Deciding(0, AGED)])
    else if k == 7 then State(AGED, 5000, alive, map[0 := Initialising(0), 1 := Reclaiming(0, None, 0)])
    else if k == 8 then State(Absent, 5000, alive, map[0 := Initialising(0), 1 := Trying(1)])
    else State(RECENT, 5000, alive, map[0 := Initialising(0), 1 := Initialising(5000)])
  }

  lemma StagesOfTheFirst(procs: Processes)
    ensures Start(Stage(procs, 0))
    ensures Follows(procs, Stage(procs, 0), Act(0, Begin), Stage(procs, 1))
    ensures Follows(procs, Stage(procs, 1), Act(0, MakeDirectory), Stage(procs, 2))
    ensures Follows(procs, Stage(procs, 2), Tick(5000), Stage(procs, 3))
  {
  }

  lemma StagesOfTheSecond(procs: Processes)
    ensures Follows(procs, Stage(procs, 3), Act(1, Begin), Stage(procs, 4))
    ensures Follows(procs, Stage(procs, 4), Act(1, MakeDirectory), Stage(procs, 5))
    ensures Follows(procs, Stage(procs, 5), Act(1, ReadSnapshot), Stage(procs, 6))
  {
  }

  lemma StagesOfTheReclaim(procs: Processes)
    ensures Follows(procs, Stage(procs, 6), Act(1, Decide), Stage(procs, 7))
    ensures Follows(procs, Stage(procs, 7), Act(1, Reclaim), Stage(procs, 8))
    ensures Follows(procs, Stage(procs, 8), Act(1, MakeDirectory), Stage(procs, 9))
    ensures Holds(Stage(procs, 9), procs, 0) && Holds(Stage(procs, 9), procs, 1)
  {
  }

  /** Whenever time passes, every initialisation under way has then taken less than the bound. */
  ghost predicate BoundedHistory(procs: Processes, trace: seq<State>, events: seq<Event>, bound: int)
    requires |trace| == |events| + 1
  {
    forall n {:trigger events[n]} :: 0 <= n < |events| && events[n].Tick? ==>
      Within(trace[n], procs, events[n].to, bound)
  }

  /**
   * An instance that takes the grace period to write its record comes to share the lock with its reclaimer, whichever
   * processes the two live in.
   */
  lemma SlowInitialisationBreaks(procs: Processes, bound: int)
    requires bound > 5000
    ensures exists trace, events ::
      && History(procs, trace, events) && BoundedHistory(procs, trace, events, bound)
      && Holds(trace[|events|], procs, 0) && Holds(trace[|events|], procs, 1)
  {
    hide Stage, Follows, Start, Holds, Within;
    StagesOfTheFirst(procs);
    StagesOfTheSecond(procs);
    StagesOfTheReclaim(procs);
    var trace := seq(10, k requires 0 <= k < 10 => Stage(procs, k));
    var events := [Act(0, Begin), Act(0, MakeDirectory), Tick(5000), Act(1, Begin), Act(1, MakeDirectory),
                   Act(1, ReadSnapshot), Act(1, Decide), Act(1, Reclaim), Act(1, MakeDirectory)];
    NineSteps(procs, trace, events);
    JustOverGrace(procs, bound);
    OneTick(procs, trace, events, bound);
    assert trace[|events|] == Stage(procs, 9);
  }

  lemma OneTick(procs: Processes, trace: seq<State>, events: seq<Event>, bound: int)
    requires |trace| == 10 && |events| == 9 && events[2].Tick? && Within(trace[2], procs, events[2].to, bound)
    requires events[0].Act? && events[1].Act? && events[3].Act? && events[4].Act? && events[5].Act?
    requires events[6].Act? && events[7].Act? && events[8].Act?
    ensures BoundedHistory(procs, trace, events, bound)
  {
    hide Within;
  }

  lemma JustOverGrace(procs: Processes, bound: int)
    requires bound > 5000
    ensures Within(Stage(procs, 2), procs, 5000, bound)
  {
  }

  lemma NineSteps(procs: Processes, trace: seq<State>, events: seq<Event>)
    requires |trace| == 10 && |events| == 9 && Start(trace[0])
    requires Follows(procs, trace[0], events[0], trace[1]) && Follows(procs, trace[1], events[1], trace[2])
    requires Follows(procs, trace[2], events[2], trace[3]) && Follows(procs, trace[3], events[3], trace[4])
    requires Follows(procs, trace[4], events[4], trace[5]) && Follows(procs, trace[5], events[5], trace[6])
    requires Follows(procs, trace[6], events[6], trace[7]) && Follows(procs, trace[7], events[7], trace[8])
    requires Follows(procs, trace[8], events[8], trace[9])
    ensures History(procs, trace, events)
  {
    hide Follows, Start;
  }

  /** With such a bound on initialisations, no two live instances ever hold the lock. */
  ghost predicate ExclusiveWithin(procs: Processes, bound: int) {
    forall trace, events, n: nat, i, j
      {:trigger BoundedHistory(procs, trace, events, bound), Holds(trace[n], procs, i), Holds(trace[n], procs, j)} ::
      && History(procs, trace, events) && BoundedHistory(procs, trace, events, bound)
      && n < |trace| && Holds(trace[n], procs, i) && Holds(trace[n], procs, j) ==>
        i == j
  }

  /** Five seconds, the grace period, is exactly the longest bound that keeps the lock exclusive. */
  lemma GraceIsExact(procs: Processes, bound: int)
    ensures ExclusiveWithin(procs, bound) <==> bound <= 5000
  {
    hide Follows, Start, Holds, Within;
    if bound <= 5000 {
      forall trace, events, n: nat, i, j |
        && History(procs, trace, events) && BoundedHistory(procs, trace, events, bound)
        && n < |trace| && Holds(trace[n], procs, i) && Holds(trace[n], procs, j)
        ensures i == j
      {
        BoundedIsTimely(procs, trace, events, bound);
        AtMostOneHolder(procs, trace, events, n, i, j);
      }
    } else {
      SlowInitialisationBreaks(procs, bound);
    }
  }

  lemma BoundedIsTimely(procs: Processes, trace: seq<State>, events: seq<Event>, bound: int)
    requires |trace| == |events| + 1 && BoundedHistory(procs, trace, events, bound) && bound <= 5000
    ensures TimelyHistory(procs, trace, events)
  {
  }
}
