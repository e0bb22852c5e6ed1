// Running native copper rebuilds one request at a time, and the latch that closes after an unverified one
// (pcb-mutation-operations.ts, lines 746-779, 884-958).
module CopperRebuilds {
  import opened Options
  import opened CopperEvidence

  /** What a native call does: it gives a value or undefined, or it throws. */
  datatype Reaction = Returned(result: Option<NativeResult>) | Rejected(message: string)

  const CHANGED := "Active PCB changed before this pour; rebuildCopperRegion() was not invoked."

  function SkippedAttempt(target: string): Attempt {
    Attempt(target, None, Some(CHANGED), true)
  }

  function SettledAttempt(target: string, reaction: Reaction): Attempt {
    match reaction
    case Returned(result) => Attempt(target, result, None, false)
    case Rejected(message) => Attempt(target, None, Some(message), false)
  }

  function AttemptOf(target: string, expected: string, focus: Option<string>, reaction: Reaction): Attempt {
    if focus != Some(expected) then SkippedAttempt(target) else SettledAttempt(target, reaction)
  }

  /** An attempt keeps what the call gave or the message that it threw; without the focus no call was made. */
  predicate Records(a: Attempt, focused: bool, reaction: Reaction) {
    if !focused then a.notInvoked && a.nativeResult.None? && a.error.Some? && a.error.value != ""
    else
      && !a.notInvoked
      && (reaction.Returned? ==> a.error.None? && a.nativeResult == reaction.result)
      && (reaction.Rejected? ==> a.error == Some(reaction.message) && a.nativeResult.None?)
  }

  /** The attempts follow the targets in order and stop after the first that has an error. */
  predicate PrefixOfTargets(targets: seq<string>, attempts: seq<Attempt>) {
    && |attempts| <= |targets|
    && (forall i :: 0 <= i < |attempts| ==> attempts[i].pourId == targets[i])
    && (forall i :: 0 <= i < |attempts| - 1 ==> attempts[i].error.None?)
    && (forall i :: 0 <= i < |attempts| && attempts[i].error.None? ==> !attempts[i].notInvoked)
  }

  predicate Stopped(targets: seq<string>, attempts: seq<Attempt>) {
    |attempts| == |targets| || (attempts != [] && attempts[|attempts| - 1].error.Some?)
  }

  /** turns[i] is what the editor does at target i: the PCB in focus, and the reaction to the call. */
  method ExecuteCopperRebuilds(targets: seq<string>, expected: string, turns: seq<(Option<string>, Reaction)>)
    returns (attempts: seq<Attempt>)
    requires |turns| == |targets|
    ensures PrefixOfTargets(targets, attempts) && Stopped(targets, attempts)
    ensures forall i :: 0 <= i < |attempts| ==> attempts[i] == AttemptOf(targets[i], expected, turns[i].0, turns[i].1)
    ensures forall i :: 0 <= i < |attempts| ==> Records(attempts[i], turns[i].0 == Some(expected), turns[i].1)
  {
    attempts := [];
    for i := 0 to |targets|
      invariant |attempts| == i
      invariant forall k :: 0 <= k < i ==> attempts[k].error.None?
      invariant forall k :: 0 <= k < i ==> attempts[k] == AttemptOf(targets[k], expected, turns[k].0, turns[k].1)
      invariant forall k :: 0 <= k < i ==> Records(attempts[k], turns[k].0 == Some(expected), turns[k].1)
    {
      var (focus, reaction) := turns[i];
      if focus != Some(expected) {
        attempts := attempts + [Attempt(targets[i], None, Some(CHANGED), true)];
        break;
      }
      if reaction.Rejected? {
        attempts := attempts + [Attempt(targets[i], None, Some(reaction.message), false)];
        break;
      }
      attempts := attempts + [Attempt(targets[i], reaction.result, None, false)];
    }
  }

  // ---------- Requests as runs that wait for the editor ----------

  /** What a request has fixed before its first native call. */
  datatype Plan = Plan(targets: seq<string>, focus: string, pre: seq<Item>)

  datatype Phase =
    | Refused
    | Preflight
    | Choosing(plan: Plan, attempts: seq<Attempt>)
    | Invoking(plan: Plan, attempts: seq<Attempt>)
    | ReadingBack(plan: Plan, attempts: seq<Attempt>)
    | NothingWritten
    | Unread(plan: Plan, attempts: seq<Attempt>)
    | Read(plan: Plan, attempts: seq<Attempt>, post: seq<Item>, finalFocus: Option<string>)

  predicate Active(p: Phase) {
    p.Preflight? || p.Choosing? || p.Invoking? || p.ReadingBack?
  }

  predicate SoundPlan(plan: Plan) {
    && plan.targets != [] && SnapshotOf(plan.pre).Some?
    && forall i, j :: 0 <= i < j < |plan.targets| ==> plan.targets[i] != plan.targets[j]
  }

  datatype State = State(rebuildInProgress: bool, rebuildRequiresReconciliation: bool, runs: seq<Phase>)

  const INITIAL := State(false, false, [])

  /** What can happen next, to any of the waiting runs. */
  datatype Event =
    | Request
    | PreflightFails(run: nat)
    | PreflightPasses(run: nat, plan: Plan)
    | FocusRead(run: nat, focus: Option<string>)
    | NativeSettles(run: nat, reaction: Reaction)
    | ReadbackFails(run: nat)
    | ReadbackArrives(run: nat, post: seq<Item>, finalFocus: Option<string>)

  predicate Enabled(s: State, e: Event) {
    if e.Request? then true
    else
      e.run < |s.runs| &&
      match e
      case Request => true
      case PreflightFails(r) => s.runs[r].Preflight?
      case PreflightPasses(r, plan) => s.runs[r].Preflight? && SoundPlan(plan)
      case FocusRead(r, _) => s.runs[r].Choosing?
      case NativeSettles(r, _) => s.runs[r].Invoking?
      case ReadbackFails(r) => s.runs[r].ReadingBack?
      case ReadbackArrives(r, _, _) => s.runs[r].ReadingBack?
  }

  function FocusUnchanged(plan: Plan, finalFocus: Option<string>): bool {
    finalFocus == Some(plan.focus)
  }

  function ResultsOf(plan: Plan, attempts: seq<Attempt>, post: seq<Item>,
                     finalFocus: Option<string>): Option<seq<RebuildItem>>
    requires SoundPlan(plan)
  {
    MapResults(attempts, SnapshotOf(plan.pre).value, post, FocusUnchanged(plan, finalFocus))
  }

  /** The final read-back proves the whole run. */
  predicate Proven(plan: Plan, attempts: seq<Attempt>, post: seq<Item>, finalFocus: Option<string>)
    requires SoundPlan(plan)
  {
    var results := ResultsOf(plan, attempts, post, finalFocus);
    results.Some? && FullyVerified(|plan.targets|, attempts, results.value, FocusUnchanged(plan, finalFocus))
  }

  /** After an attempt the loop goes on, or it has ended and the latch closes if anything was invoked. */
  function AfterAttempt(s: State, run: nat, plan: Plan, attempts: seq<Attempt>): State
    requires run < |s.runs|
  {
    if Stopped(plan.targets, attempts) then
      State(s.rebuildInProgress, NativeCount(attempts) > 0, s.runs[run := ReadingBack(plan, attempts)])
    else s.(runs := s.runs[run := Choosing(plan, attempts)])
  }

  ghost predicate Planned(s: State) {
    forall r {:trigger s.runs[r]} :: 0 <= r < |s.runs| ==> PlannedPhase(s.runs[r])
  }

  /** Plans are sound, and attempts are a prefix of the targets with an error only on the last. */
  ghost predicate PlannedPhase(p: Phase) {
    p.Choosing? || p.Invoking? || p.ReadingBack? || p.Unread? || p.Read? ==>
      && SoundPlan(p.plan) && PrefixOfTargets(p.plan.targets, p.attempts)
      && (p.Choosing? || p.Invoking? <==> !Stopped(p.plan.targets, p.attempts))
  }

  ghost function Step(s: State, e: Event): State
    requires Planned(s) && Enabled(s, e)
  {
    match e
    case Request =>
      if s.rebuildInProgress || s.rebuildRequiresReconciliation then s.(runs := s.runs + [Refused])
      else State(true, false, s.runs + [Preflight])
    case PreflightFails(r) => State(false, s.rebuildRequiresReconciliation, s.runs[r := NothingWritten])
    case PreflightPasses(r, plan) => s.(runs := s.runs[r := Choosing(plan, [])])
    case FocusRead(r, focus) =>
      var Choosing(plan, attempts) := s.runs[r];
      if focus == Some(plan.focus) then s.(runs := s.runs[r := Invoking(plan, attempts)])
      else AfterAttempt(s, r, plan, attempts + [SkippedAttempt(plan.targets[|attempts|])])
    case NativeSettles(r, reaction) =>
      var Invoking(plan, attempts) := s.runs[r];
      AfterAttempt(s, r, plan, attempts + [SettledAttempt(plan.targets[|attempts|], reaction)])
    case ReadbackFails(r) =>
      var ReadingBack(plan, attempts) := s.runs[r];
      State(false, s.rebuildRequiresReconciliation, s.runs[r := Unread(plan, attempts)])
    case ReadbackArrives(r, post, finalFocus) =>
      var ReadingBack(plan, attempts) := s.runs[r];
      State(false, s.rebuildRequiresReconciliation && !Proven(plan, attempts, post, finalFocus),
            s.runs[r := Read(plan, attempts, post, finalFocus)])
  }

  // ---------- What every interleaving keeps ----------

  /** A run that is over and either invoked nothing or was proven. */
  ghost predicate Settled(p: Phase)
    requires PlannedPhase(p)
  {
    match p
    case Refused => true
    case NothingWritten => true
    case Unread(plan, attempts) => NativeCount(attempts) == 0
    case Read(plan, attempts, post, finalFocus) =>
      NativeCount(attempts) == 0 || Proven(plan, attempts, post, finalFocus)
    case _ => false
  }

  ghost predicate OthersSettled(s: State, run: int)
    requires Planned(s)
  {
    forall r {:trigger s.runs[r]} :: 0 <= r < |s.runs| && r != run ==> Settled(s.runs[r])
  }

  /**
   * Either one run is under way, and all others are settled, or none is; then an open latch means that all are settled.
   */
  ghost predicate Invariant(s: State) {
    && Planned(s)
    && (s.rebuildInProgress ==> exists r :: Leads(s, r))
    && (!s.rebuildInProgress ==> forall r {:trigger s.runs[r]} :: 0 <= r < |s.runs| ==> !Active(s.runs[r]))
    && (!s.rebuildInProgress && !s.rebuildRequiresReconciliation ==> OthersSettled(s, -1))
  }

  ghost predicate Leads(s: State, run: int)
    requires Planned(s)
  {
    && 0 <= run < |s.runs| && Active(s.runs[run]) && OthersSettled(s, run)
    && s.rebuildRequiresReconciliation == (s.runs[run].ReadingBack? && NativeCount(s.runs[run].attempts) > 0)
  }

  lemma ActiveLeads(s: State, run: nat)
    requires Invariant(s) && run < |s.runs| && Active(s.runs[run])
    ensures s.rebuildInProgress && Leads(s, run)
  {
    var r :| Leads(s, r);
    assert r != run ==> Settled(s.runs[run]);
  }

  lemma RunReplaced(s: State, run: nat, p: Phase, latch: bool, busy: bool)
    requires Planned(s) && run < |s.runs| && OthersSettled(s, run) && PlannedPhase(p)
    requires busy <==> Active(p)
    requires Active(p) ==> latch == (p.ReadingBack? && NativeCount(p.attempts) > 0)
    requires !Active(p) && !latch ==> Settled(p)
    ensures Invariant(State(busy, latch, s.runs[run := p]))
  {
    hide PlannedPhase, Settled;
    var after := State(busy, latch, s.runs[run := p]);
    assert Planned(after);
    forall r | 0 <= r < |after.runs| && r != run ensures Settled(after.runs[r]) && !Active(after.runs[r]) {
      assert after.runs[r] == s.runs[r];
      SettledIsNotActive(s.runs[r]);
    }
    if busy {
      assert Leads(after, run);
    }
  }

  lemma SettledIsNotActive(p: Phase)
    requires PlannedPhase(p) && Settled(p)
    ensures !Active(p)
  {
  }

  lemma AttemptAdded(plan: Plan, attempts: seq<Attempt>, a: Attempt)
    requires PrefixOfTargets(plan.targets, attempts) && !Stopped(plan.targets, attempts)
    requires a.pourId == plan.targets[|attempts|] && (a.error.None? ==> !a.notInvoked)
    ensures PrefixOfTargets(plan.targets, attempts + [a])
  {
  }

  lemma AfterAttemptKeeps(s: State, run: nat, plan: Plan, attempts: seq<Attempt>, a: Attempt)
    requires Invariant(s) && run < |s.runs| &&
      (s.runs[run] == Choosing(plan, attempts) || s.runs[run] == Invoking(plan, attempts))
    requires a.pourId == plan.targets[|attempts|] && (a.error.None? ==> !a.notInvoked)
    ensures Invariant(AfterAttempt(s, run, plan, attempts + [a]))
  {
    hide Settled, PrefixOfTargets, SoundPlan;
    ActiveLeads(s, run);
    AttemptAdded(plan, attempts, a);
    var more := attempts + [a];
    if Stopped(plan.targets, more) {
      RunReplaced(s, run, ReadingBack(plan, more), NativeCount(more) > 0, true);
    } else {
      RunReplaced(s, run, Choosing(plan, more), false, true);
    }
  }

  lemma RequestKeeps(s: State)
    requires Invariant(s)
    ensures Invariant(Step(s, Request))
  {
    hide PlannedPhase, Settled;
    var after := Step(s, Request);
    NewPhases();
    forall r | 0 <= r < |after.runs| ensures PlannedPhase(after.runs[r]) {
      assert r < |s.runs| ==> after.runs[r] == s.runs[r];
    }
    if s.rebuildInProgress {
      var r :| Leads(s, r);
      forall q | 0 <= q < |after.runs| && q != r ensures Settled(after.runs[q]) {
        assert q < |s.runs| ==> after.runs[q] == s.runs[q];
      }
      assert after.runs[r] == s.runs[r];
      assert Leads(after, r);
    } else {
      forall q | 0 <= q < |s.runs| ensures after.runs[q] == s.runs[q] && !Active(s.runs[q]) {
      }
      if !s.rebuildRequiresReconciliation {
        assert Leads(after, |s.runs|);
      }
    }
  }

  lemma NewPhases()
    ensures PlannedPhase(Refused) && Settled(Refused) && !Active(Refused)
    ensures PlannedPhase(Preflight) && Active(Preflight)
    ensures PlannedPhase(NothingWritten) && Settled(NothingWritten)
  {
  }

  lemma PreflightKeeps(s: State, e: Event)
    requires Invariant(s) && Enabled(s, e) && (e.PreflightFails? || e.PreflightPasses? || e.FocusRead?)
    ensures Invariant(Step(s, e))
  {
    hide Settled, SoundPlan;
    ActiveLeads(s, e.run);
    NewPhases();
    match e
    case PreflightFails(r) => RunReplaced(s, r, NothingWritten, false, false);
    case PreflightPasses(r, plan) =>
      PlanHasTargets(plan);
      RunReplaced(s, r, Choosing(plan, []), false, true);
    case FocusRead(r, focus) =>
      var Choosing(plan, attempts) := s.runs[r];
      if focus == Some(plan.focus) {
        RunReplaced(s, r, Invoking(plan, attempts), false, true);
      } else {
        AfterAttemptKeeps(s, r, plan, attempts, SkippedAttempt(plan.targets[|attempts|]));
      }
    case _ =>
  }

  lemma PlanHasTargets(plan: Plan)
    requires SoundPlan(plan)
    ensures plan.targets != []
  {
  }

  lemma ReadbackKeeps(s: State, e: Event)
    requires Invariant(s) && Enabled(s, e) && (e.ReadbackFails? || e.ReadbackArrives?)
    ensures Invariant(Step(s, e))
  {
    hide Proven, SoundPlan;
    ActiveLeads(s, e.run);
    var ReadingBack(plan, attempts) := s.runs[e.run];
    match e
    case ReadbackFails(r) =>
      RunReplaced(s, r, Unread(plan, attempts), s.rebuildRequiresReconciliation, false);
    case ReadbackArrives(r, post, finalFocus) =>
      var latch := s.rebuildRequiresReconciliation && !Proven(plan, attempts, post, finalFocus);
      RunReplaced(s, r, Read(plan, attempts, post, finalFocus), latch, false);
    case _ =>
  }

  lemma NativeKeeps(s: State, run: nat, reaction: Reaction)
    requires Invariant(s) && Enabled(s, NativeSettles(run, reaction))
    ensures Invariant(Step(s, NativeSettles(run, reaction)))
  {
    hide Settled, SoundPlan;
    var Invoking(plan, attempts) := s.runs[run];
    assert PlannedPhase(s.runs[run]);
    AfterAttemptKeeps(s, run, plan, attempts, SettledAttempt(plan.targets[|attempts|], reaction));
  }

  lemma StepKeepsInvariant(s: State, e: Event)
    requires Invariant(s) && Enabled(s, e)
    ensures Invariant(Step(s, e))
  {
    hide Invariant;
    match e
    case Request => RequestKeeps(s);
    case NativeSettles(r, reaction) => NativeKeeps(s, r, reaction);
    case ReadbackFails(r) => ReadbackKeeps(s, e);
    case ReadbackArrives(r, _, _) => ReadbackKeeps(s, e);
    case _ => PreflightKeeps(s, e);
  }

  // ---------- Whole histories ----------

  /** trace[0] is the initial state, and every state follows from the one before by an event that could happen. */
  ghost predicate History(trace: seq<State>, events: seq<Event>) {
    && |trace| == |events| + 1 && trace[0] == INITIAL
    && forall i :: 0 <= i < |events| ==> Follows(trace[i], events[i], trace[i + 1])
  }

  ghost predicate Follows(s: State, e: Event, t: State) {
    Planned(s) && Enabled(s, e) && t == Step(s, e)
  }

  lemma {:induction false} HistoryKeepsInvariant(trace: seq<State>, events: seq<Event>, n: nat)
    requires History(trace, events) && n < |trace|
    ensures Invariant(trace[n])
  {
    if n > 0 {
      HistoryKeepsInvariant(trace, events, n - 1);
      assert Follows(trace[n - 1], events[n - 1], trace[n]);
      StepKeepsInvariant(trace[n - 1], events[n - 1]);
    }
  }

  /** The event makes the editor rebuild a pour. */
  predicate Invokes(s: State, e: Event) {
    e.FocusRead? && e.run < |s.runs| && s.runs[e.run].Choosing? && e.focus == Some(s.runs[e.run].plan.focus)
  }

  /**
   * Whatever the interleaving, a native rebuild is invoked only while no other run is under way, and every earlier run
   * that invoked one has ended with its whole outcome proven on one and the same PCB.
   */
  lemma InvokedOnlyAfterProof(trace: seq<State>, events: seq<Event>, n: nat)
    requires History(trace, events) && n < |events| && Invokes(trace[n], events[n])
    ensures Planned(trace[n])
    ensures forall r {:trigger trace[n].runs[r]} :: 0 <= r < |trace[n].runs| && r != events[n].run ==>
      !Active(trace[n].runs[r]) && Settled(trace[n].runs[r])
  {
    HistoryKeepsInvariant(trace, events, n);
    var s := trace[n];
    ActiveLeads(s, events[n].run);
    forall r | 0 <= r < |s.runs| && r != events[n].run ensures !Active(s.runs[r]) {
      SettledIsNotActive(s.runs[r]);
    }
  }

  predicate HasAttempts(p: Phase) {
    p.Choosing? || p.Invoking? || p.ReadingBack? || p.Unread? || p.Read?
  }

  /**
   * In every reachable state the attempts of a run are a prefix of its targets with an error only on the last, and the
   * run goes on to further targets exactly as long as there are some and there was no error.
   */
  lemma AttemptsArePrefix(trace: seq<State>, events: seq<Event>, n: nat, r: nat)
    requires History(trace, events) && n < |trace| && r < |trace[n].runs|
    ensures var p := trace[n].runs[r];
            HasAttempts(p) ==>
              && PrefixOfTargets(p.plan.targets, p.attempts)
              && (Stopped(p.plan.targets, p.attempts) <==> !(p.Choosing? || p.Invoking?))
  {
    hide PrefixOfTargets, Stopped;
    HistoryKeepsInvariant(trace, events, n);
    assert PlannedPhase(trace[n].runs[r]);
  }

  // ---------- When the latch is closed ----------

  /** What the editor has to show for a run to be proven: the PCB it started on, and each result earned. */
  ghost predicate EarnedOn(plan: Plan, attempts: seq<Attempt>, post: seq<Item>, finalFocus: Option<string>) {
    finalFocus == Some(plan.focus) && AllEarned(plan.targets, attempts, plan.pre, post)
  }

  lemma ProvenIff(plan: Plan, attempts: seq<Attempt>, post: seq<Item>, finalFocus: Option<string>)
    requires SoundPlan(plan) && |attempts| <= |plan.targets|
    ensures Proven(plan, attempts, post, finalFocus) <==> EarnedOn(plan, attempts, post, finalFocus)
  {
    hide MapResults, FullyVerified, AllEarned;
    FullyVerifiedIff(plan.targets, attempts, plan.pre, post, FocusUnchanged(plan, finalFocus));
  }

  predicate InvokedSome(attempts: seq<Attempt>) {
    exists i :: 0 <= i < |attempts| && !attempts[i].notInvoked
  }

  lemma {:induction false} InvokedIffCounted(attempts: seq<Attempt>)
    ensures InvokedSome(attempts) <==> NativeCount(attempts) > 0
  {
    if attempts != [] {
      var n := |attempts| - 1;
      assert attempts == attempts[..n] + [attempts[n]];
      InvokedIffCounted(attempts[..n]);
    }
  }

  /** The run has made its attempts, with native calls among them, and nothing has proven their outcome. */
  ghost predicate AwaitsProof(p: Phase) {
    match p
    case ReadingBack(_, attempts) => InvokedSome(attempts)
    case Unread(_, attempts) => InvokedSome(attempts)
    case Read(plan, attempts, post, finalFocus) =>
      InvokedSome(attempts) && !EarnedOn(plan, attempts, post, finalFocus)
    case _ => false
  }

  lemma SettledAwaitsNothing(p: Phase)
    requires PlannedPhase(p)
    ensures Settled(p) ==> !AwaitsProof(p)
    ensures p.Unread? || p.Read? ==> (AwaitsProof(p) <==> !Settled(p))
    ensures p.ReadingBack? ==> (AwaitsProof(p) <==> NativeCount(p.attempts) > 0)
  {
    hide SoundPlan, Proven, EarnedOn, InvokedSome;
    if p.ReadingBack? || p.Unread? || p.Read? {
      InvokedIffCounted(p.attempts);
    }
    if p.Read? {
      ProvenIff(p.plan, p.attempts, p.post, p.finalFocus);
    }
  }

  ghost predicate LatchExact(s: State) {
    s.rebuildRequiresReconciliation <==> exists r :: 0 <= r < |s.runs| && AwaitsProof(s.runs[r])
  }

  /** While a run is under way it alone can await proof. */
  lemma LeaderLatch(s: State)
    requires Invariant(s) && s.rebuildInProgress
    ensures LatchExact(s)
  {
    hide Settled, AwaitsProof, PlannedPhase;
    var run :| Leads(s, run);
    forall r | 0 <= r < |s.runs|
      ensures AwaitsProof(s.runs[r]) <==>
        r == run && s.runs[r].ReadingBack? && NativeCount(s.runs[r].attempts) > 0
    {
      SettledAwaitsNothing(s.runs[r]);
      ActivePhaseAwaits(s.runs[r]);
    }
  }

  lemma ActivePhaseAwaits(p: Phase)
    ensures Active(p) && AwaitsProof(p) ==> p.ReadingBack?
  {
  }

  lemma LatchStaysExact(s: State, e: Event)
    requires Invariant(s) && LatchExact(s) && Enabled(s, e)
    ensures LatchExact(Step(s, e))
  {
    hide Settled, AwaitsProof, SoundPlan, Proven;
    var after := Step(s, e);
    StepKeepsInvariant(s, e);
    if after.rebuildInProgress {
      LeaderLatch(after);
    } else if e.Request? {
      assert forall r :: 0 <= r < |s.runs| ==> after.runs[r] == s.runs[r];
      RefusedAwaitsNothing();
    } else {
      ActiveLeads(s, e.run);
      forall r | 0 <= r < |after.runs| && r != e.run ensures !AwaitsProof(after.runs[r]) {
        assert after.runs[r] == s.runs[r];
        SettledAwaitsNothing(s.runs[r]);
      }
      EndedRunLatch(s, e);
    }
  }

  lemma RefusedAwaitsNothing()
    ensures !AwaitsProof(Refused) && !AwaitsProof(NothingWritten)
  {
  }

  /** The event that ends a run leaves the latch closed exactly if that run awaits proof. */
  lemma EndedRunLatch(s: State, e: Event)
    requires Invariant(s) && Enabled(s, e) && !e.Request? && !Step(s, e).rebuildInProgress
    ensures Step(s, e).rebuildRequiresReconciliation <==> AwaitsProof(Step(s, e).runs[e.run])
  {
    hide EarnedOn, InvokedSome, Proven, SoundPlan;
    ActiveLeads(s, e.run);
    assert PlannedPhase(s.runs[e.run]);
    if s.runs[e.run].ReadingBack? {
      InvokedIffCounted(s.runs[e.run].attempts);
      if e.ReadbackArrives? {
        ProvenIff(s.runs[e.run].plan, s.runs[e.run].attempts, e.post, e.finalFocus);
      }
    }
  }

  /**
   * In every reachable state the latch is closed exactly if some run invoked a native rebuild and its outcome has not
   * been earned: it closes with the last attempt of such a run, and only the proof of that run opens it again.
   */
  lemma {:induction false} LatchIsExact(trace: seq<State>, events: seq<Event>, n: nat)
    requires History(trace, events) && n < |trace|
    ensures trace[n].rebuildRequiresReconciliation <==>
      exists r :: 0 <= r < |trace[n].runs| && AwaitsProof(trace[n].runs[r])
  {
    hide Invariant, AwaitsProof, Step;
    if n > 0 {
      LatchIsExact(trace, events, n - 1);
      HistoryKeepsInvariant(trace, events, n - 1);
      assert Follows(trace[n - 1], events[n - 1], trace[n]);
      LatchStaysExact(trace[n - 1], events[n - 1]);
    }
  }

  /** What the proof of a run amounts to on the board. */
  lemma ProvenMeans(plan: Plan, attempts: seq<Attempt>, post: seq<Item>, finalFocus: Option<string>)
    requires SoundPlan(plan) && PrefixOfTargets(plan.targets, attempts) && Proven(plan, attempts, post, finalFocus)
    ensures finalFocus == Some(plan.focus) && |attempts| == |plan.targets|
    ensures forall i :: 0 <= i < |attempts| ==> attempts[i].error.None? || attempts[i].error == Some("")
    ensures forall s :: !GaveCopper(attempts, s) ==> Shown(post, s) == Shown(plan.pre, s)
    ensures forall i :: 0 <= i < |attempts| ==>
      if attempts[i].nativeResult.Some? then ShownOnce(post, plan.targets[i]) else Shown(post, plan.targets[i]) == {}
  {
    hide MapResults, Shown, ShownOnce, GaveCopper;
    FullyVerifiedMeans(plan.targets, attempts, plan.pre, post, FocusUnchanged(plan, finalFocus));
    forall i | 0 <= i < |attempts| ensures attempts[i].error.None? || attempts[i].error == Some("") {
      assert !Failed(attempts[i]);
    }
  }

  /** A rejection with an empty message is taken for a call that returned no copper, and can count as proof. */
  lemma EmptyMessagePasses(plan: Plan, finalFocus: Option<string>)
    requires plan == Plan(["pour"], "pcb", []) && finalFocus == Some("pcb")
    ensures SoundPlan(plan)
    ensures var attempts := [SettledAttempt("pour", Rejected(""))];
            PrefixOfTargets(plan.targets, attempts) && Proven(plan, attempts, [], finalFocus)
  {
    var attempts := [SettledAttempt("pour", Rejected(""))];
    assert SnapshotOf([]) == Some(map[]);
    assert attempts[..0] == [] && NativeCount(attempts) == 1;
    var item := RebuildItem("pour", None, NoCopper, true);
    assert ResultOf(attempts[0], map[], [], RebuiltIds(attempts), Earlier(attempts, 0)) == Some(item);
    assert Results(attempts, 0, map[], []) == Some([]);
    assert Results(attempts, 1, map[], []) == Some([] + [item]);
  }

  /** Any other rejection keeps the latch closed. */
  lemma RejectionIsNeverProof(plan: Plan, attempts: seq<Attempt>, post: seq<Item>, finalFocus: Option<string>, i: nat,
                              message: string)
    requires SoundPlan(plan) && PrefixOfTargets(plan.targets, attempts) && i < |attempts|
    requires attempts[i] == SettledAttempt(plan.targets[i], Rejected(message)) && message != ""
    ensures !Proven(plan, attempts, post, finalFocus)
  {
    hide Proven;
    assert attempts[i].error == Some(message) != Some("");
    if Proven(plan, attempts, post, finalFocus) {
      ProvenMeans(plan, attempts, post, finalFocus);
    }
  }

  /** Some run is proven although the call for one of its targets was rejected with this message. */
  ghost predicate ProvenDespite(message: string) {
    exists plan, attempts, post, finalFocus, i ::
      && SoundPlan(plan) && PrefixOfTargets(plan.targets, attempts) && 0 <= i < |attempts|
      && attempts[i] == SettledAttempt(plan.targets[i], Rejected(message))
      && Proven(plan, attempts, post, finalFocus)
  }

  /** A rejection can be taken for proof if and only if its message is empty. */
  lemma ProvenDespiteIffEmpty(message: string)
    ensures ProvenDespite(message) <==> message == ""
  {
    hide Proven, SoundPlan;
    if message == "" {
      var plan, attempts := Plan(["pour"], "pcb", []), [SettledAttempt("pour", Rejected(""))];
      EmptyMessagePasses(plan, Some("pcb"));
      assert attempts[0] == SettledAttempt(plan.targets[0], Rejected(message));
    } else if ProvenDespite(message) {
      var plan, attempts, post, finalFocus, i :|
        && SoundPlan(plan) && PrefixOfTargets(plan.targets, attempts) && 0 <= i < |attempts|
        && attempts[i] == SettledAttempt(plan.targets[i], Rejected(message))
        && Proven(plan, attempts, post, finalFocus);
      RejectionIsNeverProof(plan, attempts, post, finalFocus, i, message);
    }
  }

  // ---------- The operations object ----------

  /** The two latches, and the requests that wait for the editor. */
  class CopperRebuilder {
    var rebuildInProgress: bool
    var rebuildRequiresReconciliation: bool
    var runs: seq<Phase>

    ghost function Now(): State
      reads this
    {
      State(rebuildInProgress, rebuildRequiresReconciliation, runs)
    }

    constructor ()
      ensures Now() == INITIAL
    {
      rebuildInProgress, rebuildRequiresReconciliation, runs := false, false, [];
    }

    method RebuildCopper() returns (run: nat, accepted: bool)
      requires Invariant(Now())
      modifies this
      ensures Now() == old(Step(Now(), Request)) && Invariant(Now())
      ensures run == old(|runs|) < |runs| && runs[run] == if accepted then Preflight else Refused
    {
      StepKeepsInvariant(Now(), Request);
      run := |runs|;
      if rebuildInProgress || rebuildRequiresReconciliation {
        runs := runs + [Refused];
        return run, false;
      }
      rebuildInProgress := true;
      runs := runs + [Preflight];
      return run, true;
    }

    /** The preflight throws, and the request ends without a native call. */
    method PreflightThrew(run: nat)
      requires Invariant(Now()) && Enabled(Now(), PreflightFails(run))
      modifies this
      ensures Now() == old(Step(Now(), PreflightFails(run))) && Invariant(Now())
    {
      StepKeepsInvariant(Now(), PreflightFails(run));
      runs := runs[run := NothingWritten];
      rebuildInProgress := false;
    }

    method PreflightPassed(run: nat, plan: Plan)
      requires Invariant(Now()) && Enabled(Now(), PreflightPasses(run, plan))
      modifies this
      ensures Now() == old(Step(Now(), PreflightPasses(run, plan))) && Invariant(Now())
    {
      StepKeepsInvariant(Now(), PreflightPasses(run, plan));
      runs := runs[run := Choosing(plan, [])];
    }

    /** The focus before the next target decides whether the native call is made. */
    method FocusBeforeTarget(run: nat, focus: Option<string>) returns (invoked: bool)
      requires Invariant(Now()) && Enabled(Now(), FocusRead(run, focus))
      modifies this
      ensures Now() == old(Step(Now(), FocusRead(run, focus))) && Invariant(Now())
      ensures invoked == old(Invokes(Now(), FocusRead(run, focus)))
    {
      StepKeepsInvariant(Now(), FocusRead(run, focus));
      assert PlannedPhase(runs[run]);
      var Choosing(plan, attempts) := runs[run];
      if focus == Some(plan.focus) {
        runs := runs[run := Invoking(plan, attempts)];
        return true;
      }
      Attempted(run, plan, attempts + [Attempt(plan.targets[|attempts|], None, Some(CHANGED), true)]);
      return false;
    }

    method NativeSettled(run: nat, reaction: Reaction)
      requires Invariant(Now()) && Enabled(Now(), NativeSettles(run, reaction))
      modifies this
      ensures Now() == old(Step(Now(), NativeSettles(run, reaction))) && Invariant(Now())
    {
      StepKeepsInvariant(Now(), NativeSettles(run, reaction));
      assert PlannedPhase(runs[run]);
      var Invoking(plan, attempts) := runs[run];
      var target := plan.targets[|attempts|];
      match reaction {
        case Returned(result) => Attempted(run, plan, attempts + [Attempt(target, result, None, false)]);
        case Rejected(message) => Attempted(run, plan, attempts + [Attempt(target, None, Some(message), false)]);
      }
    }

    /** The loop over the targets goes on or ends; at its end the latch closes if a native call was made. */
    method Attempted(run: nat, plan: Plan, attempts: seq<Attempt>)
      requires run < |runs|
      modifies this
      ensures Now() == old(AfterAttempt(Now(), run, plan, attempts))
    {
      if Stopped(plan.targets, attempts) {
        rebuildRequiresReconciliation := NativeCount(attempts) > 0;
        runs := runs[run := ReadingBack(plan, attempts)];
      } else {
        runs := runs[run := Choosing(plan, attempts)];
      }
    }

    method ReadbackFailed(run: nat)
      requires Invariant(Now()) && Enabled(Now(), ReadbackFails(run))
      modifies this
      ensures Now() == old(Step(Now(), ReadbackFails(run))) && Invariant(Now())
    {
      StepKeepsInvariant(Now(), ReadbackFails(run));
      runs := runs[run := Unread(runs[run].plan, runs[run].attempts)];
      rebuildInProgress := false;
    }

    /** The evidence after the writes; only a full proof opens the latch again. */
    method ReadbackArrived(run: nat, post: seq<Item>, finalFocus: Option<string>) returns (success: bool)
      requires Invariant(Now()) && Enabled(Now(), ReadbackArrives(run, post, finalFocus))
      modifies this
      ensures Now() == old(Step(Now(), ReadbackArrives(run, post, finalFocus))) && Invariant(Now())
      ensures old(runs)[run].ReadingBack? && SoundPlan(old(runs)[run].plan)
      ensures var results := ResultsOf(old(runs)[run].plan, old(runs)[run].attempts, post, finalFocus);
        success <==> results.Some? && Success(|old(runs)[run].plan.targets|, old(runs)[run].attempts, results.value)
      ensures rebuildRequiresReconciliation <==>
        old(rebuildRequiresReconciliation) && !EarnedOn(old(runs)[run].plan, old(runs)[run].attempts, post, finalFocus)
      ensures success ==> var plan := old(runs)[run].plan;
        && finalFocus == Some(plan.focus)
        && (forall i :: 0 <= i < |plan.targets| ==> ShownOnce(post, plan.targets[i]))
        && (forall s :: s !in plan.targets ==> Shown(post, s) == Shown(plan.pre, s))
    {
      hide Shown, ShownOnce, SnapshotOf, Results, EarnedOn;
      StepKeepsInvariant(Now(), ReadbackArrives(run, post, finalFocus));
      assert PlannedPhase(runs[run]);
      var ReadingBack(plan, attempts) := runs[run];
      var before := SnapshotPoured(plan.pre);
      var focusUnchanged := FocusUnchanged(plan, finalFocus);
      ProvenIff(plan, attempts, post, finalFocus);
      var results := MapResults(attempts, before.value, post, focusUnchanged);
      success := results.Some? && Success(|plan.targets|, attempts, results.value);
      SuccessMeans(plan.targets, attempts, plan.pre, post, focusUnchanged);
      if results.Some? && FullyVerified(|plan.targets|, attempts, results.value, focusUnchanged) {
        rebuildRequiresReconciliation := false;
      }
      runs := runs[run := Read(plan, attempts, post, finalFocus)];
      rebuildInProgress := false;
    }
  }
}
