// Metadata requests as runs that wait for the editor, several at a time (device-metadata-operations.ts, lines 126-328).
module DeviceRequests {
  import opened Options
  import opened DeviceMetadata

  /** A validated request; applying with reinsertion demands both hashes of the preview. */
  datatype Input = Input(
    key: string,
    requested: Request,
    apply: bool,
    reinserting: bool,
    expectedFingerprint: Option<string>,
    expectedThumbnail: Option<string>)

  predicate ValidInput(input: Input) {
    && input.requested.Keys != {}
    && (input.apply && input.reinserting ==> input.expectedFingerprint.Some? && input.expectedThumbnail.Some?)
  }

  /** The hash of a record and the search for asset fields. */
  datatype Tools = Tools(fingerprint: Native -> string, assets: AssetFields)

  datatype Status = Preview | Unchanged | VerifiedStatus | RejectedStatus | Uncertain | VerificationFailed

  datatype Outcome = NotAttempted | Acknowledged | Declined | Unknown

  /** What the native write gives: true, false, anything else or an exception. */
  datatype Reply = SaysTrue | SaysFalse | SaysOther

  /** How a request ended: the records read first and last, and the hashes of the thumbnail before and after. */
  datatype Report = Report(
    status: Status,
    result: Outcome,
    first: Option<Native>,
    saved: Option<Native>,
    retained: Option<string>,
    found: Option<string>)

  /** The report of a request that ended without a fresh record. */
  function Stopped(status: Status, result: Outcome, first: Option<Native>): Report {
    Report(status, result, first, None, None, None)
  }

  datatype Phase =
    | Preflight(input: Input)
    | Rechecking(input: Input, before: Native, image: string)
    | Writing(input: Input, before: Native, image: string)
    | Verifying(input: Input, before: Native, image: string, outcome: Outcome)
    | Ended(input: Input, report: Report)

  predicate Active(p: Phase) {
    !p.Ended?
  }

  /** Which devices are in flight, the requests so far, and how often each has called the native write. */
  datatype State = State(inFlight: set<string>, requests: seq<Phase>, writes: multiset<nat>)

  const INITIAL := State({}, [], multiset{})

  datatype Event =
    | Submit(input: Input)
    | PreflightFails(r: nat)
    | PreflightReads(r: nat, before: Native, image: Option<string>)
    | RecheckFails(r: nat)
    | Recheck(r: nat, current: Native)
    | WriteSettles(r: nat, reply: Reply)
    | ReadbackFails(r: nat)
    | Readback(r: nat, after: Native, image: Option<string>)

  predicate Enabled(s: State, e: Event) {
    if e.Submit? then ValidInput(e.input)
    else
      e.r < |s.requests| &&
      var p := s.requests[e.r];
      match e
      case Submit(_) => true
      case PreflightFails(_) => p.Preflight?
      case PreflightReads(_, before, _) => p.Preflight? && IsDevice(before)
      case RecheckFails(_) => p.Rechecking?
      case Recheck(_, current) => p.Rechecking? && IsDevice(current)
      case WriteSettles(_, _) => p.Writing?
      case ReadbackFails(_) => p.Verifying?
      case Readback(_, after, _) => p.Verifying? && IsDevice(after)
  }

  /** The request ends, and its device is free again. */
  function End(s: State, r: nat, report: Report): State
    requires r < |s.requests|
  {
    var input := s.requests[r].input;
    State(s.inFlight - {input.key}, s.requests[r := Ended(input, report)], s.writes)
  }

  function Rejection(input: Input): Phase {
    Ended(input, Stopped(RejectedStatus, NotAttempted, None))
  }

  /** Hashes and values that stop a request before it can write. */
  predicate PreflightObjects(input: Input, before: Native, image: Option<string>, tools: Tools)
    requires IsDevice(before)
  {
    || (input.expectedFingerprint.Some? && input.expectedFingerprint.value != tools.fingerprint(before))
    || (input.reinserting &&
        (|| image.None?
         || (exists k :: k in Custom(before) && k !in input.requested && !Custom(before)[k].Text?)
         || (input.expectedThumbnail.Some? && input.expectedThumbnail != image)))
  }

  predicate PlanChanges(before: Native, requested: Request)
    requires IsDevice(before)
  {
    Planned(before, requested) != DeviceMetadataOf(before)
  }

  function UnchangedReport(before: Native, image: Option<string>): Report {
    Report(Unchanged, NotAttempted, Some(before), Some(before), image, image)
  }

  function AfterPreflight(s: State, r: nat, before: Native, image: Option<string>, tools: Tools): State
    requires r < |s.requests| && IsDevice(before)
  {
    var input := s.requests[r].input;
    if PreflightObjects(input, before, image, tools) then End(s, r, Stopped(RejectedStatus, NotAttempted, Some(before)))
    else if !input.apply then End(s, r, Stopped(Preview, NotAttempted, Some(before)))
    else if !PlanChanges(before, input.requested) then End(s, r, UnchangedReport(before, image))
    else s.(requests := s.requests[r := Rechecking(input, before, if image.Some? then image.value else "")])
  }

  function OutcomeOf(reply: Reply): Outcome {
    match reply
    case SaysTrue => Acknowledged
    case SaysFalse => Declined
    case SaysOther => Unknown
  }

  /** The verdict on the fresh record; without the saved image it stays uncertain. */
  function Verdict(p: Phase, after: Native, image: Option<string>, tools: Tools): Status
    requires p.Verifying? && IsDevice(p.before) && IsDevice(after)
  {
    if p.input.reinserting && image.None? then Uncertain
    else if Verified(p.before, after, p.input.requested, p.input.reinserting, image == Some(p.image), tools.assets)
    then VerifiedStatus
    else if p.outcome == Unknown then Uncertain
    else VerificationFailed
  }

  function FinalReport(p: Phase, after: Native, image: Option<string>, tools: Tools): Report
    requires p.Verifying? && IsDevice(p.before) && IsDevice(after)
  {
    Report(Verdict(p, after, image, tools), p.outcome, Some(p.before), Some(after), Some(p.image), image)
  }

  /**
   * From the last check on, the record before is a device, the request one that may write, and both hashes that it
   * brought from the preview are those of the record and of its thumbnail.
   */
  predicate Grounded(p: Phase, tools: Tools) {
    && ValidInput(p.input)
    && (p.Preflight? && p.input.apply ==> p.input.reinserting)
    && (p.Rechecking? || p.Writing? || p.Verifying? ==>
          IsDevice(p.before) && p.input.apply && p.input.reinserting && HashesMatch(p, tools))
  }

  predicate HashesMatch(p: Phase, tools: Tools)
    requires p.Rechecking? || p.Writing? || p.Verifying?
  {
    p.input.expectedFingerprint == Some(tools.fingerprint(p.before)) && p.input.expectedThumbnail == Some(p.image)
  }

  predicate AllGrounded(s: State, tools: Tools) {
    forall r :: 0 <= r < |s.requests| ==> Grounded(s.requests[r], tools)
  }

  function Step(s: State, e: Event, tools: Tools): State
    requires AllGrounded(s, tools) && Enabled(s, e)
  {
    match e
    case Submit(input) =>
      if (input.apply && !input.reinserting) || input.key in s.inFlight
      then s.(requests := s.requests + [Rejection(input)])
      else State(s.inFlight + {input.key}, s.requests + [Preflight(input)], s.writes)
    case PreflightFails(r) => End(s, r, Stopped(RejectedStatus, NotAttempted, None))
    case PreflightReads(r, before, image) => AfterPreflight(s, r, before, image, tools)
    case RecheckFails(r) => End(s, r, Stopped(RejectedStatus, NotAttempted, Some(s.requests[r].before)))
    case Recheck(r, current) =>
      var Rechecking(input, before, image) := s.requests[r];
      if current != before then End(s, r, Stopped(RejectedStatus, NotAttempted, Some(before)))
      else s.(requests := s.requests[r := Writing(input, before, image)], writes := s.writes + multiset{r})
    case WriteSettles(r, reply) =>
      var Writing(input, before, image) := s.requests[r];
      s.(requests := s.requests[r := Verifying(input, before, image, OutcomeOf(reply))])
    case ReadbackFails(r) =>
      var p := s.requests[r];
      End(s, r, Stopped(Uncertain, p.outcome, Some(p.before)))
    case Readback(r, after, image) =>
      var p := s.requests[r];
      End(s, r, FinalReport(p, after, image, tools))
  }

  // ---------- What every interleaving keeps ----------

  ghost predicate Invariant(s: State, tools: Tools) {
    && AllGrounded(s, tools)
    && (forall key :: key in s.inFlight <==> exists r :: ActiveOn(s.requests, r, key))
    && (forall q, r, key :: ActiveOn(s.requests, q, key) && ActiveOn(s.requests, r, key) ==> q == r)
    && (forall r {:trigger s.writes[r]} :: s.writes[r] <= WritesAllowed(s.requests, r))
  }

  predicate ActiveOn(requests: seq<Phase>, r: nat, key: string) {
    r < |requests| && Active(requests[r]) && requests[r].input.key == key
  }

  /** One write, and only from the last check on; a rejected request has made none. */
  function WritesAllowed(requests: seq<Phase>, r: nat): nat {
    if r < |requests| && (requests[r].Writing? || requests[r].Verifying? ||
      (requests[r].Ended? && !Harmless(requests[r].report.status)))
    then 1 else 0
  }

  predicate Harmless(status: Status) {
    status.Preview? || status.Unchanged? || status.RejectedStatus?
  }

  lemma EndKeeps(s: State, r: nat, report: Report, tools: Tools)
    requires Invariant(s, tools) && r < |s.requests| && Active(s.requests[r])
    requires Harmless(report.status) ==> s.writes[r] == 0
    ensures Invariant(End(s, r, report), tools)
  {
    hide IsDevice;
    var p, t := s.requests[r], End(s, r, report);
    assert Grounded(p, tools) && Grounded(t.requests[r], tools);
    forall q, key ensures ActiveOn(t.requests, q, key) <==> q != r && ActiveOn(s.requests, q, key) {
    }
    forall key ensures key in t.inFlight <==> exists q :: ActiveOn(t.requests, q, key) {
      assert ActiveOn(s.requests, r, p.input.key);
      if key in t.inFlight {
        var q :| ActiveOn(s.requests, q, key);
        assert ActiveOn(t.requests, q, key);
      }
    }
    forall q ensures t.writes[q] <= WritesAllowed(t.requests, q) {
      assert q != r ==> WritesAllowed(t.requests, q) == WritesAllowed(s.requests, q);
      assert s.writes[r] <= WritesAllowed(s.requests, r);
    }
  }

  /** A request goes on to a later phase, with or without the one write. */
  lemma MovesKeeps(s: State, r: nat, p: Phase, writes: multiset<nat>, tools: Tools)
    requires Invariant(s, tools) && r < |s.requests| && Active(s.requests[r]) && Active(p)
    requires p.input == s.requests[r].input && Grounded(p, tools)
    requires forall q :: q != r ==> writes[q] == s.writes[q]
    requires writes[r] <= if p.Writing? || p.Verifying? then 1 else 0
    ensures Invariant(s.(requests := s.requests[r := p], writes := writes), tools)
  {
    hide IsDevice, Grounded;
    var t := s.(requests := s.requests[r := p], writes := writes);
    forall q, key ensures ActiveOn(t.requests, q, key) <==> ActiveOn(s.requests, q, key) {
    }
    forall q ensures t.writes[q] <= WritesAllowed(t.requests, q) {
      assert q != r ==> WritesAllowed(t.requests, q) == WritesAllowed(s.requests, q);
    }
  }

  lemma SubmitKeeps(s: State, input: Input, tools: Tools)
    requires Invariant(s, tools) && ValidInput(input)
    ensures Invariant(Step(s, Submit(input), tools), tools)
  {
    hide IsDevice;
    var t, n := Step(s, Submit(input), tools), |s.requests|;
    forall q: nat, key ensures ActiveOn(t.requests, q, key) <==>
      ActiveOn(s.requests, q, key) || (q == n && Active(t.requests[n]) && key == input.key)
    {
    }
    forall key ensures key in t.inFlight <==> exists q :: ActiveOn(t.requests, q, key) {
      if key in s.inFlight {
        var q :| ActiveOn(s.requests, q, key);
        assert ActiveOn(t.requests, q, key);
      } else if key in t.inFlight {
        assert ActiveOn(t.requests, n, key);
      }
    }
    forall q: nat ensures t.writes[q] <= WritesAllowed(t.requests, q) {
      assert q < n ==> t.requests[q] == s.requests[q];
      assert s.writes[q] <= WritesAllowed(s.requests, q);
    }
  }

  lemma StepKeepsInvariant(s: State, e: Event, tools: Tools)
    requires Invariant(s, tools) && Enabled(s, e)
    ensures Invariant(Step(s, e, tools), tools)
  {
    hide IsDevice, ValidInput, PreflightObjects, PlanChanges, Verdict, ActiveOn;
    match e
    case Submit(input) => SubmitKeeps(s, input, tools);
    case PreflightReads(r, before, image) => PreflightKeeps(s, r, before, image, tools);
    case Recheck(r, current) => RecheckKeeps(s, r, current, tools);
    case WriteSettles(r, reply) => SettlingKeeps(s, r, reply, tools);
    case Readback(r, after, image) =>
      assert Grounded(s.requests[r], tools);
      VerdictIsNotHarmless(s.requests[r], after, image, tools);
      var p := s.requests[r];
      EndKeeps(s, r, FinalReport(p, after, image, tools), tools);
    case ReadbackFails(r) =>
      EndKeeps(s, r, Stopped(Uncertain, s.requests[r].outcome, Some(s.requests[r].before)), tools);
    case PreflightFails(r) =>
      assert s.writes[r] <= WritesAllowed(s.requests, r);
      EndKeeps(s, r, Stopped(RejectedStatus, NotAttempted, None), tools);
    case RecheckFails(r) =>
      assert s.writes[r] <= WritesAllowed(s.requests, r);
      EndKeeps(s, r, Stopped(RejectedStatus, NotAttempted, Some(s.requests[r].before)), tools);
  }

  lemma VerdictIsNotHarmless(p: Phase, after: Native, image: Option<string>, tools: Tools)
    requires p.Verifying? && IsDevice(p.before) && IsDevice(after)
    ensures !Harmless(Verdict(p, after, image, tools))
  {
  }

  lemma PreflightKeeps(s: State, r: nat, before: Native, image: Option<string>, tools: Tools)
    requires Invariant(s, tools) && Enabled(s, PreflightReads(r, before, image))
    ensures Invariant(AfterPreflight(s, r, before, image, tools), tools)
  {
    hide IsDevice, ValidInput, PreflightObjects, PlanChanges, ActiveOn;
    assert s.writes[r] <= WritesAllowed(s.requests, r);
    var input := s.requests[r].input;
    AppliedReinserts(s, r, tools);
    EndKeeps(s, r, Stopped(RejectedStatus, NotAttempted, Some(before)), tools);
    EndKeeps(s, r, Stopped(Preview, NotAttempted, Some(before)), tools);
    EndKeeps(s, r, UnchangedReport(before, image), tools);
    if input.apply && !PreflightObjects(input, before, image, tools) {
      PreflightMatches(input, before, image, tools);
      MovesKeeps(s, r, Rechecking(input, before, if image.Some? then image.value else ""), s.writes, tools);
    }
  }

  /** A preflight that lets a writing request through has found both hashes of the preview. */
  lemma PreflightMatches(input: Input, before: Native, image: Option<string>, tools: Tools)
    requires ValidInput(input) && input.apply && input.reinserting && IsDevice(before)
    requires !PreflightObjects(input, before, image, tools)
    ensures image.Some? && input.expectedThumbnail == image
    ensures input.expectedFingerprint == Some(tools.fingerprint(before))
  {
    hide IsDevice;
  }

  /** Requests to apply without reinsertion never get past submission. */
  lemma AppliedReinserts(s: State, r: nat, tools: Tools)
    requires Invariant(s, tools) && r < |s.requests| && s.requests[r].Preflight?
    ensures Grounded(s.requests[r], tools) && (s.requests[r].input.apply ==> s.requests[r].input.reinserting)
  {
  }

  lemma RecheckKeeps(s: State, r: nat, current: Native, tools: Tools)
    requires Invariant(s, tools) && Enabled(s, Recheck(r, current))
    ensures Invariant(Step(s, Recheck(r, current), tools), tools)
  {
    hide IsDevice, ValidInput, ActiveOn;
    assert s.writes[r] <= WritesAllowed(s.requests, r);
    assert Grounded(s.requests[r], tools);
    var Rechecking(input, before, image) := s.requests[r];
    EndKeeps(s, r, Stopped(RejectedStatus, NotAttempted, Some(before)), tools);
    MovesKeeps(s, r, Writing(input, before, image), s.writes + multiset{r}, tools);
  }

  lemma SettlingKeeps(s: State, r: nat, reply: Reply, tools: Tools)
    requires Invariant(s, tools) && Enabled(s, WriteSettles(r, reply))
    ensures Invariant(Step(s, WriteSettles(r, reply), tools), tools)
  {
    hide IsDevice, ValidInput, ActiveOn;
    assert s.writes[r] <= WritesAllowed(s.requests, r);
    assert Grounded(s.requests[r], tools);
    var Writing(input, before, image) := s.requests[r];
    MovesKeeps(s, r, Verifying(input, before, image, OutcomeOf(reply)), s.writes, tools);
  }

  // ---------- Whole histories ----------

  ghost predicate Follows(s: State, e: Event, t: State, tools: Tools) {
    AllGrounded(s, tools) && Enabled(s, e) && t == Step(s, e, tools)
  }

  ghost predicate History(trace: seq<State>, events: seq<Event>, tools: Tools) {
    && |trace| == |events| + 1 && trace[0] == INITIAL
    && forall i {:trigger events[i]} :: 0 <= i < |events| ==> Follows(trace[i], events[i], trace[i + 1], tools)
  }

  lemma {:induction false} HistoryKeepsInvariant(trace: seq<State>, events: seq<Event>, tools: Tools, n: nat)
    requires History(trace, events, tools) && n < |trace|
    ensures Invariant(trace[n], tools)
  {
    hide Invariant, Step, Enabled, AllGrounded;
    if n == 0 {
      InitialInvariant(tools);
    } else {
      HistoryKeepsInvariant(trace, events, tools, n - 1);
      var e := events[n - 1];
      StepKeepsInvariant(trace[n - 1], e, tools);
    }
  }

  lemma InitialInvariant(tools: Tools)
    ensures Invariant(INITIAL, tools)
  {
  }

  /** In every reachable state, no two active requests work on one device, and none has written twice. */
  lemma NoOverlapNoSecondWrite(trace: seq<State>, events: seq<Event>, tools: Tools, n: nat)
    requires History(trace, events, tools) && n < |trace|
    ensures forall q: nat, r: nat, key :: ActiveOn(trace[n].requests, q, key) && ActiveOn(trace[n].requests, r, key) ==>
      q == r
    ensures forall r: nat {:trigger trace[n].writes[r]} :: trace[n].writes[r] <= 1
  {
    hide ActiveOn;
    HistoryKeepsInvariant(trace, events, tools, n);
    forall r: nat ensures trace[n].writes[r] <= 1 {
      assert trace[n].writes[r] <= WritesAllowed(trace[n].requests, r);
    }
  }

  /**
   * A native write happens only when the record read last equals the one read first, with both hashes of the preview
   * matched, for the first time in its request, and with no other request active on the device.
   */
  lemma WritesOnlyAfterMatchingRead(trace: seq<State>, events: seq<Event>, tools: Tools, n: nat, r: nat)
    requires History(trace, events, tools) && n < |events|
    requires trace[n + 1].writes[r] > trace[n].writes[r]
    ensures r < |trace[n].requests| && trace[n].requests[r].Rechecking?
    ensures var p := trace[n].requests[r];
            && events[n] == Recheck(r, p.before)
            && p.input.expectedFingerprint == Some(tools.fingerprint(p.before))
            && p.input.expectedThumbnail == Some(p.image)
            && trace[n].writes[r] == 0 && trace[n + 1].writes[r] == 1
            && (forall q: nat :: ActiveOn(trace[n].requests, q, p.input.key) ==> q == r)
  {
    hide IsDevice, Verdict, AfterPreflight, ValidInput;
    HistoryKeepsInvariant(trace, events, tools, n);
    var s, e := trace[n], events[n];
    assert Follows(s, e, trace[n + 1], tools);
    PreflightWritesNothing(s, tools);
    assert e.Recheck? && e.r == r;
    assert s.writes[r] <= WritesAllowed(s.requests, r);
    assert Grounded(s.requests[r], tools);
    assert ActiveOn(s.requests, r, s.requests[r].input.key);
  }

  lemma PreflightWritesNothing(s: State, tools: Tools)
    ensures forall r: nat, before, image {:trigger AfterPreflight(s, r, before, image, tools)} ::
      r < |s.requests| && IsDevice(before) ==> AfterPreflight(s, r, before, image, tools).writes == s.writes
  {
  }

  /** A verified request has a fresh record as requested, and the bytes of a reinserted thumbnail are the same. */
  ghost predicate Justified(p: Phase) {
    p.Ended? && p.report.status == VerifiedStatus ==>
      var e := p.report;
      && e.first.Some? && e.saved.Some? && IsDevice(e.first.value) && IsDevice(e.saved.value)
      && LaidOver(e.first.value, e.saved.value, p.input.requested, p.input.reinserting)
      && (p.input.reinserting ==> e.retained.Some? && e.found == e.retained)
  }

  lemma {:induction false} VerifiedIsJustified(trace: seq<State>, events: seq<Event>, tools: Tools, n: nat, r: nat)
    requires History(trace, events, tools) && n < |trace| && r < |trace[n].requests|
    ensures Justified(trace[n].requests[r])
    decreases n
  {
    hide Justified, Invariant, Step, Enabled, AllGrounded;
    assert n > 0 by {
      assert trace[0] == INITIAL;
    }
    var s, e := trace[n - 1], events[n - 1];
    assert Follows(s, e, trace[n], tools);
    if r < |s.requests| {
      VerifiedIsJustified(trace, events, tools, n - 1, r);
    }
    HistoryKeepsInvariant(trace, events, tools, n - 1);
    StepJustifies(s, e, tools, r);
  }

  lemma StepJustifies(s: State, e: Event, tools: Tools, r: nat)
    requires Invariant(s, tools) && Enabled(s, e) && r < |Step(s, e, tools).requests|
    requires r < |s.requests| ==> Justified(s.requests[r])
    ensures Justified(Step(s, e, tools).requests[r])
  {
    hide IsDevice, LaidOver, ActiveOn, PreflightObjects, PlanChanges, Verdict;
    if e.Readback? && e.r == r {
      ReadbackJustifies(s.requests[r], e.after, e.image, tools);
    }
  }

  lemma ReadbackJustifies(p: Phase, after: Native, image: Option<string>, tools: Tools)
    requires p.Verifying? && Grounded(p, tools) && IsDevice(after)
    ensures Justified(Ended(p.input, FinalReport(p, after, image, tools)))
  {
    hide IsDevice, LaidOver, Verified;
    VerifiedMeans(p.before, after, p.input.requested, p.input.reinserting, image == Some(p.image), tools.assets);
  }

  // ---------- What decides how a request goes on ----------

  /** The hashes that the request expects are those found, and a reinserted device has text values only. */
  ghost predicate Acceptable(input: Input, before: Native, image: Option<string>, tools: Tools)
    requires IsDevice(before)
  {
    && (input.expectedFingerprint.Some? ==> tools.fingerprint(before) == input.expectedFingerprint.value)
    && (input.reinserting ==>
          && image.Some?
          && (input.expectedThumbnail.Some? ==> image == input.expectedThumbnail)
          && (forall k :: k !in input.requested && CustomValue(before, k) != Missing ==> CustomValue(before, k).Text?))
  }

  ghost predicate AlreadySo(before: Native, requested: Request)
    requires IsDevice(before)
  {
    forall k :: k in requested ==> CustomValue(before, k) == Native.Text(requested[k])
  }

  /** A request is rejected, previewed or found to change nothing, or else goes on to the last check of the record. */
  lemma PreflightDecides(s: State, r: nat, before: Native, image: Option<string>, tools: Tools)
    requires AllGrounded(s, tools) && Enabled(s, PreflightReads(r, before, image))
    ensures var input, p := s.requests[r].input, Step(s, PreflightReads(r, before, image), tools).requests[r];
            if !Acceptable(input, before, image, tools) then
              p == Ended(input, Report(RejectedStatus, NotAttempted, Some(before), None, None, None))
            else if !input.apply then p == Ended(input, Report(Preview, NotAttempted, Some(before), None, None, None))
            else if AlreadySo(before, input.requested) then
              p == Ended(input, Report(Unchanged, NotAttempted, Some(before), Some(before), image, image))
            else p.Rechecking? && p.input == input && p.before == before && Some(p.image) == image
  {
    hide IsDevice;
    var input := s.requests[r].input;
    ObjectsIffUnacceptable(input, before, image, tools);
    ChangesIffDifferent(before, input.requested);
    assert Grounded(s.requests[r], tools);
  }

  lemma ObjectsIffUnacceptable(input: Input, before: Native, image: Option<string>, tools: Tools)
    requires IsDevice(before)
    ensures PreflightObjects(input, before, image, tools) <==> !Acceptable(input, before, image, tools)
  {
    DeviceLacksNothing(before);
    forall k ensures CustomValue(before, k) == if k in Custom(before) then Custom(before)[k] else Missing {
    }
  }

  lemma ChangesIffDifferent(before: Native, requested: Request)
    requires IsDevice(before)
    ensures PlanChanges(before, requested) <==> !AlreadySo(before, requested)
  {
    hide IsDevice, Planned;
    DeviceLacksNothing(before);
    WantedLacksNothing(before, requested);
    SameByFields(Planned(before, requested).properties, Custom(before));
    forall k ensures Field(Planned(before, requested).properties, k) ==
      if k in requested then Native.Text(requested[k]) else CustomValue(before, k)
    {
      PlannedByKeys(before, requested, k);
    }
    assert forall k :: Field(Custom(before), k) == CustomValue(before, k);
    PlannedDescription(before, requested);
  }

  lemma PlannedDescription(before: Native, requested: Request)
    requires IsDevice(before)
    ensures Planned(before, requested).description == DeviceMetadataOf(before).description
    ensures DeviceMetadataOf(before).properties == Custom(before)
  {
  }

  /**
   * In any run, the fresh record decides: verified exactly if it is the first with the requested properties laid over
   * it and the saved image has the bytes of the one retained; uncertain without an image, or where a write of unknown
   * outcome is not verified; and failed otherwise.
   */
  lemma ReadbackDecides(trace: seq<State>, events: seq<Event>, tools: Tools, n: nat)
    requires History(trace, events, tools) && n < |events| && events[n].Readback?
    ensures var Readback(r, after, image) := events[n];
            && r < |trace[n].requests| && trace[n].requests[r].Verifying? && r < |trace[n + 1].requests|
            && var p := trace[n].requests[r];
               && IsDevice(p.before) && IsDevice(after) && trace[n + 1].requests[r].Ended?
               && var saved := LaidOver(p.before, after, p.input.requested, true) && image == Some(p.image);
                  trace[n + 1].requests[r].report.status ==
                    if image.None? then Uncertain
                    else if saved then VerifiedStatus
                    else if p.outcome == Unknown then Uncertain
                    else VerificationFailed
  {
    hide IsDevice, LaidOver, Verified;
    HistoryKeepsInvariant(trace, events, tools, n);
    assert Follows(trace[n], events[n], trace[n + 1], tools);
    var Readback(r, after, image) := events[n];
    var p := trace[n].requests[r];
    assert Grounded(p, tools);
    VerifiedMeans(p.before, after, p.input.requested, p.input.reinserting, image == Some(p.image), tools.assets);
  }

  /** The event that something thrown amounts to. */
  function Failure(s: State, r: nat): (e: Event)
    requires r < |s.requests| && (s.requests[r].Preflight? || s.requests[r].Rechecking? || s.requests[r].Verifying?)
    ensures Enabled(s, e)
  {
    if s.requests[r].Preflight? then PreflightFails(r)
    else if s.requests[r].Rechecking? then RecheckFails(r)
    else ReadbackFails(r)
  }

  // ---------- The operations object ----------

  class DeviceMetadataOperations {
    const tools: Tools
    var inFlight: set<string>
    var requests: seq<Phase>
    ghost var writes: multiset<nat>

    ghost function Now(): State
      reads this
    {
      State(inFlight, requests, writes)
    }

    constructor (tools: Tools)
      ensures Now() == INITIAL && this.tools == tools
    {
      this.tools, inFlight, requests, writes := tools, {}, [], multiset{};
    }

    method UpdateDeviceMetadata(input: Input) returns (r: nat, started: bool)
      requires Invariant(Now(), tools) && ValidInput(input)
      modifies this
      ensures Now() == old(Step(Now(), Submit(input), tools)) && Invariant(Now(), tools)
      ensures r < |requests| && started == requests[r].Preflight?
    {
      hide Invariant;
      StepKeepsInvariant(Now(), Submit(input), tools);
      r := |requests|;
      if (input.apply && !input.reinserting) || input.key in inFlight {
        requests := requests + [Rejection(input)];
        return r, false;
      }
      inFlight := inFlight + {input.key};
      requests := requests + [Preflight(input)];
      return r, true;
    }

    /** The request is over, whatever happened; the device is free again. */
    method Finish(r: nat, report: Report)
      requires r < |requests|
      modifies this`inFlight, this`requests
      ensures Now() == old(End(Now(), r, report))
    {
      var input := requests[r].input;
      requests := requests[r := Ended(input, report)];
      inFlight := inFlight - {input.key};
    }

    method PreflightRead(r: nat, before: Native, image: Option<string>)
      requires Invariant(Now(), tools) && Enabled(Now(), PreflightReads(r, before, image))
      modifies this`inFlight, this`requests
      ensures Now() == old(Step(Now(), PreflightReads(r, before, image), tools)) && Invariant(Now(), tools)
    {
      hide Invariant;
      StepKeepsInvariant(Now(), PreflightReads(r, before, image), tools);
      var input := requests[r].input;
      if PreflightObjects(input, before, image, tools) {
        Finish(r, Stopped(RejectedStatus, NotAttempted, Some(before)));
      } else if !input.apply {
        Finish(r, Stopped(Preview, NotAttempted, Some(before)));
      } else if !PlanChanges(before, input.requested) {
        Finish(r, UnchangedReport(before, image));
      } else {
        requests := requests[r := Rechecking(input, before, if image.Some? then image.value else "")];
      }
    }

    /** The last read before the write; the two happen without a pause. */
    method ApplyNative(r: nat, current: Native) returns (wrote: bool)
      requires Invariant(Now(), tools) && Enabled(Now(), Recheck(r, current))
      modifies this
      ensures Now() == old(Step(Now(), Recheck(r, current), tools)) && Invariant(Now(), tools)
      ensures wrote <==> current == old(requests)[r].before
    {
      hide Invariant;
      StepKeepsInvariant(Now(), Recheck(r, current), tools);
      var Rechecking(input, before, image) := requests[r];
      if current != before {
        Finish(r, Stopped(RejectedStatus, NotAttempted, Some(before)));
        return false;
      }
      writes := writes + multiset{r};
      requests := requests[r := Writing(input, before, image)];
      return true;
    }

    method NativeReplied(r: nat, reply: Reply)
      requires Invariant(Now(), tools) && Enabled(Now(), WriteSettles(r, reply))
      modifies this`requests
      ensures Now() == old(Step(Now(), WriteSettles(r, reply), tools)) && Invariant(Now(), tools)
      ensures r < |requests| && requests[r].Verifying?
      ensures requests[r].outcome ==
        if reply == SaysTrue then Acknowledged else if reply == SaysFalse then Declined else Unknown
    {
      hide Invariant;
      StepKeepsInvariant(Now(), WriteSettles(r, reply), tools);
      var Writing(input, before, image) := requests[r];
      requests := requests[r := Verifying(input, before, image, OutcomeOf(reply))];
    }

    method VerifyNative(r: nat, after: Native, image: Option<string>) returns (status: Status)
      requires Invariant(Now(), tools) && Enabled(Now(), Readback(r, after, image))
      modifies this`inFlight, this`requests
      ensures r < |requests| && requests[r].Ended? && requests[r].report.status == status && Justified(requests[r])
      ensures Now() == old(Step(Now(), Readback(r, after, image), tools)) && Invariant(Now(), tools)
    {
      hide Invariant, Verified, Justified;
      StepKeepsInvariant(Now(), Readback(r, after, image), tools);
      GroundedRequest(Now(), r);
      var p := requests[r];
      ReadbackJustifies(p, after, image, tools);
      var report := FinalReport(p, after, image, tools);
      Finish(r, report);
      return report.status;
    }

    lemma GroundedRequest(s: State, r: nat)
      requires Invariant(s, tools) && r < |s.requests|
      ensures Grounded(s.requests[r], tools)
    {
    }

    /** Anything thrown on the way ends the request: rejected before the write, uncertain after it. */
    method Threw(r: nat)
      requires Invariant(Now(), tools) && r < |requests|
      requires requests[r].Preflight? || requests[r].Rechecking? || requests[r].Verifying?
      modifies this`inFlight, this`requests
      ensures Now() == old(Step(Now(), Failure(Now(), r), tools)) && Invariant(Now(), tools)
    {
      hide Invariant;
      var p := requests[r];
      if p.Preflight? {
        StepKeepsInvariant(Now(), PreflightFails(r), tools);
        Finish(r, Stopped(RejectedStatus, NotAttempted, None));
      } else if p.Rechecking? {
        StepKeepsInvariant(Now(), RecheckFails(r), tools);
        Finish(r, Stopped(RejectedStatus, NotAttempted, Some(p.before)));
      } else {
        StepKeepsInvariant(Now(), ReadbackFails(r), tools);
        Finish(r, Stopped(Uncertain, p.outcome, Some(p.before)));
      }
    }
  }
}
