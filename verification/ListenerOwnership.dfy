// Acquiring, refreshing and releasing the lock when no other process interferes (listener-ownership.ts, lines 108-222,
// 252-267). Every method is a run of steps of ListenerLock by this instance alone.
module ListenerOwnership {
  import opened Options
  import opened ListenerLock

  datatype Outcome = Acquired | Conflict(owner: Record) | Unclear | Unwritable | OutOfAttempts

  /** The lock path, the clock and the process table that all instances share, and how far each instance has come. */
  class Machine {
    const procs: Processes
    var lock: Lock
    var now: int
    var alive: set<Pid>
    ghost var phases: map<Instance, Phase>

    constructor (procs: Processes, lock: Lock, now: int, alive: set<Pid>, ghost phases: map<Instance, Phase>)
      ensures this.procs == procs && Global() == State(lock, now, alive, phases)
    {
      this.procs, this.lock, this.now, this.alive, this.phases := procs, lock, now, alive, phases;
    }

    ghost function Global(): State
      reads this
    {
      State(lock, now, alive, phases)
    }
  }

  class BridgeListenerOwnership {
    const token: Instance
    const pid: Pid
    const machine: Machine
    var held: bool

    constructor (token: Instance, machine: Machine)
      requires token in machine.phases && machine.phases[token].Idle? && machine.procs(token) in machine.alive
      ensures this.token == token && this.machine == machine && Valid() && !held
    {
      this.token, this.pid, this.machine, held := token, machine.procs(token), machine, false;
    }

    /** The process runs, and the lock is held by this instance exactly as its phase says. */
    ghost predicate Valid()
      reads this, machine
    {
      && pid == machine.procs(token) && Live(machine.Global(), machine.procs, token)
      && held == machine.phases[token].Holding?
    }

    /** The record is written, or the file system refuses. */
    method WriteOwnerRecord(writable: bool) returns (written: bool)
      modifies machine`lock
      ensures written == (writable && old(machine.lock.Present?))
      ensures machine.lock ==
              if written then Present(machine.now, Some(Record(token, pid)), old(machine.lock.regular))
              else old(machine.lock)
    {
      if machine.lock.Absent? || !writable {
        return false;
      }
      machine.lock := Present(machine.now, Some(Record(token, pid)), machine.lock.regular);
      return true;
    }

    /** Makes the directory and writes the record into it; a directory without its record is removed again. */
    method TryAcquireFreshLock(writable: bool) returns (made: bool, failed: bool, ghost steps: seq<Action>)
      requires Valid() && machine.phases[token].Trying?
      modifies this`held, machine`lock, machine`phases
      ensures Valid() && held == made
      ensures Runs(machine.procs, token, old(machine.Global()), steps, machine.Global())
      ensures var attempt := old(machine.phases[token].attempt);
              machine.phases[token] == if made then Holding else if failed then Failed else Looking(attempt)
      ensures machine.lock ==
              if made then Present(machine.now, Some(Record(token, pid)), true) else old(machine.lock)
      ensures made == old(machine.lock.Absent? && writable) && failed == old(machine.lock.Absent? && !writable)
    {
      ghost var before := machine.Global();
      steps := [MakeDirectory];
      machine.phases := Perform(before, machine.procs, token, MakeDirectory).phases;
      if machine.lock.Present? {
        return false, false, steps;
      }
      machine.lock := Present(machine.now, None, true);
      held := true;
      ghost var between := machine.Global();
      made := WriteOwnerRecord(writable);
      ghost var last := if made then WriteRecord else WriteFails;
      if !made {
        held := false;
        machine.lock := Absent;
      }
      machine.phases := Perform(between, machine.procs, token, last).phases;
      assert Runs(machine.procs, token, before, steps, between);
      RunsOn(machine.procs, token, before, steps, between, [last], machine.Global());
      return made, !made, [MakeDirectory, last];
    }

    method ReclaimStaleLock(expected: Option<Token>, mtime: int) returns (reclaimed: bool)
      requires Valid()
      requires machine.phases[token].Reclaiming?
      requires machine.phases[token].expected == expected && machine.phases[token].mtime == mtime
      modifies machine`lock, machine`phases
      ensures machine.Global() == Perform(old(machine.Global()), machine.procs, token, Reclaim)
      ensures var was := old(machine.lock);
              reclaimed <==>
                && was.Present? && was.mtime == mtime
                && (expected.None? ==> was.owner.None? && was.regular)
                && (expected.Some? ==> was.owner.Some? && was.owner.value.token == expected.value)
                && (expected.Some? ==> was.owner.value.pid !in machine.alive)
    {
      machine.phases := machine.phases[token := Retry(machine.phases[token].attempt)];
      if machine.lock.Absent? || !IsStillStale(machine.lock, expected, mtime, machine.alive) {
        return false;
      }
      machine.lock := Absent;
      return true;
    }

    /** Looks at a lock that is there and decides; a stale one is reclaimed. */
    method LookAndReclaim(attempt: nat) returns (verdict: Verdict, ghost steps: seq<Action>)
      requires Valid() && machine.lock.Present? && machine.phases[token] == Looking(attempt)
      modifies machine`lock, machine`phases
      ensures Valid()
      ensures Runs(machine.procs, token, old(machine.Global()), steps, machine.Global())
      ensures verdict == Judge(old(machine.lock), machine.alive, machine.now)
      ensures machine.lock == if verdict.Stale? then Absent else old(machine.lock)
      ensures machine.phases[token] == if verdict.Stale? then Retry(attempt) else Failed
    {
      ghost var before := machine.Global();
      var snapshot := machine.lock;
      machine.phases := machine.phases[token := Deciding(attempt, snapshot)];
      ghost var read := machine.Global();
      verdict := Judge(snapshot, machine.alive, machine.now);
      machine.phases := machine.phases[token := Decision(Deciding(attempt, snapshot), machine.alive, machine.now)];
      ghost var decided := machine.Global();
      steps := [ReadSnapshot, Decide];
      TwoSteps(before, read, decided);
      if verdict.Stale? {
        var _ := ReclaimStaleLock(verdict.expected, snapshot.mtime);
        RunsOn(machine.procs, token, before, steps, decided, [Reclaim], machine.Global());
        steps := steps + [Reclaim];
      }
    }

    lemma OneStep(before: State, action: Action, after: State)
      requires Live(before, machine.procs, token) && CanAct(before, before.phases[token], action)
      requires after == Perform(before, machine.procs, token, action)
      ensures Runs(machine.procs, token, before, [action], after)
    {
    }

    lemma Begun(before: State)
      requires Live(before, machine.procs, token) && before.phases[token].Idle?
      ensures Runs(machine.procs, token, before, [Begin], To(before, token, Trying(0)))
    {
    }

    lemma TwoSteps(before: State, read: State, decided: State)
      requires Live(before, machine.procs, token) && before.phases[token].Looking? && before.lock.Present?
      requires read == Perform(before, machine.procs, token, ReadSnapshot)
      requires decided == Perform(read, machine.procs, token, Decide)
      ensures Runs(machine.procs, token, before, [ReadSnapshot, Decide], decided)
    {
      hide Runs;
      OneStep(before, ReadSnapshot, read);
      OneStep(read, Decide, decided);
      RunsOn(machine.procs, token, before, [ReadSnapshot], read, [Decide], decided);
      assert [ReadSnapshot] + [Decide] == [ReadSnapshot, Decide];
    }

    /**
     * Undisturbed, an absent or stale lock is acquired within the attempts allowed, unless the record cannot be
     * written, when nothing is left behind. A lock of a live owner, or one without an owner that is young or not a
     * directory, stays as it is. All of it is a run of the lock protocol.
     */
    method Acquire(writable: bool) returns (outcome: Outcome, ghost steps: seq<Action>)
      requires Valid() && machine.phases[token].Idle?
      modifies this`held, machine`lock, machine`phases
      ensures Valid() && held == (outcome == Acquired)
      ensures machine.phases[token] == if held then Holding else Failed
      ensures Runs(machine.procs, token, old(machine.Global()), steps, machine.Global())
      ensures var was := old(machine.lock);
              var stale := was.Present? &&
                if was.owner.Some? then was.owner.value.pid !in machine.alive
                else was.regular && machine.now - was.mtime >= 5000;
              && (was.Absent? || stale ==>
                    && outcome == (if writable then Acquired else Unwritable)
                    && machine.lock ==
                       if writable then Present(machine.now, Some(Record(token, pid)), true) else Absent)
              && (was.Present? && !stale ==>
                    machine.lock == was && outcome == if was.owner.Some? then Conflict(was.owner.value) else Unclear)
    {
      hide Runs, Perform;
      var attempt := 0;
      ghost var before := machine.Global();
      machine.phases := machine.phases[token := Trying(0)];
      steps := [Begin];
      Begun(before);
      while attempt < MAX_ACQUIRE_ATTEMPTS
        invariant 0 <= attempt <= 1 && Valid() && machine.phases[token] == Trying(attempt)
        invariant Runs(machine.procs, token, before, steps, machine.Global())
        invariant machine.lock == if attempt == 0 then old(machine.lock) else Absent
        invariant attempt == 1 ==>
          old(machine.lock.Present?) && Judge(old(machine.lock), machine.alive, machine.now).Stale?
      {
        var snapshot := machine.lock;
        ghost var from := machine.Global();
        var made, failed, tried := TryAcquireFreshLock(writable);
        RunsOn(machine.procs, token, before, steps, from, tried, machine.Global());
        steps := steps + tried;
        if made || failed {
          return if made then Acquired else Unwritable, steps;
        }
        from := machine.Global();
        var verdict, looked := LookAndReclaim(attempt);
        RunsOn(machine.procs, token, before, steps, from, looked, machine.Global());
        steps := steps + looked;
        match verdict {
          case OwnedElsewhere => return Conflict(snapshot.owner.value), steps;
          case NotReclaimable => return Unclear, steps;
          case Stale(_) => attempt := attempt + 1;
        }
      }
      return OutOfAttempts, steps;
    }

    /** Refreshing the record of a held lock is a step of the protocol, and otherwise nothing happens. */
    method UpdatePort(writable: bool) returns (written: bool)
      requires Valid()
      modifies machine`lock
      ensures Valid()
      ensures written == (held && writable && old(machine.lock.Present?))
      ensures machine.Global() ==
              if written then Perform(old(machine.Global()), machine.procs, token, ListenerLock.UpdatePort)
              else old(machine.Global())
    {
      if !held {
        return false;
      }
      written := WriteOwnerRecord(writable);
    }

    /** Releasing removes the lock only if it is still this instance's, as the step of the protocol does. */
    method Release()
      requires Valid()
      modifies this`held, machine`lock, machine`phases
      ensures Valid() && !held
      ensures machine.Global() ==
              if old(held) then Perform(old(machine.Global()), machine.procs, token, ListenerLock.Release)
              else old(machine.Global())
      ensures var was := old(machine.lock);
              machine.lock ==
              if old(held) && was.Present? && was.owner.Some? && was.owner.value.token == token then Absent else was
    {
      if !held {
        return;
      }
      if machine.lock.Present? && machine.lock.owner.Some? && machine.lock.owner.value.token == token {
        machine.lock := Absent;
      }
      held := false;
      machine.phases := machine.phases[token := Released];
    }
  }
}
