// The manager object: its methods change the fields step by step and meet the transitions of BridgeSession
// (manager.ts, lines 646-805, 956-1093, 1180-1206).
module BridgeManagers {
  import opened Options
  import opened Decimals
  import opened BridgeSession

  /** One caller is told: its timer is cleared and its promise settled; the map is not touched. */
  function ToldOne(l: Ledger, id: string, how: Settlement): Ledger {
    Ledger(l.pending, l.timers - {id}, l.settlements + multiset{id}, l.outcomes[id := how])
  }

  lemma SettleNone(l: Ledger, how: Settlement)
    ensures Settle(l, {}, how) == l
  {
    var none: set<string> := {};
    var t := Settle(l, none, how);
    assert t.pending == l.pending && t.timers == l.timers;
    assert multiset(none) == multiset{};
    assert t.settlements == l.settlements && t.outcomes == l.outcomes;
  }

  lemma SettleOneMore(l: Ledger, ids: set<string>, id: string, how: Settlement)
    requires id !in ids
    ensures var t := ToldOne(Settle(l, ids, how), id, how);
            Settle(l, ids + {id}, how) == t.(pending := t.pending - {id})
  {
    var more := ids + {id};
    assert l.pending - more == l.pending - ids - {id} && l.timers - more == l.timers - ids - {id};
    assert multiset(more) == multiset(ids) + multiset{id};
    assert l.outcomes + (map i | i in more :: how) == (l.outcomes + map i | i in ids :: how)[id := how];
    assert l.settlements + multiset(ids) + multiset{id} == l.settlements + multiset(more);
  }

  lemma SettleOne(l: Ledger, id: string, how: Settlement)
    ensures Settle(l, {id}, how) == ToldOne(l, id, how).(pending := l.pending - {id})
  {
    hide Settle;
    SettleNone(l, how);
    SettleOneMore(l, {}, id, how);
    assert {} + {id} == {id};
  }

  lemma AcceptedStep(s: State, socket: Socket, version: Option<string>, currentOpen: bool, serverVersion: string)
    requires !StaleTakeover(s, version, currentOpen, serverVersion)
    ensures Step(s, Handshake(socket, true, version, currentOpen), serverVersion) ==
            Replacing(s, socket).(ws := Some(socket), connection := Connected, extensionVersion := version,
                                  heartbeatTimer := true, staleSweepTimer := true)
  {
  }

  lemma RefusedStep(s: State, socket: Socket, valid: bool, version: Option<string>, currentOpen: bool,
                    serverVersion: string)
    requires !valid || StaleTakeover(s, version, currentOpen, serverVersion)
    ensures Step(s, Handshake(socket, valid, version, currentOpen), serverVersion) ==
      s.(closing := s.closing + {socket})
  {
  }

  lemma ClosedStep(s: State, socket: Socket, serverVersion: string)
    ensures s.ws != Some(socket) ==> Step(s, Closed(socket), serverVersion) == s
    ensures s.ws == Some(socket) ==>
      Step(s, Closed(socket), serverVersion) ==
      State(None, Connecting, None, false, false, s.counter, SettleAll(s.ledger, SocketClosed), s.issued, s.closing)
  {
  }

  lemma SweepStep(s: State, now: int, serverVersion: string)
    ensures Step(s, Sweep(now), serverVersion) ==
      s.(ledger := Settle(s.ledger, ExpiredIds(s.ledger.pending, now), Swept))
  {
  }

  lemma DisconnectStep(s: State, serverVersion: string)
    ensures Step(s, Disconnect, serverVersion) ==
            State(None, Disconnected, None, false, false, s.counter, SettleAll(s.ledger, ShutDown), s.issued,
                  if s.ws.Some? then s.closing + {s.ws.value} else s.closing)
  {
  }

  class BridgeManager {
    const serverVersion: string
    var ws: Option<Socket>
    var state: Connection
    var extensionVersion: Option<string>
    var requestMap: map<string, Pending>
    var timers: set<string>
    var heartbeatTimer: bool
    var staleSweepTimer: bool
    var requestIdCounter: nat

    ghost var issued: map<string, Socket>
    ghost var settlements: multiset<string>
    ghost var outcomes: map<string, Settlement>
    ghost var closing: set<Socket>

    ghost function Book(): Ledger
      reads this
    {
      Ledger(requestMap, timers, settlements, outcomes)
    }

    ghost function Now(): State
      reads this
    {
      State(ws, state, extensionVersion, heartbeatTimer, staleSweepTimer, requestIdCounter, Book(), issued, closing)
    }

    ghost predicate Valid()
      reads this
    {
      Invariant(Now())
    }

    constructor (serverVersion: string)
      ensures Valid() && Now() == INITIAL && this.serverVersion == serverVersion
    {
      this.serverVersion := serverVersion;
      ws, state, extensionVersion, requestMap, timers := None, Disconnected, None, map[], {};
      heartbeatTimer, staleSweepTimer, requestIdCounter := false, false, 0;
      issued, settlements, outcomes, closing := map[], multiset{}, map[], {};
      new;
      InitialInvariant();
    }

    /** Sends a request, unless there is no session. */
    method Call(timeoutMs: int, now: int) returns (id: Option<string>)
      requires Valid()
      modifies this
      ensures Valid() && Now() == old(Step(Now(), BridgeSession.Call(timeoutMs, now), serverVersion))
      ensures id.Some? <==> old(state) == Connected
      ensures id.Some? ==>
        requestIdCounter == old(requestIdCounter) + 1 && id.value == "req_" + Decimal(requestIdCounter)
      ensures id.Some? ==>
        id.value !in old(issued) && requestMap == old(requestMap)[id.value := Pending(now, timeoutMs)]
    {
      hide IdsBelow, Accounted, SentOnCurrent;
      StepKeepsInvariant(Now(), BridgeSession.Call(timeoutMs, now), serverVersion);
      InvariantFreshId(Now());
      if state != Connected || ws.None? {
        return None;
      }
      requestIdCounter := requestIdCounter + 1;
      var requestId := RequestId(requestIdCounter);
      timers := timers + {requestId};
      requestMap := requestMap[requestId := Pending(now, timeoutMs)];
      issued := issued[requestId := ws.value];
      return Some(requestId);
    }

    method Tell(id: string, how: Settlement)
      modifies this`timers, this`settlements, this`outcomes
      ensures Book() == old(ToldOne(Book(), id, how))
    {
      timers := timers - {id};
      settlements := settlements + multiset{id};
      outcomes := outcomes[id := how];
    }

    method TimedOut(id: string)
      requires Valid() && id in timers
      modifies this
      ensures Valid() && Now() == old(Step(Now(), TimerFires(id), serverVersion))
    {
      hide Invariant, Settle;
      StepKeepsInvariant(Now(), TimerFires(id), serverVersion);
      SettleOne(Book(), id, Settlement.TimedOut);
      requestMap := requestMap - {id};
      Tell(id, Settlement.TimedOut);
    }

    method HandleResponse(sender: Socket, id: string, ok: bool)
      requires Valid()
      modifies this
      ensures Valid() && Now() == old(Step(Now(), Response(sender, id, ok), serverVersion))
    {
      hide Invariant, Settle;
      StepKeepsInvariant(Now(), Response(sender, id, ok), serverVersion);
      if id !in requestMap {
        return;
      }
      SettleOne(Book(), id, Answered(ok));
      requestMap := requestMap - {id};
      Tell(id, Answered(ok));
    }

    method SweepStale(now: int)
      requires Valid() && staleSweepTimer
      modifies this
      ensures Valid() && Now() == old(Step(Now(), Sweep(now), serverVersion))
      ensures forall id :: id in requestMap <==>
        id in old(requestMap) && now - old(requestMap)[id].startedAt < old(requestMap)[id].timeoutMs
    {
      hide Invariant, Settle, Step;
      StepKeepsInvariant(Now(), Sweep(now), serverVersion);
      SweepStep(Now(), now, serverVersion);
      var ids := requestMap.Keys;
      ghost var done: set<string> := {};
      SettleNone(Book(), Swept);
      while ids != {}
        invariant ids <= requestMap.Keys && Now() == old(Now()).(ledger := Book())
        invariant forall id :: id in ids ==> requestMap[id] == old(requestMap)[id] && id !in done
        invariant done == set id | id in old(requestMap) && id !in ids && Expired(old(requestMap)[id], now)
        invariant requestMap.Keys == old(requestMap).Keys - done
        invariant Book() == Settle(old(Book()), done, Swept)
      {
        var id :| id in ids;
        ids := ids - {id};
        if now - requestMap[id].startedAt >= requestMap[id].timeoutMs {
          SettleOneMore(old(Book()), done, id, Swept);
          done := done + {id};
          Tell(id, Swept);
          requestMap := requestMap - {id};
        }
      }
      assert done == ExpiredIds(old(requestMap), now);
    }

    /** Every pending request is rejected, then the map is emptied. */
    method RejectPending(how: Settlement)
      modifies this`requestMap, this`timers, this`settlements, this`outcomes
      ensures Book() == old(SettleAll(Book(), how)) && requestMap == map[]
    {
      hide Settle;
      var ids := requestMap.Keys;
      ghost var done: set<string> := {};
      ghost var rest := requestMap;
      SettleNone(Book(), how);
      while ids != {}
        invariant ids + done == requestMap.Keys && done !! ids && requestMap == old(requestMap)
        invariant rest.Keys == ids
        invariant Book().(pending := rest) == Settle(old(Book()), done, how)
      {
        var id :| id in ids;
        ids := ids - {id};
        SettleOneMore(old(Book()), done, id, how);
        done := done + {id};
        rest := rest - {id};
        Tell(id, how);
      }
      assert done == old(requestMap).Keys && rest == map[];
      requestMap := map[];
    }

    /** The session of another socket ends before this one's begins. */
    method DropPrevious(socket: Socket)
      modifies this
      ensures Now() ==
        old(Replacing(Now(), socket)).(heartbeatTimer := heartbeatTimer, staleSweepTimer := staleSweepTimer)
      ensures old(ws).Some? && old(ws).value != socket ==> requestMap == map[] && old(ws).value in closing
    {
      hide SettleAll;
      if ws.Some? && ws.value != socket {
        RejectPending(Replaced);
        closing := closing + {ws.value};
        heartbeatTimer, staleSweepTimer := false, false;
      }
    }

    method TakeOver(socket: Socket, version: Option<string>)
      modifies this
      ensures Now() ==
        old(Replacing(Now(), socket)).(ws := Some(socket), connection := Connected, extensionVersion := version,
                                       heartbeatTimer := true, staleSweepTimer := true)
      ensures old(ws).Some? && old(ws).value != socket ==> requestMap == map[] && old(ws).value in closing
    {
      hide Replacing;
      DropPrevious(socket);
      ws, state, extensionVersion := Some(socket), Connected, version;
      heartbeatTimer, staleSweepTimer := true, true;
    }

    /** A validated handshake takes the session over, unless a stale client would replace an exact-version one. */
    method HandleHandshake(socket: Socket, valid: bool, version: Option<string>,
                           currentOpen: bool) returns (accepted: bool)
      requires Valid()
      modifies this
      ensures Valid() && Now() == old(Step(Now(), Handshake(socket, valid, version, currentOpen), serverVersion))
      ensures var kept := old(ws).Some? && currentOpen && old(extensionVersion) == Some(serverVersion);
              accepted <==> valid && !(kept && version != Some(serverVersion))
      ensures accepted ==> ws == Some(socket) && state == Connected && extensionVersion == version
      ensures accepted && old(ws).Some? && old(ws).value != socket ==> requestMap == map[] && old(ws).value in closing
      ensures !accepted ==> ws == old(ws) && requestMap == old(requestMap) && socket in closing
    {
      hide Invariant, Replacing, Step, ExpiredIds, Issue;
      if !valid || StaleTakeover(Now(), version, currentOpen, serverVersion) {
        RefusedStep(Now(), socket, valid, version, currentOpen, serverVersion);
      } else {
        AcceptedStep(Now(), socket, version, currentOpen, serverVersion);
      }
      StepKeepsInvariant(Now(), Handshake(socket, valid, version, currentOpen), serverVersion);
      if !valid || (ws.Some? && currentOpen && extensionVersion == Some(serverVersion) &&
        version != Some(serverVersion)) {
        closing := closing + {socket};
        return false;
      }
      TakeOver(socket, version);
      return true;
    }

    /** A socket has closed; only that of the current session matters. */
    method SocketClosed(socket: Socket)
      requires Valid()
      modifies this
      ensures Valid() && Now() == old(Step(Now(), Closed(socket), serverVersion))
    {
      hide Invariant, SettleAll, Step, ExpiredIds, Issue;
      ClosedStep(Now(), socket, serverVersion);
      StepKeepsInvariant(Now(), Closed(socket), serverVersion);
      if ws == Some(socket) {
        EndSession(Connecting, Settlement.SocketClosed);
      }
    }

    method EndSession(next: Connection, how: Settlement)
      modifies this
      ensures Now() ==
        State(None, next, None, false, false, requestIdCounter, old(SettleAll(Book(), how)), issued, closing)
      ensures requestIdCounter == old(requestIdCounter) && issued == old(issued) && closing == old(closing)
    {
      hide SettleAll;
      state, heartbeatTimer, staleSweepTimer := next, false, false;
      RejectPending(how);
      ws, extensionVersion := None, None;
    }

    method Disconnect()
      requires Valid()
      modifies this
      ensures Valid() && Now() == old(Step(Now(), BridgeSession.Disconnect, serverVersion))
    {
      hide Invariant, SettleAll, Step, ExpiredIds, Issue;
      DisconnectStep(Now(), serverVersion);
      StepKeepsInvariant(Now(), BridgeSession.Disconnect, serverVersion);
      if ws.Some? {
        closing := closing + {ws.value};
      }
      EndSession(Disconnected, ShutDown);
    }

    method Connect() returns (started: bool)
      requires Valid()
      modifies this`state
      ensures Valid() && Now() == old(Step(Now(), ConnectStarts, serverVersion))
      ensures started <==> old(state) != Connected && old(state) != Connecting
    {
      hide Invariant;
      StepKeepsInvariant(Now(), ConnectStarts, serverVersion);
      if state == Connected || state == Connecting {
        return false;
      }
      state := Connecting;
      return true;
    }

    method ConnectFailed()
      requires Valid()
      modifies this`state
      ensures Valid() && Now() == old(Step(Now(), ConnectFails, serverVersion))
    {
      hide Invariant;
      StepKeepsInvariant(Now(), ConnectFails, serverVersion);
      state := InError;
    }
  }
}
