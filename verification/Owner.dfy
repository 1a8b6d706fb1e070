/** Admission, release and shutdown of an Owner's executions: every critical
    section of the server's mutex that touches them. */
module Owner {
  import opened Prelude

  const MAX_FOREGROUND_RUNS := 2
  const MAX_CLIENTS := 1024
  const CLIENT_LIFETIME := 45_000_000_000

  /** A reserved slot: the identity of its context and what it is bound to. */
  datatype Execution = Execution(id: nat, binding: Bytes)

  /** Where the thread of an execution is: holding its slot, past the deletion
      of its slot but not past the wait group, or finished. */
  datatype Phase = Live(chat: Bytes) | Leaving | Gone

  /** The fields behind the mutex, and the wait group. The last four only observe:
      the threads, handoffs between their two critical sections (with whether
      nothing was running when they began), whether the database was lost, and
      whether Close has passed its wait. */
  datatype State = State(
    running: map<Bytes, Execution>, cancelled: set<nat>, waitGroup: int,
    closed: bool, stopping: bool, stopRequested: bool,
    clientRequests: int, clients: map<Bytes, int>,
    threads: map<nat, Phase>, handoffs: map<nat, bool>, databaseLost: bool, drained: bool)

  ghost function Start(): State {
    State(map[], {}, 0, false, false, false, 0, map[], map[], map[], false, false)
  }

  function Ids(running: map<Bytes, Execution>): set<nat> {
    set chat | chat in running :: running[chat].id
  }

  predicate Idle(running: map<Bytes, Execution>) {
    |running| == 0
  }

  // ----- The critical sections as functions -----

  predicate CanReserve(s: State, chat: Bytes) {
    chat != [] && !s.closed && !s.stopping && chat !in s.running && |s.running| < MAX_FOREGROUND_RUNS
  }

  ghost function AfterReserve(s: State, chat: Bytes, item: Execution): State {
    s.(running := s.running[chat := item], waitGroup := s.waitGroup + 1, threads := s.threads[item.id := Live(chat)])
  }

  ghost function AfterRelease(s: State, chat: Bytes, item: Execution): State {
    var left := s.running - {chat};
    s.(running := left, cancelled := s.cancelled + {item.id},
       stopRequested := s.stopRequested || (s.stopping && Idle(left)),
       threads := s.threads[item.id := Leaving])
  }

  ghost function AfterDone(s: State, item: Execution): State {
    s.(waitGroup := s.waitGroup - 1, threads := s.threads[item.id := Gone])
  }

  ghost function AfterCancel(s: State, chat: Bytes, binding: Bytes): State {
    if chat in s.running && (binding == [] || binding == s.running[chat].binding) then
      s.(cancelled := s.cancelled + {s.running[chat].id})
    else s
  }

  datatype Handoff = OwnerClosed | AlreadyStopping | ActiveRun | Begun(wasEmpty: bool)

  function HandoffAnswer(s: State, cancelActive: bool, hasCommands: bool): Handoff {
    if s.closed then OwnerClosed
    else if s.stopping then AlreadyStopping
    else if (|s.running| != 0 || hasCommands) && !cancelActive then ActiveRun
    else Begun(Idle(s.running))
  }

  ghost function AfterHandoffBegin(s: State, id: nat, cancelActive: bool, hasCommands: bool): State {
    match HandoffAnswer(s, cancelActive, hasCommands)
    case Begun(wasEmpty) =>
      s.(cancelled := s.cancelled + Ids(s.running), stopping := true, handoffs := s.handoffs[id := wasEmpty])
    case _ => s
  }

  /** The second half of a handoff, once CloseCommands has answered. */
  ghost function AfterHandoffEnd(s: State, id: nat, wasEmpty: bool, closedCommands: bool): State {
    var s' := s.(handoffs := s.handoffs - {id});
    if !closedCommands then s'.(stopping := false)
    else if wasEmpty then s'.(stopRequested := true)
    else s'
  }

  predicate Expired(last: int, now: int) {
    now - last > CLIENT_LIFETIME
  }

  /** What the environment answers an idle check: open listeners, live commands,
      and whether other work keeps the Owner (or could not be asked). */
  datatype Work = Work(listeners: nat, hasCommands: bool, keepAlive: Option<bool>)

  predicate IdleBlocked(s: State, work: Work) {
    s.closed || s.stopping || s.clientRequests > 0 || work.listeners > 0 || !Idle(s.running)
  }

  ghost predicate AllExpired(clients: map<Bytes, int>, now: int) {
    forall id <- clients :: Expired(clients[id], now)
  }

  /** The check looks at clients in no fixed order and stops at the first that
      is still there; dropped are the expired ones it met before. */
  ghost predicate DropsOnlyExpired(s: State, now: int, work: Work, dropped: set<Bytes>) {
    && (forall id <- dropped :: id in s.clients && Expired(s.clients[id], now))
    && (IdleBlocked(s, work) ==> dropped == {})
    && (!IdleBlocked(s, work) && AllExpired(s.clients, now) ==> dropped == s.clients.Keys)
  }

  ghost predicate IdleStops(s: State, now: int, work: Work) {
    !IdleBlocked(s, work) && AllExpired(s.clients, now) && !work.hasCommands && work.keepAlive == Some(false)
  }

  ghost function AfterIdle(s: State, now: int, work: Work, dropped: set<Bytes>): State {
    var s' := s.(clients := s.clients - dropped);
    if IdleStops(s, now, work) then s'.(stopping := true, stopRequested := true) else s'
  }

  ghost function AfterDatabaseLoss(s: State): State {
    s.(stopping := true, cancelled := s.cancelled + Ids(s.running), stopRequested := true, databaseLost := true)
  }

  ghost function AfterClose(s: State): State {
    s.(closed := true, cancelled := s.cancelled + Ids(s.running))
  }

  predicate ValidClient(id: Bytes) {
    0 < |id| <= 128 && forall c <- id :: c != 13 && c != 10 && c != 0
  }

  predicate Admits(s: State, isGet: bool) {
    !s.closed && (!s.stopping || isGet)
  }

  ghost function CurrentClients(clients: map<Bytes, int>, now: int): map<Bytes, int> {
    map id | id in clients && !Expired(clients[id], now) :: clients[id]
  }

  ghost function AfterEnter(s: State, id: Bytes, now: int): State {
    var current := CurrentClients(s.clients, now);
    s.(clientRequests := s.clientRequests + 1,
       clients := if !ValidClient(id) then s.clients
                  else if |current| < MAX_CLIENTS then current[id := now] else current)
  }

  // ----- The server -----

  class Server {
    var running: map<Bytes, Execution>
    var cancelled: set<nat>
    var waitGroup: int
    var closed: bool
    var stopping: bool
    var stopRequested: bool
    var clientRequests: int
    var clients: map<Bytes, int>
    ghost var threads: map<nat, Phase>
    ghost var handoffs: map<nat, bool>
    ghost var databaseLost: bool
    ghost var drained: bool

    ghost function View(): State
      reads this
    {
      State(running, cancelled, waitGroup, closed, stopping, stopRequested, clientRequests, clients,
            threads, handoffs, databaseLost, drained)
    }

    constructor ()
      ensures View() == Start()
    {
      running, cancelled, waitGroup := map[], {}, 0;
      closed, stopping, stopRequested := false, false, false;
      clientRequests, clients := 0, map[];
      threads, handoffs, databaseLost, drained := map[], map[], false, false;
    }

    /** id is the identity of the new context. */
    method ReserveContext(chat: Bytes, binding: Bytes, id: nat) returns (item: Option<Execution>)
      modifies this
      ensures item.Some? <==> CanReserve(old(View()), chat)
      ensures item.Some? ==> item.value == Execution(id, binding)
      ensures View() == if item.Some? then AfterReserve(old(View()), chat, item.value) else old(View())
    {
      if chat == [] || closed || stopping || chat in running || |running| >= MAX_FOREGROUND_RUNS {
        return None;
      }
      var execution := Execution(id, binding);
      running := running[chat := execution];
      waitGroup := waitGroup + 1;
      threads := threads[id := Live(chat)];
      return Some(execution);
    }

    method RequestStopLocked()
      modifies this`stopRequested
      ensures stopRequested
    {
      if !stopRequested {
        stopRequested := true;
      }
    }

    /** release up to its unlock. */
    method Release(chat: Bytes, item: Execution)
      modifies this
      ensures View() == AfterRelease(old(View()), chat, item)
    {
      hide Idle;
      cancelled := cancelled + {item.id};
      running := running - {chat};
      if stopping && Idle(running) {
        RequestStopLocked();
      }
      threads := threads[item.id := Leaving];
    }

    /** release after its unlock. */
    method Done(item: Execution)
      modifies this
      ensures View() == AfterDone(old(View()), item)
    {
      waitGroup := waitGroup - 1;
      threads := threads[item.id := Gone];
    }

    method CancelConversation(chat: Bytes, binding: Bytes) returns (requested: bool)
      modifies this
      ensures requested <==> chat in running && (binding == [] || binding == running[chat].binding)
      ensures View() == AfterCancel(old(View()), chat, binding)
    {
      if chat !in running || (binding != [] && binding != running[chat].binding) {
        return false;
      }
      cancelled := cancelled + {running[chat].id};
      return true;
    }

    method CancelAll()
      modifies this`cancelled
      ensures cancelled == old(cancelled) + Ids(running)
    {
      var left := running.Keys;
      while left != {}
        invariant left <= running.Keys
        invariant cancelled == old(cancelled) + (set chat | chat in running && chat !in left :: running[chat].id)
        decreases |left|
      {
        var chat :| chat in left;
        left := left - {chat};
        cancelled := cancelled + {running[chat].id};
      }
    }

    method HandoffBegin(ghost id: nat, cancelActive: bool, hasCommands: bool) returns (answer: Handoff)
      modifies this
      ensures answer == HandoffAnswer(old(View()), cancelActive, hasCommands)
      ensures View() == AfterHandoffBegin(old(View()), id, cancelActive, hasCommands)
    {
      if closed {
        return OwnerClosed;
      }
      if stopping {
        return AlreadyStopping;
      }
      if (|running| != 0 || hasCommands) && !cancelActive {
        return ActiveRun;
      }
      CancelAll();
      stopping := true;
      answer := Begun(Idle(running));
      handoffs := handoffs[id := answer.wasEmpty];
    }

    method HandoffEnd(ghost id: nat, wasEmpty: bool, closedCommands: bool)
      modifies this
      ensures View() == AfterHandoffEnd(old(View()), id, wasEmpty, closedCommands)
    {
      handoffs := handoffs - {id};
      if !closedCommands {
        stopping := false;
        return;
      }
      if wasEmpty {
        RequestStopLocked();
      }
    }

    method TryIdleShutdown(now: int, work: Work) returns (stopped: bool, ghost dropped: set<Bytes>)
      modifies this
      ensures stopped <==> IdleStops(old(View()), now, work)
      ensures DropsOnlyExpired(old(View()), now, work, dropped)
      ensures View() == AfterIdle(old(View()), now, work, dropped)
    {
      hide Expired, AllExpired, Idle;
      dropped := {};
      ghost var s := View();
      if closed || stopping || clientRequests > 0 || work.listeners > 0 || !Idle(running) {
        assert IdleBlocked(s, work);
        assert clients - dropped == clients;
        return false, dropped;
      }
      assert !IdleBlocked(s, work);
      hide IdleBlocked;
      var allExpired;
      allExpired, dropped := DropClientsInAnyOrder(now);
      if !allExpired || work.hasCommands || work.keepAlive != Some(false) {
        return false, dropped;
      }
      stopping := true;
      RequestStopLocked();
      return true, dropped;
    }

    /** The idle check's loop: it gives up at the first client still there. */
    method DropClientsInAnyOrder(now: int) returns (allExpired: bool, ghost dropped: set<Bytes>)
      modifies this`clients
      ensures allExpired <==> AllExpired(old(clients), now)
      ensures forall id <- dropped :: id in old(clients) && Expired(old(clients)[id], now)
      ensures allExpired ==> dropped == old(clients).Keys
      ensures clients == old(clients) - dropped
    {
      hide Expired;
      var left := clients.Keys;
      dropped := {};
      assert clients - dropped == clients;
      while left != {}
        invariant left <= clients.Keys
        invariant clients == old(clients) - dropped && dropped == old(clients).Keys - left
        invariant forall id <- dropped :: id in old(clients) && Expired(old(clients)[id], now)
        decreases |left|
      {
        var id :| id in left;
        if Expired(clients[id], now) {
          left := left - {id};
          clients := clients - {id};
          dropped := dropped + {id};
          assert clients == old(clients) - dropped;
        } else {
          assert id in old(clients) && clients[id] == old(clients)[id];
          return false, dropped;
        }
      }
      return true, dropped;
    }

    method WatchDatabaseOwner()
      modifies this
      ensures View() == AfterDatabaseLoss(old(View()))
    {
      stopping := true;
      CancelAll();
      RequestStopLocked();
      databaseLost := true;
    }

    /** Close up to its unlock. */
    method CloseBegin()
      modifies this
      ensures View() == AfterClose(old(View()))
    {
      closed := true;
      CancelAll();
    }

    method EnterClientRequest(isGet: bool, id: Bytes, now: int) returns (admitted: bool)
      modifies this
      ensures admitted <==> Admits(old(View()), isGet)
      ensures View() == if admitted then AfterEnter(old(View()), id, now) else old(View())
    {
      if closed || (stopping && !isGet) {
        return false;
      }
      clientRequests := clientRequests + 1;
      if |id| > 0 && |id| <= 128 && forall c <- id :: c != 13 && c != 10 && c != 0 {
        DropExpiredClients(now);
        if |clients| < MAX_CLIENTS {
          clients := clients[id := now];
        }
      }
      return true;
    }

    method DropExpiredClients(now: int)
      modifies this`clients
      ensures clients == CurrentClients(old(clients), now)
    {
      var left := clients.Keys;
      while left != {}
        invariant left <= clients.Keys <= old(clients).Keys
        invariant forall id <- clients :: clients[id] == old(clients)[id]
        invariant forall id <- old(clients) :: id in left || (id in clients <==> !Expired(old(clients)[id], now))
        decreases |left|
      {
        var id :| id in left;
        left := left - {id};
        if now - clients[id] > CLIENT_LIFETIME {
          clients := clients - {id};
        }
      }
    }

    method LeaveClientRequest()
      modifies this`clientRequests
      ensures clientRequests == old(clientRequests) - 1
    {
      clientRequests := clientRequests - 1;
    }

    method ForgetClient(id: Bytes)
      modifies this`clients
      ensures clients == old(clients) - {id}
    {
      clients := clients - {id};
    }
  }
}
