/** What a caller of the Owner gets to see: who is cancelled, when a handoff
    begins, when the idle check stops, and what a client's request prevents. */
module OwnerCalls {
  import opened Prelude
  import opened Owner
  import opened OwnerRuns

  // ----- Who is cancelled -----

  ghost predicate HoldsSlot(s: State, id: nat) {
    id in s.threads && s.threads[id].Live?
  }

  /** What a step does to the set of the cancelled. */
  ghost function CancelledAfter(s: State, a: Action): set<nat> {
    match a
    case Release(chat, item) =>
      if item.id in s.threads && s.threads[item.id] == Live(chat) then s.cancelled + {item.id} else s.cancelled
    case HandoffBegin(id, cancelActive, hasCommands) =>
      if id !in s.handoffs && HandoffAnswer(s, cancelActive, hasCommands).Begun? then s.cancelled + Ids(s.running)
      else s.cancelled
    case DatabaseLoss => s.cancelled + Ids(s.running)
    case Close => s.cancelled + Ids(s.running)
    case Cancel(chat, binding) =>
      if chat in s.running && (binding == [] || binding == s.running[chat].binding) then
        s.cancelled + {s.running[chat].id}
      else s.cancelled
    case _ => s.cancelled
  }

  lemma StepCancelled(s: State, a: Action)
    ensures Step(s, a).cancelled == CancelledAfter(s, a)
  {
    hide Ids, Idle, HandoffAnswer, DropsOnlyExpired, CanReserve, Admits;
    match a
    case Reserve(_, _) => hide AfterReserve; ReserveKeeps(s, a.chat, a.item);
    case Release(_, _) =>
    case Done(_) =>
    case HandoffBegin(_, _, _) =>
    case HandoffEnd(_, _) =>
    case IdleCheck(now, work, dropped) => hide AfterIdle; IdleKeeps(s, now, work, dropped);
    case DatabaseLoss =>
    case Close =>
    case WaitReturns =>
    case Enter(_, client, now) => hide AfterEnter; EnterKeeps(s, client, now);
    case LeaveRequest =>
    case Forget(_) =>
    case Cancel(_, _) =>
  }

  lemma ReserveKeeps(s: State, chat: Bytes, item: Execution)
    ensures AfterReserve(s, chat, item).cancelled == s.cancelled
  {}

  lemma IdleKeeps(s: State, now: int, work: Work, dropped: set<Bytes>)
    ensures AfterIdle(s, now, work, dropped).cancelled == s.cancelled
    ensures AfterIdle(s, now, work, dropped).clients == s.clients - dropped
  {
    hide IdleStops;
  }

  lemma EnterKeeps(s: State, client: Bytes, now: int)
    ensures AfterEnter(s, client, now).cancelled == s.cancelled
  {
    hide CurrentClients, ValidClient;
  }

  lemma CancelledStays(s: State, a: Action)
    ensures s.cancelled <= Step(s, a).cancelled
  {
    hide Step, HandoffAnswer, Ids;
    StepCancelled(s, a);
  }

  lemma {:induction false} CancelledForGood(actions: seq<Action>, more: seq<Action>)
    ensures Run(actions).cancelled <= Run(actions + more).cancelled
  {
    hide Step;
    if more == [] {
      assert actions + more == actions;
    } else {
      var n := |more| - 1;
      assert (actions + more)[..|actions + more| - 1] == actions + more[..n];
      CancelledForGood(actions, more[..n]);
      CancelledStays(Run(actions + more[..n]), more[n]);
    }
  }

  /** A handoff begins exactly when the server is neither closed nor stopping and
      either the caller asked to cancel or nothing runs and no command is live. */
  lemma HandoffBeginsExactly(s: State, id: nat, cancelActive: bool, hasCommands: bool)
    requires !s.stopping && id !in s.handoffs
    ensures var s' := Step(s, HandoffBegin(id, cancelActive, hasCommands));
      && (s'.stopping <==> !s.closed && (cancelActive || (s.running == map[] && !hasCommands)))
      && (!s'.stopping ==> s' == s)
      && (s'.stopping ==> id in s'.handoffs && (s'.handoffs[id] <==> s.running == map[]))
      && s'.stopRequested == s.stopRequested && s'.running == s.running
  {
    hide Ids;
    NoneRuns(s.running);
  }

  lemma NoneRuns(running: map<Bytes, Execution>)
    ensures |running| == 0 <==> running == map[]
  {}

  /** The steps that cancel the execution id of chat. */
  ghost predicate Cancels(s: State, a: Action, id: nat, chat: Bytes)
    requires chat in s.running
  {
    match a
    case Close => true
    case DatabaseLoss => true
    case HandoffBegin(handoff, cancelActive, _) => handoff !in s.handoffs && !s.closed && !s.stopping && cancelActive
    case Cancel(c, binding) => c == chat && (binding == [] || binding == s.running[chat].binding)
    case Release(c, item) => c == chat && item.id == id
    case _ => false
  }

  /** An execution that holds a slot is cancelled by exactly these steps: closing,
      losing the database, a handoff that begins, a cancellation of its conversation
      with its binding or none, and its own release. */
  lemma CancelledExactly(s: State, a: Action, id: nat, chat: Bytes)
    requires SlotInv(s) && id in s.threads && s.threads[id] == Live(chat) && id !in s.cancelled
    ensures chat in s.running && (id in Step(s, a).cancelled <==> Cancels(s, a, id, chat))
  {
    hide LeavingIds, Step, Ids;
    AllInIds(s, id);
    StepCancelled(s, a);
    if a.Cancel? {
      OwnSlot(s, a.chat, id, chat);
    }
    NoneRuns(s.running);
  }

  lemma OwnSlot(s: State, other: Bytes, id: nat, chat: Bytes)
    requires SlotInv(s) && id in s.threads && s.threads[id] == Live(chat)
    ensures other in s.running && s.running[other].id == id ==> other == chat
  {
    hide LeavingIds;
  }

  lemma AllInIds(s: State, id: nat)
    requires SlotInv(s) && HoldsSlot(s, id)
    ensures id in Ids(s.running)
  {
    hide LeavingIds;
  }

  /** Over all interleavings: when Close begins, when the database is lost, and when
      a handoff begins, every execution that holds a slot is cancelled, for good. */
  lemma AllCancelled(actions: seq<Action>, a: Action, more: seq<Action>, id: nat)
    requires HoldsSlot(Run(actions), id)
    requires a.Close? || a.DatabaseLoss?
      || (a.HandoffBegin? && !Run(actions).stopping && Run(actions + [a]).stopping)
    ensures id in Run(actions + [a] + more).cancelled
  {
    hide Run, Step, SlotInv, StopInv;
    NoLostShutdown(actions);
    RunSnoc(actions, a);
    CancelledForGood(actions + [a], more);
    CancelsAll(Run(actions), a, id);
  }

  lemma CancelsAll(s: State, a: Action, id: nat)
    requires SlotInv(s) && HoldsSlot(s, id)
    requires a.Close? || a.DatabaseLoss? || (a.HandoffBegin? && !s.stopping && Step(s, a).stopping)
    ensures id in Step(s, a).cancelled
  {
    AllInIds(s, id);
    hide SlotInv, Ids, Idle;
  }

  /** In every run: once Close has begun every execution there is, or ever was, is
      cancelled; and whatever released its slot is. */
  lemma {:induction false} ClosedMeansCancelled(actions: seq<Action>)
    ensures var s := Run(actions);
      forall id <- s.threads :: s.closed || !s.threads[id].Live? ==> id in s.cancelled
  {
    hide Step, SlotInv, StopInv;
    if actions != [] {
      var n := |actions| - 1;
      ClosedMeansCancelled(actions[..n]);
      NoLostShutdown(actions[..n]);
      var s, s' := Run(actions[..n]), Step(Run(actions[..n]), actions[n]);
      forall id <- s'.threads | s'.closed || !s'.threads[id].Live? ensures id in s'.cancelled {
        ClosedStep(s, actions[n], id);
      }
    }
  }

  lemma ClosedStep(s: State, a: Action, id: nat)
    requires SlotInv(s) && forall i <- s.threads :: s.closed || !s.threads[i].Live? ==> i in s.cancelled
    requires id in Step(s, a).threads && (Step(s, a).closed || !Step(s, a).threads[id].Live?)
    ensures id in Step(s, a).cancelled
  {
    hide Step, SlotInv, Ids, HandoffAnswer;
    StepCancelled(s, a);
    StepThreads(s, a);
    if HoldsSlot(s, id) {
      AllInIds(s, id);
    }
    if !a.Close? && !s.closed {
      ClosesOnly(s, a);
    }
  }

  lemma ClosesOnly(s: State, a: Action)
    requires !s.closed && !a.Close?
    ensures !Step(s, a).closed
  {
    if a.Reserve? || a.Release? || a.Done? || a.WaitReturns? {
      hide Idle, CanReserve;
    } else if a.IdleCheck? || a.Enter? {
      hide IdleStops, DropsOnlyExpired, CurrentClients, ValidClient, Admits;
    } else {
      hide Ids, HandoffAnswer;
    }
  }

  /** Once Close has begun, over every continuation, no execution starts, no slot
      can be reserved and no request is admitted. */
  lemma {:induction false} ClosedForGood(actions: seq<Action>, more: seq<Action>)
    ensures var s := Run(actions + [Close] + more);
      && s.closed && s.threads.Keys == Run(actions).threads.Keys
      && (forall chat :: !CanReserve(s, chat)) && !Admits(s, true) && !Admits(s, false)
  {
    hide Step;
    var closed := actions + [Close];
    if more == [] {
      assert closed + more == closed;
      RunSnoc(actions, Close);
      CloseCloses(Run(actions));
    } else {
      var n := |more| - 1;
      assert (closed + more)[..|closed + more| - 1] == closed + more[..n];
      ClosedForGood(actions, more[..n]);
      ClosedStays(Run(closed + more[..n]), more[n]);
    }
  }

  lemma CloseCloses(s: State)
    ensures Step(s, Close).closed && Step(s, Close).threads == s.threads
  {
    hide Ids;
  }

  // ----- The idle check -----

  /** The idle check stops a server exactly when it is open and not stopping, no
      request is counted, no listener registered, nothing runs, every client was
      last seen more than 45 seconds ago, no command is live, and the other work
      was asked for and is none. */
  lemma IdleStopsExactly(s: State, now: int, work: Work, dropped: set<Bytes>)
    requires DropsOnlyExpired(s, now, work, dropped)
    ensures var s' := Step(s, IdleCheck(now, work, dropped));
      var stops := !s.closed && !s.stopping && s.clientRequests <= 0 && work.listeners == 0 && s.running == map[]
        && (forall id <- s.clients :: now - s.clients[id] > 45_000_000_000)
        && !work.hasCommands && work.keepAlive == Some(false);
      && (s'.stopping && s'.stopRequested <==> stops || (s.stopping && s.stopRequested))
      && (stops ==> s'.clients == map[])
      && (forall id <- s.clients :: now - s.clients[id] <= 45_000_000_000 ==> id in s'.clients && s'.clients[id] == s.clients[id])
  {
    NoneRuns(s.running);
    AllExpiredExactly(s.clients, now);
    hide AllExpired, Expired;
    assert s.clients - s.clients.Keys == map[];
    forall id <- s.clients | now - s.clients[id] <= 45_000_000_000 ensures id !in dropped {
      NotExpired(s.clients[id], now);
    }
  }

  lemma NotExpired(last: int, now: int)
    ensures Expired(last, now) <==> now - last > 45_000_000_000
  {}

  lemma AllExpiredExactly(clients: map<Bytes, int>, now: int)
    ensures AllExpired(clients, now) <==> forall id <- clients :: now - clients[id] > 45_000_000_000
  {}

  // ----- Requests and clients -----

  /** A request is admitted exactly when the server is open and, while it stops,
      only reads. It is counted; and with an id of 1 to 128 bytes without line ends
      and zeros, clients not seen for 45 seconds go and it is recorded, unless 1024
      others are left. */
  lemma EnteredExactly(s: State, isGet: bool, client: Bytes, now: int)
    ensures var s' := Step(s, Enter(isGet, client, now));
      var current := set id | id in s.clients && now - s.clients[id] <= 45_000_000_000;
      if s.closed || (s.stopping && !isGet) then s' == s
      else
        && s'.clientRequests == s.clientRequests + 1
        && if |client| == 0 || |client| > 128 || '\r' as int in client || '\n' as int in client || '\0' as int in client then
             s'.clients == s.clients
           else
             && (forall id <- s'.clients :: id == client || (id in current && s'.clients[id] == s.clients[id]))
             && current <= s'.clients.Keys
             && (|current| < 1024 ==> client in s'.clients && s'.clients[client] == now)
             && (|current| >= 1024 ==> s'.clients.Keys == current)
  {
    var kept := CurrentClients(s.clients, now);
    assert kept.Keys == set id | id in s.clients && now - s.clients[id] <= 45_000_000_000;
  }

  /** The client was seen at now or later. */
  ghost predicate Seen(s: State, client: Bytes, now: int) {
    client in s.clients && s.clients[client] >= now
  }

  /** Nothing in the step happens before now or more than 45 seconds after it, and
      the client does not leave. */
  predicate Within(a: Action, client: Bytes, now: int) {
    match a
    case Enter(_, _, at) => now <= at <= now + 45_000_000_000
    case IdleCheck(at, _, _) => at <= now + 45_000_000_000
    case Forget(other) => other != client
    case _ => true
  }

  lemma SeenStep(s: State, a: Action, client: Bytes, now: int)
    requires Seen(s, client, now) && Within(a, client, now)
    ensures Seen(Step(s, a), client, now)
    ensures a.IdleCheck? ==> Step(s, a).stopRequested == s.stopRequested && Step(s, a).stopping == s.stopping
  {
    if a.Enter? {
      EnteredExactly(s, a.isGet, a.client, a.now);
      hide Step;
      if client !in Step(s, a).clients {
        assert now - s.clients[client] <= 45_000_000_000;
      }
    } else if a.IdleCheck? {
      hide Step;
      SeenIdle(s, client, now, a.now, a.work, a.dropped);
    } else {
      hide Step;
      ClientsKept(s, a, client);
    }
  }

  lemma SeenIdle(s: State, client: Bytes, now: int, at: int, work: Work, dropped: set<Bytes>)
    requires Seen(s, client, now) && at <= now + 45_000_000_000
    ensures var s' := Step(s, IdleCheck(at, work, dropped));
      Seen(s', client, now) && s'.stopRequested == s.stopRequested && s'.stopping == s.stopping
  {
    hide Idle, Expired;
    NotExpired(s.clients[client], at);
  }

  lemma ClientsKept(s: State, a: Action, client: Bytes)
    requires !a.Enter? && !a.IdleCheck? && (a.Forget? ==> a.client != client)
    ensures client in s.clients ==> client in Step(s, a).clients && Step(s, a).clients[client] == s.clients[client]
  {
    if a.Reserve? || a.Release? || a.Done? {
      hide Idle, CanReserve;
    } else {
      hide Ids, HandoffAnswer;
    }
  }

  /** A client that was seen keeps the server for 45 seconds: whatever else happens
      in that time, unless the client leaves, no idle check stops it. */
  lemma {:induction false} ClientKeepsServer(actions: seq<Action>, more: seq<Action>, client: Bytes, now: int,
                                             at: int, work: Work, dropped: set<Bytes>)
    requires Seen(Run(actions), client, now) && at <= now + 45_000_000_000
    requires forall a <- more :: Within(a, client, now)
    ensures Seen(Run(actions + more), client, now)
    ensures var s := Run(actions + more);
      var s' := Run(actions + more + [IdleCheck(at, work, dropped)]);
      s'.stopping == s.stopping && s'.stopRequested == s.stopRequested
  {
    hide Step, Seen, Within;
    var check := IdleCheck(at, work, dropped);
    assert Within(check, client, now) by { CheckWithin(client, now, at, work, dropped); }
    if more == [] {
      assert actions + more == actions;
    } else {
      var n := |more| - 1;
      assert more[n] in more && forall a <- more[..n] :: a in more;
      assert (actions + more)[..|actions + more| - 1] == actions + more[..n];
      ClientKeepsServer(actions, more[..n], client, now, at, work, dropped);
      SeenStep(Run(actions + more[..n]), more[n], client, now);
    }
    RunSnoc(actions + more, check);
    SeenStep(Run(actions + more), check, client, now);
  }

  lemma CheckWithin(client: Bytes, now: int, at: int, work: Work, dropped: set<Bytes>)
    requires at <= now + 45_000_000_000
    ensures Within(IdleCheck(at, work, dropped), client, now)
  {}
}
