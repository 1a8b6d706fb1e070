/** What holds of an Owner over every interleaving of its critical sections. */
module OwnerRuns {
  import opened Prelude
  import opened Owner

  datatype Action =
    | Reserve(chat: Bytes, item: Execution)
    | Release(chat: Bytes, item: Execution)
    | Done(item: Execution)
    | HandoffBegin(id: nat, cancelActive: bool, hasCommands: bool)
    | HandoffEnd(id: nat, closedCommands: bool)
    | IdleCheck(now: int, work: Work, dropped: set<Bytes>)
    | DatabaseLoss
    | Close
    | WaitReturns
    | Enter(isGet: bool, client: Bytes, now: int)
    | LeaveRequest
    | Forget(client: Bytes)
    | Cancel(chat: Bytes, binding: Bytes)

  /** One critical section. A thread releases only what it reserved and finishes
      only after releasing; anything not possible changes nothing. */
  ghost function Step(s: State, a: Action): State {
    match a
    case Reserve(chat, item) =>
      if item.id !in s.threads && CanReserve(s, chat) then AfterReserve(s, chat, item) else s
    case Release(chat, item) =>
      if item.id in s.threads && s.threads[item.id] == Live(chat) then AfterRelease(s, chat, item) else s
    case Done(item) =>
      if item.id in s.threads && s.threads[item.id] == Leaving then AfterDone(s, item) else s
    case HandoffBegin(id, cancelActive, hasCommands) =>
      if id !in s.handoffs then AfterHandoffBegin(s, id, cancelActive, hasCommands) else s
    case HandoffEnd(id, closedCommands) =>
      if id in s.handoffs then AfterHandoffEnd(s, id, s.handoffs[id], closedCommands) else s
    case IdleCheck(now, work, dropped) =>
      if DropsOnlyExpired(s, now, work, dropped) then AfterIdle(s, now, work, dropped) else s
    case DatabaseLoss => AfterDatabaseLoss(s)
    case Close => AfterClose(s)
    case WaitReturns => if s.closed && s.waitGroup == 0 then s.(drained := true) else s
    case Enter(isGet, client, now) => if Admits(s, isGet) then AfterEnter(s, client, now) else s
    case LeaveRequest => s.(clientRequests := s.clientRequests - 1)
    case Forget(client) => s.(clients := s.clients - {client})
    case Cancel(chat, binding) => AfterCancel(s, chat, binding)
  }

  ghost function Run(actions: seq<Action>): State {
    if actions == [] then Start() else Step(Run(actions[..|actions| - 1]), actions[|actions| - 1])
  }

  // ----- Slots and the wait group -----

  ghost function LeavingIds(threads: map<nat, Phase>): set<nat> {
    set id | id in threads && threads[id] == Leaving
  }

  /** A slot is held by exactly one live thread, and the wait group counts the
      slots and the threads past the deletion of theirs. */
  ghost predicate SlotInv(s: State) {
    && |s.running| <= MAX_FOREGROUND_RUNS
    && (forall chat <- s.running :: s.running[chat].id in s.threads && s.threads[s.running[chat].id] == Live(chat))
    && (forall id <- s.threads :: s.threads[id].Live? ==>
          s.threads[id].chat in s.running && s.running[s.threads[id].chat].id == id)
    && s.waitGroup == |s.running| + |LeavingIds(s.threads)|
    && (s.drained ==> s.closed && s.waitGroup == 0)
  }

  lemma ReserveSlots(s: State, chat: Bytes, item: Execution)
    requires SlotInv(s) && item.id !in s.threads && CanReserve(s, chat)
    ensures SlotInv(AfterReserve(s, chat, item))
  {
    assert LeavingIds(AfterReserve(s, chat, item).threads) == LeavingIds(s.threads);
  }

  lemma ReleaseSlots(s: State, chat: Bytes, item: Execution)
    requires SlotInv(s) && item.id in s.threads && s.threads[item.id] == Live(chat)
    ensures SlotInv(AfterRelease(s, chat, item))
  {
    hide Idle, LeavingIds;
    OneMoreLeaving(s.threads, item.id);
    RemovedSize(s.running, chat);
    var left, threads := s.running - {chat}, s.threads[item.id := Leaving];
    forall c <- left ensures left[c].id in threads && threads[left[c].id] == Live(c) {
      assert s.threads[s.running[c].id] == Live(c);
    }
  }

  lemma OneMoreLeaving(threads: map<nat, Phase>, id: nat)
    requires id in threads && threads[id].Live?
    ensures |LeavingIds(threads[id := Leaving])| == |LeavingIds(threads)| + 1
  {
    assert LeavingIds(threads[id := Leaving]) == LeavingIds(threads) + {id} && id !in LeavingIds(threads);
  }

  lemma RemovedSize<K, V>(m: map<K, V>, k: K)
    requires k in m
    ensures |m - {k}| == |m| - 1
  {
    assert (m - {k}).Keys == m.Keys - {k};
  }

  lemma DoneSlots(s: State, item: Execution)
    requires SlotInv(s) && item.id in s.threads && s.threads[item.id] == Leaving
    ensures SlotInv(AfterDone(s, item))
  {
    assert LeavingIds(AfterDone(s, item).threads) == LeavingIds(s.threads) - {item.id};
  }

  ghost predicate SameSlots(s: State, s': State) {
    && s'.running == s.running && s'.threads == s.threads && s'.waitGroup == s.waitGroup
    && s'.drained == s.drained && (s.closed ==> s'.closed)
  }

  lemma HandoffSlots(s: State, id: nat, wasEmpty: bool, cancelActive: bool, flag: bool)
    ensures SameSlots(s, AfterHandoffBegin(s, id, cancelActive, flag))
    ensures SameSlots(s, AfterHandoffEnd(s, id, wasEmpty, flag))
  {
    hide HandoffAnswer, Ids;
  }

  lemma ShutdownSlots(s: State, now: int, work: Work, dropped: set<Bytes>)
    ensures SameSlots(s, AfterIdle(s, now, work, dropped))
    ensures SameSlots(s, AfterDatabaseLoss(s)) && SameSlots(s, AfterClose(s))
  {
    hide Ids, IdleStops;
  }

  lemma CancelSlots(s: State, chat: Bytes, binding: Bytes)
    ensures SameSlots(s, AfterCancel(s, chat, binding))
  {}

  lemma RequestSlots(s: State, client: Bytes, now: int)
    ensures SameSlots(s, AfterEnter(s, client, now))
  {
    hide CurrentClients, ValidClient;
  }

  /** The actions that move neither slots nor threads. */
  lemma SlotsUntouched(s: State, a: Action)
    requires !a.Reserve? && !a.Release? && !a.Done? && !a.WaitReturns?
    ensures SameSlots(s, Step(s, a))
  {
    hide AfterHandoffBegin, AfterHandoffEnd, AfterIdle, AfterDatabaseLoss, AfterClose, AfterEnter, AfterCancel, DropsOnlyExpired, Admits;
    match a
    case HandoffBegin(id, cancelActive, hasCommands) => HandoffSlots(s, id, false, cancelActive, hasCommands);
    case HandoffEnd(id, closedCommands) =>
      if id in s.handoffs { HandoffSlots(s, id, s.handoffs[id], false, closedCommands); }
    case IdleCheck(now, work, dropped) => ShutdownSlots(s, now, work, dropped);
    case DatabaseLoss => ShutdownSlots(s, 0, Work(0, false, None), {});
    case Close => ShutdownSlots(s, 0, Work(0, false, None), {});
    case Enter(isGet, client, now) => RequestSlots(s, client, now);
    case LeaveRequest =>
    case Forget(client) =>
    case Cancel(chat, binding) => CancelSlots(s, chat, binding);
  }

  /** What a step does to its threads. */
  ghost function ThreadsAfter(s: State, a: Action): map<nat, Phase> {
    match a
    case Reserve(chat, item) =>
      if item.id !in s.threads && CanReserve(s, chat) then s.threads[item.id := Live(chat)] else s.threads
    case Release(chat, item) => if item.id in s.threads && s.threads[item.id] == Live(chat) then s.threads[item.id := Leaving] else s.threads
    case Done(item) =>
      if item.id in s.threads && s.threads[item.id] == Leaving then s.threads[item.id := Gone] else s.threads
    case _ => s.threads
  }

  lemma StepThreads(s: State, a: Action)
    ensures Step(s, a).threads == ThreadsAfter(s, a)
  {
    hide CanReserve, Idle;
    if a.Reserve? {
      hide AfterRelease, AfterDone;
    } else if a.Release? {
      ReleaseThread(s, a.chat, a.item);
      hide AfterRelease;
    } else if a.Done? {
      hide AfterRelease;
    } else {
      hide Step;
      AllThreadsUntouched(s, a);
    }
  }

  lemma ReleaseThread(s: State, chat: Bytes, item: Execution)
    ensures var s' := AfterRelease(s, chat, item);
      && s'.threads == s.threads[item.id := Leaving] && s'.closed == s.closed
  {
    hide Idle;
  }

  lemma AllThreadsUntouched(s: State, a: Action)
    requires !a.Reserve? && !a.Release? && !a.Done?
    ensures Step(s, a).threads == s.threads && (s.closed ==> Step(s, a).closed)
  {
    if !a.WaitReturns? {
      hide Step;
      SlotsUntouched(s, a);
    }
  }

  lemma ClosedStays(s: State, a: Action)
    requires s.closed
    ensures Step(s, a).closed && Step(s, a).threads.Keys == s.threads.Keys
  {
    StepThreads(s, a);
    if a.Reserve? || a.Release? || a.Done? || a.WaitReturns? {
      hide Idle;
    } else {
      hide Step;
      SlotsUntouched(s, a);
    }
  }

  lemma StepSlots(s: State, a: Action)
    requires SlotInv(s)
    ensures SlotInv(Step(s, a))
  {
    hide LeavingIds;
    if a.Reserve? || a.Release? || a.Done? || a.WaitReturns? {
      hide AfterReserve, AfterRelease, AfterDone, CanReserve, Idle;
      match a {
        case Reserve(chat, item) =>
          if item.id !in s.threads && CanReserve(s, chat) { ReserveSlots(s, chat, item); }
        case Release(chat, item) =>
          if item.id in s.threads && s.threads[item.id] == Live(chat) { ReleaseSlots(s, chat, item); }
        case Done(item) =>
          if item.id in s.threads && s.threads[item.id] == Leaving { DoneSlots(s, item); }
        case WaitReturns =>
      }
    } else {
      hide Step;
      SlotsUntouched(s, a);
    }
  }

  /** Each release removes the slot of its own execution and no other. */
  lemma ReleaseRemovesOwnSlot(s: State, chat: Bytes, item: Execution)
    requires SlotInv(s) && item.id in s.threads && s.threads[item.id] == Live(chat)
    ensures chat in s.running && s.running[chat].id == item.id
    ensures forall other <- s.running :: other != chat ==>
      other in AfterRelease(s, chat, item).running && AfterRelease(s, chat, item).running[other] == s.running[other]
  {}

  // ----- No shutdown is lost -----

  ghost predicate EmptyHandoffPending(s: State) {
    exists id <- s.handoffs :: s.handoffs[id]
  }

  /** A handoff between its two sections is the only one and keeps stopping
      set; whenever stopping is set and nothing runs, the process has been told
      to stop or a handoff that found nothing running is about to tell it. */
  ghost predicate StopInv(s: State) {
    && (forall i, j :: i in s.handoffs && j in s.handoffs ==> i == j)
    && (s.handoffs != map[] ==> s.stopping)
    && (s.stopping && Idle(s.running) ==> s.stopRequested || EmptyHandoffPending(s))
  }

  /** The actions that neither start nor stop anything. */
  lemma StopUntouched(s: State, a: Action)
    requires a.Done? || a.Close? || a.WaitReturns? || a.Enter? || a.LeaveRequest? || a.Forget? || a.Cancel?
    ensures var s' := Step(s, a);
      s'.running == s.running && s'.stopping == s.stopping && s'.stopRequested == s.stopRequested
      && s'.handoffs == s.handoffs && s'.databaseLost == s.databaseLost
  {
    hide Ids, CurrentClients, Admits, ValidClient;
  }

  lemma ReserveStop(s: State, chat: Bytes, item: Execution)
    requires StopInv(s) && CanReserve(s, chat)
    ensures StopInv(AfterReserve(s, chat, item))
  {
    hide Idle;
  }

  lemma ReleaseStop(s: State, chat: Bytes, item: Execution)
    requires StopInv(s)
    ensures StopInv(AfterRelease(s, chat, item))
  {
    hide Idle;
  }

  lemma HandoffBeginStop(s: State, id: nat, cancelActive: bool, hasCommands: bool)
    requires StopInv(s) && id !in s.handoffs
    ensures StopInv(AfterHandoffBegin(s, id, cancelActive, hasCommands))
  {
    hide Idle, Ids;
    var s' := AfterHandoffBegin(s, id, cancelActive, hasCommands);
    if HandoffAnswer(s, cancelActive, hasCommands).Begun? {
      assert s.handoffs == map[];
      assert s'.handoffs == map[id := Idle(s.running)];
    }
  }

  lemma HandoffEndStop(s: State, id: nat, closedCommands: bool)
    requires StopInv(s) && id in s.handoffs
    ensures StopInv(AfterHandoffEnd(s, id, s.handoffs[id], closedCommands))
    ensures AfterHandoffEnd(s, id, s.handoffs[id], closedCommands).handoffs == map[]
  {
    hide Idle;
    assert (s.handoffs - {id}).Keys == {};
    assert EmptyHandoffPending(s) ==> s.handoffs[id];
  }

  lemma StepStop(s: State, a: Action)
    requires StopInv(s)
    ensures StopInv(Step(s, a))
  {
    hide DropsOnlyExpired, CanReserve, AfterReserve, AfterRelease, AfterHandoffBegin, AfterHandoffEnd, AfterIdle, AfterDatabaseLoss;
    if a.Done? || a.Close? || a.WaitReturns? || a.Enter? || a.LeaveRequest? || a.Forget? || a.Cancel? {
      hide Step;
      StopUntouched(s, a);
    } else {
      match a {
        case Reserve(chat, item) => if CanReserve(s, chat) { ReserveStop(s, chat, item); }
        case Release(chat, item) => ReleaseStop(s, chat, item);
        case HandoffBegin(id, cancelActive, hasCommands) =>
          if id !in s.handoffs { HandoffBeginStop(s, id, cancelActive, hasCommands); }
        case HandoffEnd(id, closedCommands) =>
          if id in s.handoffs { HandoffEndStop(s, id, closedCommands); }
        case IdleCheck(now, work, dropped) => ShutdownStop(s, now, work, dropped);
        case DatabaseLoss => ShutdownStop(s, 0, Work(0, false, None), {});
      }
    }
  }

  lemma ShutdownStop(s: State, now: int, work: Work, dropped: set<Bytes>)
    requires StopInv(s)
    ensures StopInv(AfterIdle(s, now, work, dropped)) && StopInv(AfterDatabaseLoss(s))
  {
    hide IdleStops, Ids, Idle;
  }

  /** No lost shutdown, over all interleavings. */
  lemma {:induction false} NoLostShutdown(actions: seq<Action>)
    ensures var s := Run(actions);
      && SlotInv(s) && StopInv(s)
      && (s.stopping && |s.running| == 0 && s.handoffs == map[] ==> s.stopRequested)
  {
    hide Step;
    if actions == [] {
      StartInv();
    } else {
      var n := |actions| - 1;
      NoLostShutdown(actions[..n]);
      StepSlots(Run(actions[..n]), actions[n]);
      StepStop(Run(actions[..n]), actions[n]);
    }
  }

  lemma StartInv()
    ensures SlotInv(Start()) && StopInv(Start())
  {
    assert LeavingIds(map[]) == {};
  }

  // ----- Draining -----

  lemma DrainedStep(s: State, a: Action)
    requires SlotInv(s) && s.drained
    ensures var s' := Step(s, a);
      s'.drained && s'.threads == s.threads && s'.running == map[]
  {
    AllGone(s);
    if a.Reserve? || a.Release? || a.Done? || a.WaitReturns? {
      hide AfterReserve, AfterRelease, AfterDone;
    } else {
      hide Step, SlotInv;
      SlotsUntouched(s, a);
    }
  }

  /** Once Close has passed its wait, no execution is live, and none ever
      reserves, releases or finishes again, whatever else is called. */
  lemma {:induction false} DrainedForever(actions: seq<Action>, more: seq<Action>)
    requires Run(actions).drained
    ensures var s, s' := Run(actions), Run(actions + more);
      && s'.drained && s'.running == map[] && s'.threads == s.threads
      && (forall id <- s'.threads :: s'.threads[id] == Gone)
  {
    hide Step;
    if more == [] {
      assert actions + more == actions;
      NoLostShutdown(actions);
      AllGone(Run(actions));
    } else {
      var n := |more| - 1;
      var before := actions + more[..n];
      assert (actions + more)[..|actions + more| - 1] == before;
      DrainedForever(actions, more[..n]);
      NoLostShutdown(before);
      DrainedStep(Run(before), more[n]);
    }
  }

  lemma AllGone(s: State)
    requires SlotInv(s) && s.drained
    ensures s.running == map[] && forall id <- s.threads :: s.threads[id] == Gone
  {
    assert |s.running| == 0 && LeavingIds(s.threads) == {};
    assert forall id <- s.threads :: id !in LeavingIds(s.threads);
  }

  // ----- Stopping is permanent, and exactly when -----

  /** Once the process is told to stop, admission is closed; and unless the
      database was lost, nothing runs. */
  ghost predicate Sealed(s: State) {
    s.stopRequested ==> s.stopping
  }

  ghost predicate Quiescent(s: State) {
    && (s.stopRequested && !s.databaseLost ==> Idle(s.running))
    && (EmptyHandoffPending(s) ==> Idle(s.running))
  }

  /** CloseCommands fails although the process has already been told to stop. */
  ghost predicate FailsAfterStop(s: State, a: Action) {
    a.HandoffEnd? && a.id in s.handoffs && !a.closedCommands && s.stopRequested
  }

  /** That failure is the one step that reopens admission. */
  lemma SealBrokenExactly(s: State, a: Action)
    requires StopInv(s) && Sealed(s)
    ensures Sealed(Step(s, a)) <==> !FailsAfterStop(s, a)
  {
    hide DropsOnlyExpired, Idle;
  }

  lemma QuiescentStep(s: State, a: Action)
    requires StopInv(s) && Sealed(s) && Quiescent(s) && !FailsAfterStop(s, a)
    ensures Quiescent(Step(s, a))
  {
    hide DropsOnlyExpired, AfterReserve, AfterRelease, AfterHandoffBegin, AfterHandoffEnd, AfterIdle, AfterDatabaseLoss, Quiescent, StopInv;
    if a.Done? || a.Close? || a.WaitReturns? || a.Enter? || a.LeaveRequest? || a.Forget? || a.Cancel? {
      hide Step;
      StopUntouched(s, a);
      SameQuiescent(s, Step(s, a));
    } else {
      match a {
        case Reserve(chat, item) => if CanReserve(s, chat) { ReserveQuiescent(s, chat, item); }
        case Release(chat, item) => ReleaseQuiescent(s, chat, item);
        case HandoffBegin(id, cancelActive, hasCommands) =>
          if id !in s.handoffs { HandoffBeginQuiescent(s, id, cancelActive, hasCommands); }
        case HandoffEnd(id, closedCommands) =>
          if id in s.handoffs { HandoffEndQuiescent(s, id, closedCommands); }
        case IdleCheck(now, work, dropped) => IdleQuiescent(s, now, work, dropped);
        case DatabaseLoss => LossQuiescent(s);
      }
    }
  }

  lemma SameQuiescent(s: State, s': State)
    requires Quiescent(s)
    requires s'.running == s.running && s'.stopRequested == s.stopRequested
    requires s'.handoffs == s.handoffs && s'.databaseLost == s.databaseLost
    ensures Quiescent(s')
  {
    hide Idle;
  }

  lemma LossQuiescent(s: State)
    requires Quiescent(s)
    ensures Quiescent(AfterDatabaseLoss(s))
  {
    hide Idle, Ids;
  }

  lemma ReserveQuiescent(s: State, chat: Bytes, item: Execution)
    requires StopInv(s) && Sealed(s) && CanReserve(s, chat)
    ensures Quiescent(AfterReserve(s, chat, item))
  {
    hide Idle;
    assert s.handoffs == map[];
  }

  lemma HandoffBeginQuiescent(s: State, id: nat, cancelActive: bool, hasCommands: bool)
    requires StopInv(s) && Quiescent(s) && id !in s.handoffs
    ensures Quiescent(AfterHandoffBegin(s, id, cancelActive, hasCommands))
  {
    hide Idle, Ids;
    if HandoffAnswer(s, cancelActive, hasCommands).Begun? {
      assert s.handoffs == map[];
    }
  }

  lemma HandoffEndQuiescent(s: State, id: nat, closedCommands: bool)
    requires StopInv(s) && Quiescent(s) && id in s.handoffs
    ensures Quiescent(AfterHandoffEnd(s, id, s.handoffs[id], closedCommands))
  {
    hide Idle;
    HandoffEndStop(s, id, closedCommands);
  }

  lemma IdleQuiescent(s: State, now: int, work: Work, dropped: set<Bytes>)
    requires Quiescent(s)
    ensures Quiescent(AfterIdle(s, now, work, dropped))
  {}

  lemma ReleaseQuiescent(s: State, chat: Bytes, item: Execution)
    requires Quiescent(s)
    ensures Quiescent(AfterRelease(s, chat, item))
  {
    RemovedIdle(s.running, chat);
    hide Idle;
  }

  lemma RemovedIdle(running: map<Bytes, Execution>, chat: Bytes)
    ensures Idle(running) ==> Idle(running - {chat})
  {
    if Idle(running) {
      assert running == map[];
      assert running - {chat} == map[];
    }
  }

  ghost predicate NeverFailsAfterStop(actions: seq<Action>) {
    forall k :: 0 <= k < |actions| ==> !FailsAfterStop(Run(actions[..k]), actions[k])
  }

  ghost predicate AlwaysSealed(actions: seq<Action>) {
    forall k :: 0 <= k <= |actions| ==> Sealed(Run(actions[..k]))
  }

  lemma AlwaysSealedSnoc(before: seq<Action>, a: Action)
    ensures AlwaysSealed(before + [a]) <==> AlwaysSealed(before) && Sealed(Run(before + [a]))
  {
    hide Run, Sealed;
    var all := before + [a];
    assert forall k :: 0 <= k <= |before| ==> all[..k] == before[..k];
    assert all[..|all|] == all;
  }

  lemma NeverFailsSnoc(before: seq<Action>, a: Action)
    ensures NeverFailsAfterStop(before + [a]) <==> NeverFailsAfterStop(before) && !FailsAfterStop(Run(before), a)
  {
    hide Run, FailsAfterStop;
    var all := before + [a];
    assert forall k :: 0 <= k <= |before| ==> all[..k] == before[..k];
    assert before[..|before|] == before && all[|before|] == a;
    assert forall k :: 0 <= k < |before| ==> all[k] == before[k];
  }

  /** Over whole runs: admission is closed from every stop request on exactly in
      the runs without that failure. */
  lemma {:induction false} SealedThroughoutExactly(actions: seq<Action>)
    ensures AlwaysSealed(actions) <==> NeverFailsAfterStop(actions)
  {
    if actions == [] {
      StartSealed();
    } else {
      hide Run, Step, FailsAfterStop, Sealed, NeverFailsAfterStop, AlwaysSealed, StopInv, SlotInv;
      var n := |actions| - 1;
      var before := actions[..n];
      assert actions == before + [actions[n]];
      SealedThroughoutExactly(before);
      AlwaysSealedSnoc(before, actions[n]);
      NeverFailsSnoc(before, actions[n]);
      RunSnoc(before, actions[n]);
      if AlwaysSealed(before) {
        LastSealed(before);
        NoLostShutdown(before);
        SealBrokenExactly(Run(before), actions[n]);
      }
    }
  }

  lemma LastSealed(actions: seq<Action>)
    requires AlwaysSealed(actions)
    ensures Sealed(Run(actions))
  {
    hide Run, Sealed;
    assert actions[..|actions|] == actions;
  }

  lemma StartSealed()
    ensures Sealed(Run([])) && Quiescent(Run([]))
  {}

  /** In every run without that failure, once the process is told to stop no
      slot can be reserved and no request other than a GET is admitted, and
      nothing runs unless the database was lost. */
  lemma {:induction false} StoppingIsPermanent(actions: seq<Action>)
    requires NeverFailsAfterStop(actions)
    ensures var s := Run(actions);
      && Sealed(s) && Quiescent(s)
      && (s.stopRequested ==> (forall chat :: !CanReserve(s, chat)) && !Admits(s, false))
      && (s.stopRequested && !s.databaseLost ==> |s.running| == 0)
  {
    hide Run, Step, FailsAfterStop, NeverFailsAfterStop, StopInv, SlotInv, Sealed, Quiescent, CanReserve, Admits;
    if actions == [] {
      StartSealed();
    } else {
      var n := |actions| - 1;
      var before := actions[..n];
      assert actions == before + [actions[n]];
      NeverFailsSnoc(before, actions[n]);
      StoppingIsPermanent(before);
      NoLostShutdown(before);
      RunSnoc(before, actions[n]);
      SealBrokenExactly(Run(before), actions[n]);
      QuiescentStep(Run(before), actions[n]);
    }
    SealedMeans(Run(actions));
  }

  lemma SealedMeans(s: State)
    requires Sealed(s) && Quiescent(s)
    ensures s.stopRequested ==> (forall chat :: !CanReserve(s, chat)) && !Admits(s, false)
    ensures s.stopRequested && !s.databaseLost ==> |s.running| == 0
  {}

  lemma StopRequestedStep(s: State, a: Action)
    requires s.stopRequested
    ensures Step(s, a).stopRequested
  {
    if a.Done? || a.Close? || a.WaitReturns? || a.Enter? || a.LeaveRequest? || a.Forget? || a.Cancel? {
      hide Step;
      StopUntouched(s, a);
    } else {
      hide DropsOnlyExpired, IdleStops, HandoffAnswer, Ids, Idle, CanReserve;
    }
  }

  lemma {:induction false} StopRequestedStays(actions: seq<Action>, more: seq<Action>)
    requires Run(actions).stopRequested
    ensures Run(actions + more).stopRequested
  {
    hide Step;
    if more == [] {
      assert actions + more == actions;
    } else {
      var n := |more| - 1;
      assert (actions + more)[..|actions + more| - 1] == actions + more[..n];
      StopRequestedStays(actions, more[..n]);
      StopRequestedStep(Run(actions + more[..n]), more[n]);
    }
  }

  lemma RunSnoc(actions: seq<Action>, a: Action)
    ensures Run(actions + [a]) == Step(Run(actions), a)
  {
    assert (actions + [a])[..|actions|] == actions;
  }

  /** The failure does happen: cancel a run for a handoff, let it release, then
      fail to close commands. The process has been told to stop, and yet a new
      slot can be reserved. */
  lemma ReservedAfterStop(chat: Bytes, id: nat, handoff: nat)
    requires chat != []
    ensures exists actions :: Run(actions).stopRequested && CanReserve(Run(actions), chat)
  {
    hide Run, Step, CanReserve;
    var item := Execution(id, []);
    var none: seq<Action> := [];
    var one, two := none + [Reserve(chat, item)], none + [Reserve(chat, item)] + [HandoffBegin(handoff, true, false)];
    var three := two + [Release(chat, item)];
    var four := three + [HandoffEnd(handoff, false)];
    EmptyRun();
    RunSnoc(none, Reserve(chat, item));
    RunSnoc(one, HandoffBegin(handoff, true, false));
    RunSnoc(two, Release(chat, item));
    RunSnoc(three, HandoffEnd(handoff, false));
    FailedHandoff(chat, item, handoff);
    assert Run(four).stopRequested && CanReserve(Run(four), chat);
  }

  lemma FailedHandoff(chat: Bytes, item: Execution, handoff: nat)
    requires chat != []
    ensures var s1 := Step(Start(), Reserve(chat, item));
      var s2 := Step(s1, HandoffBegin(handoff, true, false));
      var s3 := Step(s2, Release(chat, item));
      var s4 := Step(s3, HandoffEnd(handoff, false));
      s4.stopRequested && CanReserve(s4, chat)
  {
    hide Ids;
    var s1 := Step(Start(), Reserve(chat, item));
    assert s1 == AfterReserve(Start(), chat, item);
    OneSlot(chat, item);
    var s2 := Step(s1, HandoffBegin(handoff, true, false));
    assert s2 == AfterHandoffBegin(s1, handoff, true, false);
    assert s2.stopping && s2.running == map[chat := item];
    assert map[chat := item] - {chat} == map[];
    var s3 := Step(s2, Release(chat, item));
    assert s3 == AfterRelease(s2, chat, item);
    assert s3.stopRequested && s3.running == map[];
  }

  lemma EmptyRun()
    ensures Run([]) == Start()
  {}

  lemma OneSlot(chat: Bytes, item: Execution)
    ensures !Idle(map[chat := item])
  {
    assert |map[chat := item]| == 1;
  }

  // ----- Stopping that cannot be taken back -----

  /** Stopping with no handoff that could still fail: no slot will be given again. */
  ghost predicate StoppedForGood(s: State) {
    s.stopping && s.handoffs == map[]
  }

  lemma StoppedForGoodStep(s: State, a: Action)
    requires StoppedForGood(s)
    ensures var s' := Step(s, a);
      StoppedForGood(s') && s'.running.Keys <= s.running.Keys && s'.threads.Keys == s.threads.Keys
  {
    if a.Done? || a.Close? || a.WaitReturns? || a.Enter? || a.LeaveRequest? || a.Forget? || a.Cancel? {
      hide Step;
      StopUntouched(s, a);
      if a.Done? {
        DoneKeepsThreads(s, a);
      } else {
        ThreadsUntouched(s, a);
      }
    } else if a.Release? {
      hide Idle;
    } else if a.IdleCheck? || a.DatabaseLoss? {
      hide Step;
      ShutdownStopped(s, a);
    } else {
      hide AfterReserve, AfterHandoffEnd, Ids, Idle;
    }
  }

  lemma ShutdownStopped(s: State, a: Action)
    requires StoppedForGood(s) && (a.IdleCheck? || a.DatabaseLoss?)
    ensures StoppedForGood(Step(s, a)) && Step(s, a).running == s.running && Step(s, a).threads == s.threads
  {
    hide DropsOnlyExpired, AfterIdle, AfterDatabaseLoss, SameSlots;
    match a
    case IdleCheck(now, work, dropped) => IdleKeepsSlots(s, now, work, dropped);
    case DatabaseLoss => LossKeepsSlots(s);
  }

  lemma IdleKeepsSlots(s: State, now: int, work: Work, dropped: set<Bytes>)
    ensures var s' := AfterIdle(s, now, work, dropped);
      && s'.running == s.running && s'.threads == s.threads && s'.handoffs == s.handoffs && (s.stopping ==> s'.stopping)
  {
    hide IdleStops;
  }

  lemma LossKeepsSlots(s: State)
    ensures var s' := AfterDatabaseLoss(s);
      && s'.running == s.running && s'.threads == s.threads && s'.handoffs == s.handoffs && s'.stopping
  {
    hide Ids;
  }

  lemma DoneKeepsThreads(s: State, a: Action)
    requires a.Done?
    ensures Step(s, a).threads.Keys == s.threads.Keys
  {}

  lemma ThreadsUntouched(s: State, a: Action)
    requires a.Close? || a.WaitReturns? || a.Enter? || a.LeaveRequest? || a.Forget? || a.Cancel?
    ensures Step(s, a).threads == s.threads
  {
    hide Ids, CurrentClients, Admits, ValidClient;
  }

  lemma {:induction false} StoppedForGoodStays(actions: seq<Action>, more: seq<Action>)
    requires StoppedForGood(Run(actions))
    ensures var s, s' := Run(actions), Run(actions + more);
      StoppedForGood(s') && s'.running.Keys <= s.running.Keys && s'.threads.Keys == s.threads.Keys
  {
    hide Step, StoppedForGood;
    if more == [] {
      assert actions + more == actions;
    } else {
      var n := |more| - 1;
      assert (actions + more)[..|actions + more| - 1] == actions + more[..n];
      StoppedForGoodStays(actions, more[..n]);
      StoppedForGoodStep(Run(actions + more[..n]), more[n]);
    }
  }

  lemma NothingRuns(s: State)
    requires SlotInv(s)
    ensures Idle(s.running) ==> s.running == map[] && forall id <- s.threads :: !s.threads[id].Live?
  {}

  /** In every run, an idle check that makes the process stop found no execution
      past its reservation and before its release, no request and only clients
      that had expired; and its stop is final, whatever is called later and
      whatever CloseCommands answers: nothing runs, nothing can be reserved, and
      only GET requests are admitted. */
  lemma IdleStopIsFinal(actions: seq<Action>, now: int, work: Work, dropped: set<Bytes>, more: seq<Action>)
    requires var check := IdleCheck(now, work, dropped);
      !Run(actions).stopRequested && Run(actions + [check]).stopRequested
    ensures var s := Run(actions);
      && s.clientRequests <= 0 && AllExpired(s.clients, now)
      && forall id <- s.threads :: !s.threads[id].Live?
    ensures var s' := Run(actions + [IdleCheck(now, work, dropped)] + more);
      && s'.stopRequested && s'.running == map[] && s'.threads.Keys == Run(actions).threads.Keys
      && (forall chat :: !CanReserve(s', chat)) && !Admits(s', false)
  {
    hide DropsOnlyExpired, AllExpired, Idle;
    var check := IdleCheck(now, work, dropped);
    var s, stopped := Run(actions), actions + [check];
    RunSnoc(actions, check);
    NoLostShutdown(actions);
    NothingRuns(s);
    assert s.handoffs == map[] && !s.stopping;
    hide Run, Step, StopInv, SlotInv;
    StopRequestedStays(stopped, more);
    StoppedForGoodStays(stopped, more);
    assert Run(stopped + more).running.Keys == {};
  }
}
