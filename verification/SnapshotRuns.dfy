/** Owner and event hub together: what a stable snapshot can hide. */
module SnapshotRuns {
  import opened Prelude
  import opened Events
  import opened Snapshot
  import Owner
  import OwnerRuns
  import EventHub
  import HubRuns

  /** The whole server. due only observes: the released executions that have not
      recorded their notice yet, and the conversations they belonged to. */
  datatype Joint = Joint(owner: Owner.State, hub: EventHub.Hub, due: map<nat, Bytes>)

  datatype Action =
    | OnOwner(action: OwnerRuns.Action)
    | OnHub(event: HubRuns.Action)
    | ReleaseNotice(id: nat)

  ghost predicate IsLive(s: Owner.State, id: nat, chat: Bytes) {
    id in s.threads && s.threads[id] == Owner.Live(chat)
  }

  ghost predicate IsReleased(s: Owner.State, id: nat) {
    id in s.threads && !s.threads[id].Live?
  }

  ghost predicate Releases(s: Owner.State, a: OwnerRuns.Action) {
    a.Release? && IsLive(s, a.item.id, a.chat)
  }

  /** release ends with a notice, after the slot is gone and the wait group is
      counted down; the idle check looks at the hub's own listeners. */
  ghost function Step(j: Joint, a: Action): Joint {
    match a
    case OnOwner(o) =>
      if o.IdleCheck? && o.work.listeners != |j.hub.listeners| then j
      else Joint(OwnerRuns.Step(j.owner, o), j.hub, if Releases(j.owner, o) then j.due[o.item.id := o.chat] else j.due)
    case OnHub(e) => j.(hub := HubRuns.Step(j.hub, e))
    case ReleaseNotice(id) =>
      if id in j.due && id in j.owner.threads && j.owner.threads[id] == Owner.Gone then
        j.(hub := HubRuns.Step(j.hub, HubRuns.Notified(Refresh, j.due[id], [])), due := j.due - {id})
      else j
  }

  ghost function Run(j: Joint, actions: seq<Action>): Joint {
    if actions == [] then j else Step(Run(j, actions[..|actions| - 1]), actions[|actions| - 1])
  }

  lemma RunSnoc(j: Joint, actions: seq<Action>, a: Action)
    ensures Run(j, actions + [a]) == Step(Run(j, actions), a)
  {
    assert (actions + [a])[..|actions|] == actions;
  }

  lemma {:induction false} RunConcat(j: Joint, a: seq<Action>, b: seq<Action>)
    ensures Run(j, a + b) == Run(Run(j, a), b)
  {
    hide Step;
    if b == [] {
      assert a + b == a;
    } else {
      var n := |b| - 1;
      assert (a + b)[..|a + b| - 1] == a + b[..n];
      RunConcat(j, a, b[..n]);
    }
  }

  // ----- Both machines keep their invariants -----

  ghost predicate JointInv(j: Joint) {
    HubRuns.HubInv(j.hub) && OwnerRuns.SlotInv(j.owner) && OwnerRuns.StopInv(j.owner)
  }

  ghost function Start(generation: Bytes): Joint {
    Joint(Owner.Start(), HubRuns.Start(generation), map[])
  }

  lemma HubStep(h: EventHub.Hub, e: HubRuns.Action)
    requires HubRuns.HubInv(h)
    ensures HubRuns.HubInv(HubRuns.Step(h, e))
  {
    hide HubRuns.Step, HubRuns.HubInv;
    HubRuns.RunKeeps(h, [e]);
    assert [e][..0] == [];
    assert HubRuns.Run(h, []) == h;
  }

  lemma {:induction false} RunKeeps(j: Joint, actions: seq<Action>)
    requires JointInv(j)
    ensures JointInv(Run(j, actions))
  {
    hide HubRuns.HubInv, OwnerRuns.SlotInv, OwnerRuns.StopInv, OwnerRuns.Step, HubRuns.Step;
    if actions != [] {
      var n := |actions| - 1;
      RunKeeps(j, actions[..n]);
      var mid := Run(j, actions[..n]);
      match actions[n]
      case OnOwner(o) =>
        OwnerRuns.StepSlots(mid.owner, o);
        OwnerRuns.StepStop(mid.owner, o);
      case OnHub(e) => HubStep(mid.hub, e);
      case ReleaseNotice(id) => if id in mid.due { HubStep(mid.hub, HubRuns.Notified(Refresh, mid.due[id], [])); }
    }
  }

  lemma Always(generation: Bytes, actions: seq<Action>)
    ensures JointInv(Run(Start(generation), actions))
  {
    hide Run;
    OwnerRuns.StartInv();
    RunKeeps(Start(generation), actions);
  }

  // ----- Executions only move forward -----

  /** Threads appear only by a reservation, and leave their slot only by their
      own release. */
  lemma ThreadStep(s: Owner.State, a: OwnerRuns.Action, id: nat)
    ensures var s' := OwnerRuns.Step(s, a);
      && (id in s.threads ==> id in s'.threads)
      && (IsReleased(s, id) ==> IsReleased(s', id))
      && (IsReleased(s', id) ==> IsReleased(s, id) || (Releases(s, a) && a.item.id == id))
      && (forall chat :: IsLive(s', id, chat) ==> IsLive(s, id, chat) || (id !in s.threads && Owner.CanReserve(s, chat)))
  {
    hide OwnerRuns.Step, Owner.CanReserve;
    OwnerRuns.StepThreads(s, a);
  }

  lemma {:induction false} ThreadRun(j: Joint, actions: seq<Action>, id: nat)
    requires id in j.owner.threads
    ensures var s := Run(j, actions).owner;
      id in s.threads && forall chat :: IsLive(s, id, chat) ==> IsLive(j.owner, id, chat)
  {
    hide OwnerRuns.Step, HubRuns.Step, IsReleased;
    if actions != [] {
      var n := |actions| - 1;
      ThreadRun(j, actions[..n], id);
      if actions[n].OnOwner? {
        ThreadStep(Run(j, actions[..n]).owner, actions[n].action, id);
      }
    }
  }

  // ----- Only executions whose notice is due can be hidden -----

  lemma OnlyTextPrefix(a: seq<Event>, b: seq<Event>)
    ensures OnlyText(a + b) <==> OnlyText(a) && OnlyText(b)
  {
    assert forall e <- a :: e in a + b;
    assert forall e <- b :: e in a + b;
  }

  lemma NoticeIsNoText(h: EventHub.Hub, chat: Bytes)
    ensures var h' := HubRuns.Step(h, HubRuns.Notified(Refresh, chat, []));
      h.history <= h'.history && !OnlyText(HubRuns.Recent(h, h'))
  {
    hide EventHub.LastOf, EventHub.BroadcastChannels, EventHub.Remaining;
    var h' := HubRuns.Step(h, HubRuns.Notified(Refresh, chat, []));
    assert HubRuns.Recent(h, h')[0] in HubRuns.Recent(h, h');
  }

  ghost predicate AllDue(j: Joint, j': Joint) {
    && (forall id :: IsReleased(j'.owner, id) && !IsReleased(j.owner, id) ==> id in j'.due)
    && (forall id <- j.due :: id in j'.due)
  }

  lemma DueStep(j: Joint, mid: Joint, a: Action)
    requires AllDue(j, mid)
    ensures AllDue(j, Step(mid, a)) || a.ReleaseNotice?
  {
    hide OwnerRuns.Step, HubRuns.Step, IsReleased, Releases;
    if a.OnOwner? {
      forall id | IsReleased(Step(mid, a).owner, id) && !IsReleased(j.owner, id)
        ensures id in Step(mid, a).due
      {
        ThreadStep(mid.owner, a.action, id);
      }
    }
  }

  lemma HubGrows(j: Joint, a: Action)
    ensures j.hub.history <= Step(j, a).hub.history
    ensures OnlyText(HubRuns.Recent(j.hub, Step(j, a).hub)) ==> Step(j, a) == j || !a.ReleaseNotice?
  {
    hide OwnerRuns.Step, HubRuns.Step, HubRuns.Recent, OnlyText;
    match a
    case OnOwner(_) =>
    case OnHub(e) => HubRuns.StepGrows(j.hub, e);
    case ReleaseNotice(id) => if id in j.due { NoticeIsNoText(j.hub, j.due[id]); }
  }

  /** If nothing but text was recorded, every execution released meanwhile is
      still due its notice, and so is every one that was. */
  lemma {:induction false} ReleasedIsDue(j: Joint, actions: seq<Action>)
    ensures var j' := Run(j, actions);
      && j.hub.history <= j'.hub.history
      && (OnlyText(HubRuns.Recent(j.hub, j'.hub)) ==> AllDue(j, j'))
  {
    hide Step, OnlyText, AllDue;
    if actions == [] {
      assert AllDue(j, j) by { NothingNew(j); }
    } else {
      var n := |actions| - 1;
      ReleasedIsDue(j, actions[..n]);
      var mid := Run(j, actions[..n]);
      HubGrows(mid, actions[n]);
      var j' := Step(mid, actions[n]);
      assert HubRuns.Recent(j.hub, j'.hub) == HubRuns.Recent(j.hub, mid.hub) + HubRuns.Recent(mid.hub, j'.hub);
      OnlyTextPrefix(HubRuns.Recent(j.hub, mid.hub), HubRuns.Recent(mid.hub, j'.hub));
      if AllDue(j, mid) {
        DueStep(j, mid, actions[n]);
      }
    }
  }

  lemma NothingNew(j: Joint)
    ensures AllDue(j, j)
  {}

  /** A snapshot attempt whose two sections are at j and j' is stable. */
  ghost predicate StableBetween(j: Joint, j': Joint, chat: Bytes) {
    Stable(Attempt(LookAt(j.hub, j.owner), None, LookAt(j'.hub, j'.owner)), chat)
  }

  /** The joint run as the hub sees it. */
  ghost function HubActions(j: Joint, actions: seq<Action>): seq<HubRuns.Action> {
    if actions == [] then []
    else
      var n := |actions| - 1;
      var mid, earlier := Run(j, actions[..n]), HubActions(j, actions[..n]);
      match actions[n]
      case OnOwner(_) => earlier
      case OnHub(e) => earlier + [e]
      case ReleaseNotice(id) =>
        if id in mid.due && id in mid.owner.threads && mid.owner.threads[id] == Owner.Gone then
          earlier + [HubRuns.Notified(Refresh, mid.due[id], [])]
        else earlier
  }

  lemma {:induction false} HubRunsAlong(j: Joint, actions: seq<Action>)
    ensures Run(j, actions).hub == HubRuns.Run(j.hub, HubActions(j, actions))
  {
    hide OwnerRuns.Step, HubRuns.Step;
    if actions != [] {
      var n := |actions| - 1;
      HubRunsAlong(j, actions[..n]);
      var all, earlier := HubActions(j, actions), HubActions(j, actions[..n]);
      if |all| > |earlier| {
        assert all[..|all| - 1] == earlier;
      }
    }
  }

  /** In every run: a snapshot is stable exactly when the slot is the same at both
      ends and the state numbers cannot tell the histories apart; and one that is
      stable within a generation hides only executions still due their notice. */
  lemma StableHidesOnlyDue(j: Joint, actions: seq<Action>, chat: Bytes)
    requires JointInv(j)
    ensures var j' := Run(j, actions);
      && JointInv(j')
      && (StableBetween(j, j', chat) <==>
            ExecutionOf(j.owner.running, chat) == ExecutionOf(j'.owner.running, chat) && Unchanged(j.hub, j'.hub))
      && (StableBetween(j, j', chat) && j'.hub.base == j.hub.base ==>
            forall id :: IsReleased(j'.owner, id) && !IsReleased(j.owner, id) ==> id in j'.due)
  {
    hide Run, HubRuns.Run, OnlyText, HubRuns.LogInv, HubRuns.SseInv, OwnerRuns.SlotInv, OwnerRuns.StopInv;
    RunKeeps(j, actions);
    HubRunsAlong(j, actions);
    StableExactly(j.hub, HubActions(j, actions), j.owner, Run(j, actions).owner, None, chat);
    ReleasedIsDue(j, actions);
  }

  // ----- When a whole execution can be hidden -----

  /** The execution id of chat reserved its slot and released it between. */
  ghost predicate Executed(j: Joint, actions: seq<Action>, id: nat, chat: Bytes) {
    && id !in j.owner.threads
    && (exists k :: 0 <= k <= |actions| && IsLive(Run(j, actions[..k]).owner, id, chat))
    && IsReleased(Run(j, actions).owner, id)
  }

  /** The conversation is free, and the server neither closed nor stopping beyond recall. */
  ghost predicate MayStillRun(s: Owner.State, chat: Bytes) {
    chat != [] && chat !in s.running && !s.closed && !OwnerRuns.StoppedForGood(s)
  }

  lemma {:induction false} NoNewThreads(j: Joint, actions: seq<Action>)
    requires j.owner.closed || OwnerRuns.StoppedForGood(j.owner)
    ensures var s := Run(j, actions).owner;
      && s.threads.Keys == j.owner.threads.Keys
      && (s.closed || OwnerRuns.StoppedForGood(s))
  {
    hide OwnerRuns.Step, HubRuns.Step, OwnerRuns.StoppedForGood;
    if actions != [] {
      var n := |actions| - 1;
      NoNewThreads(j, actions[..n]);
      var s := Run(j, actions[..n]).owner;
      if actions[n].OnOwner? {
        if s.closed {
          OwnerRuns.ClosedStays(s, actions[n].action);
        } else {
          OwnerRuns.StoppedForGoodStep(s, actions[n].action);
        }
      }
    }
  }

  lemma {:induction false} LiveIsNamed(j: Joint, actions: seq<Action>, id: nat, chat: Bytes)
    requires id !in j.owner.threads && IsLive(Run(j, actions).owner, id, chat)
    ensures chat != []
  {
    hide OwnerRuns.Step, HubRuns.Step, IsReleased;
    var n := |actions| - 1;
    var mid := Run(j, actions[..n]);
    if actions[n].OnOwner? {
      ThreadStep(mid.owner, actions[n].action, id);
    }
    if IsLive(mid.owner, id, chat) {
      LiveIsNamed(j, actions[..n], id, chat);
    }
  }

  /** A slot that was taken at the start cannot have been another's in between
      and be the same at the end. */
  lemma SlotIsNotRegained(j: Joint, actions: seq<Action>, k: nat, id: nat, chat: Bytes)
    requires JointInv(j) && k <= |actions| && id !in j.owner.threads
    requires IsLive(Run(j, actions[..k]).owner, id, chat) && chat in j.owner.running
    ensures ExecutionOf(Run(j, actions).owner.running, chat) != ExecutionOf(j.owner.running, chat)
  {
    hide Run, HubRuns.HubInv, OwnerRuns.StopInv, OwnerRuns.LeavingIds;
    var first := j.owner.running[chat].id;
    assert IsLive(j.owner, first, chat);
    var mid, j' := Run(j, actions[..k]), Run(j, actions);
    RunKeeps(j, actions[..k]);
    RunKeeps(j, actions);
    assert mid.owner.running[chat].id == id;
    assert !IsLive(mid.owner, first, chat);
    assert actions == actions[..k] + actions[k..];
    RunConcat(j, actions[..k], actions[k..]);
    ThreadRun(j, actions[..k], first);
    ThreadRun(mid, actions[k..], first);
  }

  lemma FreshId(used: set<nat>) returns (id: nat)
    ensures id !in used
  {
    id := 0;
    var left := used;
    while left != {}
      invariant left <= used
      invariant forall u <- used :: u in left || u < id
      decreases |left|
    {
      var u :| u in left;
      left := left - {u};
      id := if u < id then id else u + 1;
    }
  }

  /** One owner step can take back a stop that a handoff has not settled. */
  lemma TakeBack(s: Owner.State, chat: Bytes) returns (steps: seq<OwnerRuns.Action>)
    requires MayStillRun(s, chat)
    ensures |steps| <= 1
    ensures var s' := if steps == [] then s else OwnerRuns.Step(s, steps[0]);
      && MayStillRun(s', chat) && !s'.stopping
      && s'.running == s.running && s'.threads == s.threads && !(steps != [] && steps[0].IdleCheck?)
      && (steps != [] ==> !Releases(s, steps[0]))
  {
    steps := [];
    if s.stopping {
      var h :| h in s.handoffs;
      steps := [OwnerRuns.HandoffEnd(h, false)];
    }
  }

  lemma FreeSlot(s: Owner.State, chat: Bytes, other: Bytes)
    requires OwnerRuns.SlotInv(s) && other in s.running && MayStillRun(s, chat) && !s.stopping
    ensures var s' := OwnerRuns.Step(s, OwnerRuns.Release(other, s.running[other]));
      Owner.CanReserve(s', chat) && s'.threads.Keys == s.threads.Keys
  {
    hide OwnerRuns.LeavingIds;
    OwnerRuns.RemovedSize(s.running, other);
  }

  /** The owner can come to give the conversation a slot without recording anything. */
  lemma MakeRoom(j: Joint, chat: Bytes) returns (actions: seq<Action>)
    requires JointInv(j) && MayStillRun(j.owner, chat)
    ensures var j' := Run(j, actions);
      && j'.hub == j.hub && Owner.CanReserve(j'.owner, chat) && j'.owner.threads.Keys == j.owner.threads.Keys
  {
    hide HubRuns.HubInv, OwnerRuns.SlotInv, OwnerRuns.StopInv, HubRuns.Step, OwnerRuns.Step, Releases;
    actions := [];
    var steps := TakeBack(j.owner, chat);
    if steps != [] {
      RunSnoc(j, [], OnOwner(steps[0]));
      actions := [] + [OnOwner(steps[0])];
    }
    assert Run(j, []) == j;
    hide Run;
    var j' := Run(j, actions);
    RunKeeps(j, actions);
    if |j'.owner.running| >= Owner.MAX_FOREGROUND_RUNS {
      var other :| other in j'.owner.running;
      FreeSlot(j'.owner, chat, other);
      var free := OnOwner(OwnerRuns.Release(other, j'.owner.running[other]));
      RunSnoc(j, actions, free);
      actions := actions + [free];
    }
  }

  /** Exactly when can a stable snapshot of a conversation hide a whole execution
      of it? When at its first section the conversation is free and the server
      neither closed nor stopping beyond recall. */
  lemma HidesExecutionExactly(j: Joint, chat: Bytes)
    requires JointInv(j)
    ensures (exists actions, id :: Executed(j, actions, id, chat) && StableBetween(j, Run(j, actions), chat))
      <==> MayStillRun(j.owner, chat)
  {
    hide Run, HubRuns.HubInv, OwnerRuns.SlotInv, OwnerRuns.StopInv, Executed, StableBetween;
    if MayStillRun(j.owner, chat) {
      var actions, id := HiddenExecution(j, chat);
      assert Executed(j, actions, id, chat) && StableBetween(j, Run(j, actions), chat);
    }
    if actions, id :| Executed(j, actions, id, chat) && StableBetween(j, Run(j, actions), chat) {
      HiddenNeedsRoom(j, actions, id, chat);
    }
  }

  lemma HiddenNeedsRoom(j: Joint, actions: seq<Action>, id: nat, chat: Bytes)
    requires JointInv(j) && Executed(j, actions, id, chat) && StableBetween(j, Run(j, actions), chat)
    ensures MayStillRun(j.owner, chat)
  {
    hide Run, JointInv, OwnerRuns.StoppedForGood;
    var k :| 0 <= k <= |actions| && IsLive(Run(j, actions[..k]).owner, id, chat);
    LiveIsNamed(j, actions[..k], id, chat);
    if chat in j.owner.running {
      SlotIsNotRegained(j, actions, k, id, chat);
    }
    if j.owner.closed || OwnerRuns.StoppedForGood(j.owner) {
      NoNewThreads(j, actions);
    }
  }

  lemma HiddenExecution(j: Joint, chat: Bytes) returns (actions: seq<Action>, id: nat)
    requires JointInv(j) && MayStillRun(j.owner, chat)
    ensures Executed(j, actions, id, chat) && StableBetween(j, Run(j, actions), chat)
    ensures id in Run(j, actions).due
  {
    hide Run, JointInv, HubRuns.Step, Owner.Idle;
    var room := MakeRoom(j, chat);
    id := FreshId(j.owner.threads.Keys);
    var item := Owner.Execution(id, []);
    var reserve, release := OnOwner(OwnerRuns.Reserve(chat, item)), OnOwner(OwnerRuns.Release(chat, item));
    RunSnoc(j, room, reserve);
    RunSnoc(j, room + [reserve], release);
    actions := room + [reserve] + [release];
    var j1 := Run(j, room);
    assert Run(j, room + [reserve]).owner == Owner.AfterReserve(j1.owner, chat, item);
    assert Run(j, actions).owner == Owner.AfterRelease(Run(j, room + [reserve]).owner, chat, item);
    assert actions[..|room| + 1] == room + [reserve];
    assert IsLive(Run(j, actions[..|room| + 1]).owner, id, chat);
  }
}
