/** What the pull protocol guarantees over every run, with crashes and restarts anywhere. */
module TelegramRuns {
  import opened Prelude
  import opened TelegramPull

  lemma StartInv()
    ensures Inv(Start())
  {}

  lemma {:induction false} Always(actions: seq<Action>)
    ensures Inv(Run(Start(), actions))
  {
    hide Inv, Step;
    if actions == [] {
      StartInv();
    } else {
      Always(actions[..|actions| - 1]);
      StepInv(Run(Start(), actions[..|actions| - 1]), actions[|actions| - 1]);
    }
  }

  // ----- No update is lost -----

  /** The sequence with adjacent repeats removed. */
  function WithoutRepeats(ids: seq<int>): seq<int> {
    if |ids| <= 1 then ids
    else
      var n := |ids| - 1;
      if ids[n] == ids[n - 1] then WithoutRepeats(ids[..n]) else WithoutRepeats(ids[..n]) + [ids[n]]
  }

  lemma RepeatsSnoc(ids: seq<int>, id: int)
    ensures WithoutRepeats(ids + [id]) ==
      if ids != [] && ids[|ids| - 1] == id then WithoutRepeats(ids) else WithoutRepeats(ids) + [id]
  {
    var all := ids + [id];
    if ids == [] {
      assert all == [id];
    } else {
      var n := |all| - 1;
      assert all[..n] == ids && all[n] == id && all[n - 1] == ids[|ids| - 1];
    }
  }

  ghost predicate Increasing(ids: seq<int>) {
    forall i, j :: 0 <= i < j < |ids| ==> ids[i] < ids[j]
  }

  lemma {:induction false} RepeatsAreAdjacent(ids: seq<int>)
    requires NonDecreasing(ids)
    ensures forall id :: id in WithoutRepeats(ids) <==> id in ids
    ensures Increasing(WithoutRepeats(ids)) && (ids != [] ==> WithoutRepeats(ids) != [] && Top(WithoutRepeats(ids)) == Top(ids))
  {
    if |ids| > 1 {
      var n := |ids| - 1;
      RepeatsAreAdjacent(ids[..n]);
    }
  }

  /** After any steps in any order, every update at or below the persisted
      position was accepted by Core, dropped by a purge, or skipped as not
      eligible; the platform was told to forget none above it; and Core accepted
      in increasing order, repeats apart. */
  lemma NoUpdateLost(actions: seq<Action>)
    ensures var w := Run(Start(), actions);
      && (forall u <- w.arrived :: u.id <= Last(w) ==>
            u.id in w.accepted || u.id in w.purged || (u.id in w.skipped && !Eligible(u, w.skipped[u.id])))
      && w.confirmed <= Last(w) + 1
      && Increasing(WithoutRepeats(w.accepted))
  {
    hide Run, Eligible, ValidBatch, ProcessInv;
    Always(actions);
    RepeatsAreAdjacent(Run(Start(), actions).accepted);
  }

  /** Every start of the process used this cutoff. */
  ghost predicate SameCutoff(actions: seq<Action>, cutoff: int) {
    forall a <- actions :: a.Boot? ==> a.cutoff == cutoff
  }

  lemma {:induction false} SkippedUnderCutoff(actions: seq<Action>, cutoff: int)
    requires SameCutoff(actions, cutoff)
    ensures var w := Run(Start(), actions);
      (forall id <- w.skipped :: w.skipped[id] == cutoff) && (!w.process.Down? ==> w.cutoff == cutoff)
  {
    if actions != [] {
      var n := |actions| - 1;
      assert forall a <- actions[..n] :: a in actions;
      assert actions[n] in actions;
      SkippedUnderCutoff(actions[..n], cutoff);
      hide Eligible, ValidBatch, High, Loads, AfterBoot;
    }
  }

  /** With one configured cutover, every eligible update at or below the
      persisted position was accepted by Core, unless the purge dropped it. */
  lemma EligibleIsAccepted(actions: seq<Action>, cutoff: int, u: Update)
    requires SameCutoff(actions, cutoff)
    requires var w := Run(Start(), actions);
      u in w.arrived && u.id <= Last(w) && Eligible(u, cutoff) && u.id !in w.purged
    ensures u.id in Run(Start(), actions).accepted
  {
    hide Run, Eligible;
    NoUpdateLost(actions);
    SkippedUnderCutoff(actions, cutoff);
  }

  // ----- The cutover purge -----

  /** Nothing is polled or handled under a cutover whose purge is not on disk as finished. */
  lemma NoPollBeforePurge(actions: seq<Action>)
    ensures var w := Run(Start(), actions);
      w.process.Polling? || w.process.Handling? || w.process.Saving? ==>
        w.cutover == [] || (Loaded(w.disk).cutover == w.cutover && Loaded(w.disk).drop == Finished)
  {
    hide Run, ValidBatch, Ordered, SkippedRightly, AccountedTo;
    Always(actions);
  }

  /** Every start was configured with this cutover or with none. */
  ghost predicate OneCutover(actions: seq<Action>, cutover: Bytes) {
    forall a <- actions :: a.Boot? ==> a.cutover == [] || a.cutover == cutover
  }

  /** calls purges were called so far: at most one, and then the disk says so. */
  ghost predicate PurgeState(w: World, cutover: Bytes, calls: int) {
    && 0 <= calls <= 1
    && (calls == 1 ==> Loaded(w.disk).cutover == cutover)
    && (w.process.Marking? || w.process.Purging? ==> calls == 0)
    && (!w.process.Down? ==> w.cutover == [] || w.cutover == cutover)
  }

  lemma PurgeStep(w: World, a: Action, cutover: Bytes, calls: int)
    requires Inv(w) && PurgeState(w, cutover, calls)
    requires a.Boot? ==> a.cutover == [] || a.cutover == cutover
    ensures PurgeState(Step(w, a), cutover, calls + |Step(w, a).purgeCalls| - |w.purgeCalls|)
    ensures |Step(w, a).purgeCalls| >= |w.purgeCalls|
  {
    hide ValidBatch, Ordered, SkippedRightly, AccountedTo, Eligible, Ascending;
  }

  lemma {:induction false} PurgeCounted(w: World, actions: seq<Action>, cutover: Bytes)
    requires Inv(w) && w.process.Down? && OneCutover(actions, cutover)
    ensures Inv(Run(w, actions))
    ensures PurgeState(Run(w, actions), cutover, |Run(w, actions).purgeCalls| - |w.purgeCalls|)
  {
    hide Inv, Step;
    if actions != [] {
      var n := |actions| - 1;
      assert forall a <- actions[..n] :: a in actions;
      assert actions[n] in actions;
      PurgeCounted(w, actions[..n], cutover);
      var mid := Run(w, actions[..n]);
      StepInv(mid, actions[n]);
      PurgeStep(mid, actions[n], cutover, |mid.purgeCalls| - |w.purgeCalls|);
    }
  }

  /** While the configured cutover stays the same, the platform's pending
      updates are dropped at most once, over any crashes and restarts. */
  lemma PurgedAtMostOnce(before: seq<Action>, actions: seq<Action>, cutover: Bytes)
    requires Run(Start(), before).process.Down? && OneCutover(actions, cutover)
    ensures |Run(Run(Start(), before), actions).purgeCalls| <= |Run(Start(), before).purgeCalls| + 1
  {
    hide Run, Inv;
    Always(before);
    PurgeCounted(Run(Start(), before), actions, cutover);
  }

  // ----- Without failures everything is delivered -----

  function EligibleIds(batch: seq<Update>, cutoff: int): seq<int> {
    if batch == [] then []
    else (if Eligible(batch[0], cutoff) then [batch[0].id] else []) + EligibleIds(batch[1..], cutoff)
  }

  /** The steps of a pass over a batch in which every call succeeds. */
  function SmoothPass(batch: seq<Update>, cutoff: int): seq<Action> {
    if batch == [] then []
    else
      [if Eligible(batch[0], cutoff) then Inbound(true, Fine) else Skip, Save(true, true)] + SmoothPass(batch[1..], cutoff)
  }

  lemma {:induction false} RunConcat(w: World, a: seq<Action>, b: seq<Action>)
    ensures Run(w, a + b) == Run(Run(w, a), b)
  {
    if b == [] {
      assert a + b == a;
    } else {
      assert (a + b)[..|a + b| - 1] == a + b[..|b| - 1];
      RunConcat(w, a, b[..|b| - 1]);
    }
  }

  lemma SmoothUpdate(w: World)
    requires w.process.Handling? && w.process.batch != [] && w.process.batch[0].id > w.process.position.last
    ensures var u, rest, position := w.process.batch[0], w.process.batch[1..], w.process.position.(last := w.process.batch[0].id);
      var first := if Eligible(u, w.cutoff) then Inbound(true, Fine) else Skip;
      var w' := Run(w, [first, Save(true, true)]);
      && w'.disk == Some(position) && w'.process == Next(position, rest) && w'.cutoff == w.cutoff
      && w'.accepted == w.accepted + (if Eligible(u, w.cutoff) then [u.id] else [])
  {
    hide Eligible;
    var first := if Eligible(w.process.batch[0], w.cutoff) then Inbound(true, Fine) else Skip;
    var none: seq<Action> := [];
    assert none + [first] + [Save(true, true)] == [first, Save(true, true)];
    assert Run(w, none) == w;
    RunSnoc(w, none, first);
    RunSnoc(w, none + [first], Save(true, true));
    assert w.accepted + [] == w.accepted;
  }

  /** A pass over a batch in which nothing fails gives Core exactly its eligible
      updates, in order, and leaves the last one as the persisted position. */
  lemma {:induction false} SmoothPassDelivers(w: World)
    requires w.process.Handling? && w.process.batch != []
    requires Ascending(w.process.batch) && w.process.batch[0].id > w.process.position.last
    ensures var batch := w.process.batch;
      var w' := Run(w, SmoothPass(batch, w.cutoff));
      && w'.process == Polling(w.process.position.(last := batch[|batch| - 1].id))
      && w'.disk == Some(w'.process.position)
      && w'.accepted == w.accepted + EligibleIds(batch, w.cutoff)
    decreases |w.process.batch|
  {
    hide Step, Eligible;
    var batch := w.process.batch;
    var two := SmoothPass(batch, w.cutoff)[..2];
    assert SmoothPass(batch, w.cutoff) == two + SmoothPass(batch[1..], w.cutoff);
    SmoothUpdate(w);
    RunConcat(w, two, SmoothPass(batch[1..], w.cutoff));
    var mid := Run(w, two);
    var own := if Eligible(batch[0], w.cutoff) then [batch[0].id] else [];
    if |batch| == 1 {
      assert EligibleIds(batch[1..], w.cutoff) == [];
      assert own + [] == own;
    } else {
      SmoothPassDelivers(mid);
      assert (w.accepted + own) + EligibleIds(batch[1..], w.cutoff) == w.accepted + (own + EligibleIds(batch[1..], w.cutoff));
    }
  }

  /** A newer update is handed to Core exactly when it was recognised, is not from
      before the cutover and names no other bot; any other is passed over. */
  lemma HandedExactly(w: World)
    requires w.process.Handling? && w.process.batch != [] && w.process.batch[0].id > w.process.position.last
    ensures var u := w.process.batch[0];
      var wanted := u.recognized && (w.cutoff <= 0 || u.date > w.cutoff) && !u.forOtherBot;
      && (Step(w, Inbound(true, Fine)).accepted == w.accepted + [u.id] <==> wanted)
      && (Enabled(w, Inbound(true, Fine)) <==> wanted) && (Enabled(w, Skip) <==> !wanted)
      && (!wanted ==> Step(w, Inbound(true, Fine)) == w && Step(w, Skip).process.Saving?)
  {}

  /** A poll tells the platform to forget everything up to the position, and
      nothing beyond; an answer of more than 100 updates is no answer. */
  lemma PollExactly(w: World, reached: bool, ok: bool, batch: seq<Update>)
    requires w.process.Polling?
    ensures var w', last := Step(w, Poll(reached, ok, batch)), w.process.position.last;
      && (reached || ok ==> w'.confirmed >= last + 1 && (w'.confirmed == last + 1 || w'.confirmed == w.confirmed))
      && (!reached && !ok ==> w'.confirmed == w.confirmed)
      && (!ok || |batch| > 100 ==> w'.process == w.process)
      && w'.accepted == w.accepted && w'.disk == w.disk && w'.arrived == w.arrived && w'.purged == w.purged
  {
    hide ValidBatch;
  }
}
