/** The pull loop as the program runs it, following the protocol step by step. */
module TelegramPlugin {
  import opened Prelude
  import opened TelegramPull
  import opened TelegramRuns

  /** What the environment does with one call: whether it takes effect, what it
      answers, what arrives before it, and the updates of a poll. */
  datatype Reply = Reply(effect: bool, answer: Answer, arrivals: seq<Update>, batch: seq<Update>)

  /** Why the loop ended; Stopped is a crash or a cancellation at a call. */
  datatype Exit = Stopped | CursorUnavailable | PurgeUnknown | SaveFailed | CoreGone

  /** Every error exit is forced by the last call: its answer, or what it found on disk. */
  ghost predicate ExitMatches(exit: Exit, last: Action, disk: Option<Cursor>) {
    match exit
    case Stopped => false
    case CursorUnavailable => last.Boot? && !(last.readable && Loads(disk))
    case PurgeUnknown =>
      || (last.Boot? && last.readable && Loads(disk) && AfterBoot(Loaded(disk), last.cutover).Down?)
      || (last.Purge? && !last.ok)
    case SaveFailed => last.Save? && !last.ok
    case CoreGone => last.Inbound? && last.answer == CoreUnavailable
  }

  lemma ForcedByPurge(last: Action, file: Option<Cursor>)
    requires last.Purge? && !last.ok
    ensures ExitMatches(PurgeUnknown, last, file)
  {}

  lemma ForcedByCore(last: Action, file: Option<Cursor>)
    requires last.Inbound? && last.answer == CoreUnavailable
    ensures ExitMatches(CoreGone, last, file)
  {}

  lemma ForcedBySave(last: Action, file: Option<Cursor>)
    requires last.Save? && !last.ok
    ensures ExitMatches(SaveFailed, last, file)
  {}

  // ----- Which run of the program the steps are -----

  /** How the program was started: after which steps and arrivals, with what configuration. */
  datatype Launch = Launch(trace: seq<Action>, arrived: seq<Update>, cutover: Bytes, cutoff: int)

  /** The steps that are calls of the program; a crash is never one it may count. */
  ghost function Calls(steps: seq<Action>): seq<Action> {
    if steps == [] then []
    else
      var earlier, last := Calls(steps[..|steps| - 1]), steps[|steps| - 1];
      if last.Arrive? || last.Skip? then earlier else earlier + [last]
  }

  /** a is a call with the launch's configuration that had this reply. */
  ghost predicate Answers(a: Action, r: Reply, launch: Launch) {
    && !a.Arrive? && !a.Skip? && !a.Crash?
    && (a.Boot? ==> a == Boot(launch.cutover, launch.cutoff, r.answer == Fine))
    && (a.Save? ==> a == Save(r.effect, r.answer == Fine))
    && (a.Purge? ==> a == Purge(r.effect, r.answer == Fine))
    && (a.Poll? ==> a == Poll(r.effect, r.answer == Fine, r.batch))
    && (a.Inbound? ==> a == Inbound(r.effect, r.answer))
  }

  ghost predicate AllAnswered(calls: seq<Action>, replies: seq<Reply>, launch: Launch) {
    |calls| == |replies| && forall k :: 0 <= k < |calls| ==> Answers(calls[k], replies[k], launch)
  }

  /** The platform takes ascending ids only. */
  ghost function Absorbed(arrived: seq<Update>, us: seq<Update>): seq<Update> {
    if us == [] then arrived
    else
      var had, u := Absorbed(arrived, us[..|us| - 1]), us[|us| - 1];
      var high := if had == [] then 0 else had[|had| - 1].id;
      if u.id > 0 && u.id > high then had + [u] else had
  }

  ghost function ArrivalsOf(replies: seq<Reply>): seq<Update> {
    if replies == [] then []
    else ArrivalsOf(replies[..|replies| - 1]) + replies[|replies| - 1].arrivals
  }

  /** Since the launch the program has made one call per reply, in order, each as
      answered, and nothing but those arrivals reached the platform. */
  ghost predicate Served(launch: Launch, trace: seq<Action>, arrived: seq<Update>, replies: seq<Reply>, more: seq<Update>) {
    && launch.trace <= trace
    && AllAnswered(Calls(trace[|launch.trace|..]), replies, launch)
    && arrived == Absorbed(launch.arrived, ArrivalsOf(replies) + more)
  }

  /** The calls made since the launch. */
  ghost function Made(launch: Launch, trace: seq<Action>): seq<Action> {
    if launch.trace <= trace then Calls(trace[|launch.trace|..]) else []
  }

  lemma MadeNothing(launch: Launch)
    ensures Made(launch, launch.trace) == []
  {}

  lemma ServedStart(launch: Launch)
    ensures Served(launch, launch.trace, launch.arrived, [], [])
  {}

  lemma CallsSnoc(before: seq<Action>, trace: seq<Action>, a: Action)
    requires before <= trace
    ensures before <= trace + [a]
    ensures var calls := Calls(trace[|before|..]);
      Calls((trace + [a])[|before|..]) == if a.Arrive? || a.Skip? then calls else calls + [a]
  {
    var steps := (trace + [a])[|before|..];
    assert steps[..|steps| - 1] == trace[|before|..];
  }

  lemma ServedArrival(launch: Launch, trace: seq<Action>, arrived: seq<Update>, replies: seq<Reply>, more: seq<Update>, u: Update)
    requires Served(launch, trace, arrived, replies, more)
    ensures var high := if arrived == [] then 0 else arrived[|arrived| - 1].id;
      if u.id > 0 && u.id > high then
        && Served(launch, trace + [Arrive(u)], arrived + [u], replies, more + [u])
        && Made(launch, trace + [Arrive(u)]) == Made(launch, trace)
      else Served(launch, trace, arrived, replies, more + [u])
  {
    hide AllAnswered, Calls, ArrivalsOf, Absorbed;
    assert ArrivalsOf(replies) + (more + [u]) == (ArrivalsOf(replies) + more) + [u];
    AbsorbedSnoc(launch.arrived, ArrivalsOf(replies) + more, u);
    CallsSnoc(launch.trace, trace, Arrive(u));
  }

  lemma NothingAbsorbed(arrived: seq<Update>)
    ensures Absorbed(arrived, []) == arrived
  {}

  lemma AbsorbedSnoc(arrived: seq<Update>, us: seq<Update>, u: Update)
    ensures var had := Absorbed(arrived, us);
      var high := if had == [] then 0 else had[|had| - 1].id;
      Absorbed(arrived, us + [u]) == if u.id > 0 && u.id > high then had + [u] else had
  {
    assert (us + [u])[..|us|] == us;
  }

  lemma ServedSkip(launch: Launch, trace: seq<Action>, arrived: seq<Update>, replies: seq<Reply>)
    requires Served(launch, trace, arrived, replies, [])
    ensures Served(launch, trace + [Skip], arrived, replies, [])
    ensures Made(launch, trace + [Skip]) == Made(launch, trace)
  {
    hide AllAnswered, Calls;
    CallsSnoc(launch.trace, trace, Skip);
  }

  lemma CallKind(a: Action, r: Reply, launch: Launch)
    requires Answers(a, r, launch)
    ensures !a.Arrive? && !a.Skip? && !a.Crash?
  {}

  lemma ServedCall(launch: Launch, trace: seq<Action>, arrived: seq<Update>, replies: seq<Reply>, a: Action, r: Reply)
    requires Served(launch, trace, arrived, replies, r.arrivals) && Answers(a, r, launch)
    ensures Served(launch, trace + [a], arrived, replies + [r], [])
    ensures Made(launch, trace + [a]) == Made(launch, trace) + [a]
  {
    hide Calls, Absorbed;
    CallsSnoc(launch.trace, trace, a);
    assert (replies + [r])[..|replies|] == replies;
    assert ArrivalsOf(replies) + r.arrivals + [] == ArrivalsOf(replies) + r.arrivals;
  }

  /** The order of a start: the load first, then, each only after the one before
      succeeded, the mark, the purge and the finish. */
  ghost predicate InOrder(calls: seq<Action>) {
    && |calls| <= 4
    && (|calls| > 0 ==> calls[0].Boot?)
    && (|calls| > 1 ==> calls[0].readable && calls[1].Save?)
    && (|calls| > 2 ==> calls[1].ok && calls[2].Purge?)
    && (|calls| > 3 ==> calls[2].ok && calls[3].Save?)
  }

  lemma OrderedCalls(boot: Action, mark: Action, purge: Action, finish: Action)
    requires boot.Boot? && boot.readable && mark.Save? && purge.Purge? && finish.Save?
    ensures InOrder([boot]) && InOrder([boot, mark])
    ensures mark.ok ==> InOrder([boot, mark, purge]) && (purge.ok ==> InOrder([boot, mark, purge, finish]))
  {}

  /** What Core has more after these replies to one update. */
  ghost function Offered(id: int, replies: seq<Reply>): seq<int> {
    if replies == [] then []
    else
      var last := replies[|replies| - 1];
      Offered(id, replies[..|replies| - 1]) + (if last.effect || last.answer == Fine then [id] else [])
  }

  lemma OfferedSnoc(id: int, replies: seq<Reply>, r: Reply)
    ensures Offered(id, replies + [r]) == Offered(id, replies) + (if r.effect || r.answer == Fine then [id] else [])
  {
    assert (replies + [r])[..|replies|] == replies;
  }

  /** What the replies from one on to another added to had, one reply further. */
  lemma OfferedNext(had: seq<int>, id: int, replies: seq<Reply>, from: nat, to: nat)
    requires from <= to < |replies|
    ensures var r := replies[to];
      had + Offered(id, replies[from..to + 1]) ==
        if r.effect || r.answer == Fine then had + Offered(id, replies[from..to]) + [id] else had + Offered(id, replies[from..to])
  {
    assert replies[from..to + 1] == replies[from..to] + [replies[to]];
    OfferedSnoc(id, replies[from..to], replies[to]);
  }

  ghost predicate AllFail(replies: seq<Reply>, from: nat, to: nat)
    requires to <= |replies|
  {
    forall k :: from <= k < to ==> replies[k].answer == Fails
  }

  lemma AllFailNext(replies: seq<Reply>, from: nat, to: nat)
    requires to < |replies|
    ensures AllFail(replies, to, to)
    ensures AllFail(replies, from, to) && replies[to].answer == Fails ==> AllFail(replies, from, to + 1)
  {}

  lemma AllFailLast(replies: seq<Reply>, from: nat, to: nat)
    requires from < to <= |replies| && AllFail(replies, from, to)
    ensures AllFail(replies, from, to - 1) && replies[to - 1].answer == Fails
  {}

  lemma PrefixNext(replies: seq<Reply>, n: nat)
    requires n < |replies|
    ensures replies[..n] + [replies[n]] == replies[..n + 1]
  {}

  lemma {:induction false} OfferedAre(id: int, replies: seq<Reply>)
    ensures forall x <- Offered(id, replies) :: x == id
    ensures (exists r <- replies :: r.effect || r.answer == Fine) ==> Offered(id, replies) != []
  {
    if replies != [] {
      var n := |replies| - 1;
      assert replies == replies[..n] + [replies[n]];
      OfferedAre(id, replies[..n]);
    }
  }

  lemma NothingOffered(id: int)
    ensures Offered(id, []) == []
  {}

  /** The eligible ids of a batch that are newer than what came before them. */
  ghost function NewerIds(last: int, batch: seq<Update>, cutoff: int): seq<int>
    decreases batch
  {
    if batch == [] then []
    else if batch[0].id <= last then NewerIds(last, batch[1..], cutoff)
    else (if Eligible(batch[0], cutoff) then [batch[0].id] else []) + NewerIds(batch[0].id, batch[1..], cutoff)
  }

  ghost function LastOfBatch(last: int, batch: seq<Update>): int
    decreases batch
  {
    if batch == [] then last else LastOfBatch(if batch[0].id <= last then last else batch[0].id, batch[1..])
  }

  lemma {:induction false} RepeatsOfOne(ids: seq<int>, id: int, more: seq<int>)
    requires (ids == [] || Top(ids) != id) && forall x <- more :: x == id
    ensures WithoutRepeats(ids + more) == WithoutRepeats(ids) + (if more == [] then [] else [id])
  {
    hide WithoutRepeats;
    if more == [] {
      assert ids + more == ids;
    } else {
      var n := |more| - 1;
      assert more[n] in more;
      assert more[n] == id;
      assert more == more[..n] + [id];
      assert forall x <- more[..n] :: x in more;
      RepeatsOfOne(ids, id, more[..n]);
      assert ids + more == (ids + more[..n]) + [id];
      if n == 0 {
        assert ids + more[..n] == ids;
        RepeatsSnoc(ids, id);
      } else {
        assert more[n - 1] in more;
        assert (ids + more[..n])[|ids| + n - 1] == id;
        RepeatsSnoc(ids + more[..n], id);
      }
    }
  }

  /** more is what Core got, repeats apart, of all the ids of a batch, when what
      comes after last in the rest of the batch is still to be handed over. */
  ghost predicate Handed(more: seq<int>, all: seq<int>, end: int, last: int, rest: seq<Update>, cutoff: int) {
    && (more == [] || Top(more) <= last)
    && WithoutRepeats(more) + NewerIds(last, rest, cutoff) == all
    && LastOfBatch(last, rest) == end
  }

  lemma HandedStart(last: int, batch: seq<Update>, cutoff: int)
    ensures Handed([], NewerIds(last, batch, cutoff), LastOfBatch(last, batch), last, batch, cutoff)
  {
    assert [] + NewerIds(last, batch, cutoff) == NewerIds(last, batch, cutoff);
  }

  lemma HandedOver(more: seq<int>, all: seq<int>, end: int, last: int, u: Update, rest: seq<Update>, cutoff: int)
    requires Handed(more, all, end, last, [u] + rest, cutoff)
    requires u.id <= last || !Eligible(u, cutoff)
    ensures Handed(more, all, end, if u.id <= last then last else u.id, rest, cutoff)
  {
    hide WithoutRepeats;
    assert ([u] + rest)[1..] == rest;
    assert [] + NewerIds(u.id, rest, cutoff) == NewerIds(u.id, rest, cutoff);
  }

  lemma HandedNew(more: seq<int>, all: seq<int>, end: int, last: int, u: Update, rest: seq<Update>, cutoff: int, offered: seq<int>)
    requires Handed(more, all, end, last, [u] + rest, cutoff)
    requires u.id > last && Eligible(u, cutoff) && forall x <- offered :: x == u.id
    ensures WithoutRepeats(more + offered) <= all
    ensures offered != [] ==> Handed(more + offered, all, end, u.id, rest, cutoff)
  {
    hide WithoutRepeats;
    assert ([u] + rest)[1..] == rest;
    RepeatsOfOne(more, u.id, offered);
    var after := NewerIds(u.id, rest, cutoff);
    assert all == WithoutRepeats(more) + [u.id] + after;
    assert offered != [] ==> offered[|offered| - 1] in offered;
  }

  lemma HandedOne(more: seq<int>, all: seq<int>, end: int, last: int, u: Update, rest: seq<Update>, cutoff: int, given: seq<int>)
    requires Handed(more, all, end, last, [u] + rest, cutoff)
    requires u.id > last && (forall x <- given :: x == u.id) && (given != [] ==> Eligible(u, cutoff))
    ensures WithoutRepeats(more + given) <= all
    ensures (Eligible(u, cutoff) ==> given != []) ==> Handed(more + given, all, end, u.id, rest, cutoff)
  {
    hide Eligible;
    if Eligible(u, cutoff) {
      HandedNew(more, all, end, last, u, rest, cutoff, given);
    } else {
      assert more + given == more;
      HandedPart(more, all, end, last, [u] + rest, cutoff);
      HandedOver(more, all, end, last, u, rest, cutoff);
    }
  }

  lemma HandedPart(more: seq<int>, all: seq<int>, end: int, last: int, rest: seq<Update>, cutoff: int)
    requires Handed(more, all, end, last, rest, cutoff)
    ensures WithoutRepeats(more) <= all && (rest == [] ==> WithoutRepeats(more) == all && last == end)
  {}

  // ----- What a start comes to, told by the cursor file and the answers -----

  predicate Granted(replies: seq<Reply>, k: nat) {
    k < |replies| && replies[k].answer == Fine
  }

  predicate Failed(replies: seq<Reply>, k: nat) {
    k < |replies| && replies[k].answer != Fine
  }

  /** The configured cutover is another than the one on disk. */
  predicate NewCutover(held: Cursor, configured: Bytes) {
    configured != [] && held.cutover != configured
  }

  /** The first calls of a start: one, or four at a new cutover. */
  function StartCalls(held: Cursor, configured: Bytes): nat {
    if NewCutover(held, configured) then 4 else 1
  }

  predicate CanLoad(held: Cursor, replies: seq<Reply>) {
    Granted(replies, 0) && held.last >= 0
  }

  /** A start goes on to poll when it can load its position and then either no
      cutover is configured, or that cutover is finished on disk, or mark, purge
      and finish succeed. */
  predicate GoesOn(held: Cursor, configured: Bytes, replies: seq<Reply>) {
    && CanLoad(held, replies)
    && (|| configured == []
        || (held.cutover == configured && held.drop == Finished)
        || (held.cutover != configured && Granted(replies, 1) && Granted(replies, 2) && Granted(replies, 3)))
  }

  /** The configured cutover is on disk unfinished, or its purge fails now. */
  predicate PurgeInDoubt(held: Cursor, configured: Bytes, replies: seq<Reply>) {
    && CanLoad(held, replies) && configured != []
    && if held.cutover == configured then held.drop != Finished else Granted(replies, 1) && Failed(replies, 2)
  }

  predicate MarkOrFinishFails(replies: seq<Reply>) {
    Failed(replies, 1) || (Granted(replies, 1) && Granted(replies, 2) && Failed(replies, 3))
  }

  ghost predicate Longer(calls: seq<Action>, more: seq<Action>) {
    calls <= more
  }

  lemma LongerRules(calls: seq<Action>, more: seq<Action>, last: seq<Action>)
    ensures Longer(calls, calls)
    ensures Longer(calls, more) && Longer(more, last) ==> Longer(calls, last)
  {}

  lemma LongerByOne(calls: seq<Action>, more: seq<Action>, a: Action)
    ensures Longer(calls, more) ==> Longer(calls, more + [a])
  {}

  /** The call with this number was a poll. */
  ghost predicate PolledAt(calls: seq<Action>, k: nat) {
    k < |calls| && calls[k].Poll?
  }

  predicate AllFine(replies: seq<Reply>, from: nat) {
    forall k :: from <= k < |replies| ==> replies[k].answer == Fine
  }

  /** What was accepted after had begins, repeats apart, with these ids. */
  ghost predicate GivenFirst(had: seq<int>, has: seq<int>, ids: seq<int>) {
    had <= has && exists m :: |had| <= m <= |has| && WithoutRepeats(has[|had|..m]) == ids
  }

  lemma GivenNow(had: seq<int>, has: seq<int>, ids: seq<int>)
    requires had <= has && WithoutRepeats(has[|had|..]) == ids
    ensures GivenFirst(had, has, ids)
  {
    assert has[|had|..|has|] == has[|had|..];
  }

  lemma GivenStays(had: seq<int>, has: seq<int>, later: seq<int>, ids: seq<int>)
    requires GivenFirst(had, has, ids) && has <= later
    ensures GivenFirst(had, later, ids)
  {
    var m :| |had| <= m <= |has| && WithoutRepeats(has[|had|..m]) == ids;
    assert later[|had|..m] == has[|had|..m];
  }

  /** The first call after the start is a poll; and if what it answers is a batch the
      platform may give, and the calls last, then Core's next ids, repeats apart,
      are the eligible ones of that batch in order. */
  ghost predicate Delivers(before: Launch, trace: seq<Action>, had: seq<int>, accepted: seq<int>, purged: set<int>,
                           held: Cursor, replies: seq<Reply>)
    requires StartCalls(held, before.cutover) < |replies|
  {
    var k := StartCalls(held, before.cutover);
    var batch := replies[k].batch;
    && PolledAt(Made(before, trace), k)
    && (|batch| <= 100 && k + 1 + 2 * |batch| <= |replies|
          && ValidBatch(Absorbed(before.arrived, ArrivalsOf(replies[..k + 1])), purged, held.last, batch)
        ==> GivenFirst(had, accepted, EligibleIds(batch, before.cutoff)))
  }

  lemma DeliversFrom(before: Launch, trace: seq<Action>, arrived: seq<Update>, had: seq<int>, accepted: seq<int>,
                     purged: set<int>, held: Cursor, replies: seq<Reply>)
    requires StartCalls(held, before.cutover) < |replies|
    requires var k := StartCalls(held, before.cutover);
      var batch := replies[k].batch;
      && PolledAt(Made(before, trace), k)
      && arrived == Absorbed(before.arrived, ArrivalsOf(replies[..k]))
      && (|batch| <= 100 && k + 1 + 2 * |batch| <= |replies|
            && ValidBatch(Absorbed(arrived, replies[k].arrivals), purged, held.last, batch)
          ==> GivenFirst(had, accepted, NewerIds(held.last, batch, before.cutoff)))
    ensures Delivers(before, trace, had, accepted, purged, held, replies)
  {
    hide Made, Absorbed, GivenFirst, NewerIds, EligibleIds, Eligible, Ascending;
    var k := StartCalls(held, before.cutover);
    var batch := replies[k].batch;
    assert replies[..k + 1][..k] == replies[..k];
    AbsorbedConcat(before.arrived, ArrivalsOf(replies[..k]), replies[k].arrivals);
    if ValidBatch(Absorbed(arrived, replies[k].arrivals), purged, held.last, batch) {
      NewerInOrder(held.last, batch, before.cutoff);
    }
  }

  lemma {:induction false} AbsorbedConcat(arrived: seq<Update>, a: seq<Update>, b: seq<Update>)
    ensures Absorbed(arrived, a + b) == Absorbed(Absorbed(arrived, a), b)
  {
    if b == [] {
      assert a + b == a;
    } else {
      var n := |b| - 1;
      assert (a + b)[..|a + b| - 1] == a + b[..n];
      AbsorbedConcat(arrived, a, b[..n]);
    }
  }

  /** In a batch of newer ids in order every eligible one is new. */
  lemma {:induction false} NewerInOrder(last: int, batch: seq<Update>, cutoff: int)
    requires Ascending(batch) && forall u <- batch :: u.id > last
    ensures NewerIds(last, batch, cutoff) == EligibleIds(batch, cutoff)
    decreases batch
  {
    hide Eligible;
    if batch != [] {
      AscendingTail(batch);
      NewerInOrder(batch[0].id, batch[1..], cutoff);
    }
  }

  class Plugin {
    var disk: Option<Cursor>
    var arrived: seq<Update>
    var purged: set<int>
    var confirmed: int
    var accepted: seq<int>
    ghost var skipped: map<int, int>
    ghost var purgeCalls: seq<Bytes>
    ghost var cutover: Bytes
    ghost var cutoff: int
    ghost var process: Process
    ghost var trace: seq<Action>
    ghost var launch: Launch
    ghost var answered: seq<Reply>

    ghost function View(): World
      reads this
    {
      World(disk, arrived, purged, confirmed, accepted, skipped, purgeCalls, cutover, cutoff, process)
    }

    /** The fields are where the recorded steps lead from a new installation. */
    ghost predicate Follows()
      reads this
    {
      View() == Run(Start(), trace) && Possible(Start(), trace)
    }

    /** And since the launch they are those of the program, as answered so far. */
    ghost predicate OnTrack(more: seq<Update>)
      reads this
    {
      Follows() && Served(launch, trace, arrived, answered, more)
    }

    constructor ()
      ensures Follows() && process == Down && trace == []
    {
      launch, answered := Launch([], [], [], 0), [];
      disk, arrived, purged, confirmed, accepted := None, [], {}, 0, [];
      skipped, purgeCalls, cutover, cutoff, process := map[], [], [], 0, Down;
      trace := [];
    }

    /** The fields have just taken the step a from was; it is added to the trace. */
    ghost method Follow(was: World, a: Action)
      requires was == Run(Start(), trace) && Possible(Start(), trace)
      requires Enabled(was, a) && View() == Step(was, a)
      modifies this`trace
      ensures Follows() && trace == old(trace) + [a]
    {
      hide Run, Step, Enabled;
      RunSnoc(Start(), trace, a);
      trace := trace + [a];
    }

    /** And the step was the call that had the reply r. */
    ghost method Record(was: World, a: Action, r: Reply)
      requires was == Run(Start(), trace) && Possible(Start(), trace)
      requires Enabled(was, a) && View() == Step(was, a)
      requires Served(launch, trace, arrived, answered, r.arrivals) && Answers(a, r, launch)
      modifies this`trace, this`answered
      ensures OnTrack([]) && answered == old(answered) + [r]
      ensures trace == old(trace) + [a] && Made(launch, trace) == Made(launch, old(trace)) + [a]
    {
      hide Run, Possible, Step, Enabled, Served, Made, Answers;
      ServedCall(launch, trace, arrived, answered, a, r);
      Follow(was, a);
      answered := answered + [r];
    }

    /** Updates reach the platform between any two calls: each call starts with those
        that arrived before it. */
    method Arrivals(us: seq<Update>)
      requires OnTrack([])
      modifies this`arrived, this`trace
      ensures OnTrack(us) && Made(launch, trace) == Made(launch, old(trace))
      ensures arrived == Absorbed(old(arrived), us)
    {
      hide Run, Possible, Served, Made, Absorbed;
      NothingAbsorbed(arrived);
      for i := 0 to |us|
        invariant OnTrack(us[..i]) && Made(launch, trace) == Made(launch, old(trace))
        invariant arrived == Absorbed(old(arrived), us[..i])
      {
        assert us[..i + 1] == us[..i] + [us[i]];
        AbsorbedSnoc(old(arrived), us[..i], us[i]);
        ServedArrival(launch, trace, arrived, answered, us[..i], us[i]);
        var high := if arrived == [] then 0 else arrived[|arrived| - 1].id;
        if us[i].id > 0 && us[i].id > high {
          ghost var was := View();
          arrived := arrived + [us[i]];
          Follow(was, Arrive(us[i]));
        }
      }
      assert us[..|us|] == us;
    }

    /** Loading the cursor at a start of the process. */
    method LoadCursor(configured: Bytes, at: int, reply: Reply) returns (position: Option<Cursor>)
      requires OnTrack([]) && process == Down
      requires configured == launch.cutover && at == launch.cutoff
      modifies this`arrived, this`cutover, this`cutoff, this`process, this`trace, this`answered
      ensures OnTrack([]) && answered == old(answered) + [reply] && arrived == Absorbed(old(arrived), reply.arrivals)
      ensures trace != [] && trace[|trace| - 1] == Boot(configured, at, reply.answer == Fine)
      ensures Made(launch, trace) == Made(launch, old(trace)) + [Boot(configured, at, reply.answer == Fine)]
      ensures position.Some? <==> reply.answer == Fine && Loads(disk)
      ensures position.Some? ==> position.value == Loaded(disk) && process == AfterBoot(position.value, configured)
      ensures position.Some? ==> cutover == configured && cutoff == at
      ensures position.None? ==> process == Down
    {
      hide Run, Possible, Served, Made, Absorbed;
      Arrivals(reply.arrivals);
      ghost var was := View();
      if reply.answer == Fine && Loads(disk) {
        position := Some(Loaded(disk));
        cutover, cutoff, process := configured, at, AfterBoot(position.value, configured);
      } else {
        position := None;
      }
      Record(was, Boot(configured, at, reply.answer == Fine), reply);
    }

    /** saveCursor: write, rename, and perhaps fail after either. */
    method SaveCursor(position: Cursor, reply: Reply) returns (ok: bool)
      requires OnTrack([])
      requires (process.Marking? || process.Finishing? || process.Saving?) && process.position == position
      modifies this`arrived, this`disk, this`process, this`trace, this`answered
      ensures OnTrack([]) && answered == old(answered) + [reply] && arrived == Absorbed(old(arrived), reply.arrivals)
      ensures trace != [] && trace[|trace| - 1] == Save(reply.effect, ok)
      ensures Made(launch, trace) == Made(launch, old(trace)) + [Save(reply.effect, ok)]
      ensures ok == (reply.answer == Fine)
      ensures process == if ok then AfterSave(old(process)) else Down
      ensures disk == if reply.effect || ok then Some(position) else old(disk)
    {
      hide Run, Possible, Served, Made, Absorbed;
      Arrivals(reply.arrivals);
      ghost var was := View();
      ok := reply.answer == Fine;
      if reply.effect || ok {
        disk := Some(position);
      }
      process := if ok then AfterSave(process) else Down;
      Record(was, Save(reply.effect, ok), reply);
    }

    method DropPendingUpdates(reply: Reply) returns (ok: bool)
      requires OnTrack([]) && process.Purging?
      modifies this`arrived, this`purged, this`purgeCalls, this`process, this`trace, this`answered
      ensures OnTrack([]) && answered == old(answered) + [reply] && arrived == Absorbed(old(arrived), reply.arrivals)
      ensures trace != [] && trace[|trace| - 1] == Purge(reply.effect, ok)
      ensures Made(launch, trace) == Made(launch, old(trace)) + [Purge(reply.effect, ok)]
      ensures ok == (reply.answer == Fine)
      ensures process == if ok then Finishing(old(process).position.(drop := Finished)) else Down
    {
      hide Run, Possible, Served, Made, Absorbed;
      Arrivals(reply.arrivals);
      ghost var was := View();
      ok := reply.answer == Fine;
      if reply.effect || ok {
        purged := purged + PendingIds(arrived, confirmed);
      }
      purgeCalls := purgeCalls + [cutover];
      process := if ok then Finishing(process.position.(drop := Finished)) else Down;
      Record(was, Purge(reply.effect, ok), reply);
    }

    /** A poll that answers anything but a valid batch is an error to the caller. */
    method PollUpdates(position: Cursor, reply: Reply) returns (updates: Option<seq<Update>>)
      requires OnTrack([]) && process == Polling(position)
      modifies this`arrived, this`confirmed, this`process, this`trace, this`answered
      ensures OnTrack([]) && answered == old(answered) + [reply] && arrived == Absorbed(old(arrived), reply.arrivals)
      ensures trace != [] && trace[|trace| - 1] == Poll(reply.effect, reply.answer == Fine, reply.batch)
      ensures Made(launch, trace) == Made(launch, old(trace)) + [Poll(reply.effect, reply.answer == Fine, reply.batch)]
      ensures process == if updates.Some? then Next(position, updates.value) else Polling(position)
      ensures updates == if reply.answer == Fine && |reply.batch| <= BATCH_LIMIT
        && ValidBatch(arrived, purged, position.last, reply.batch) then Some(reply.batch) else None
    {
      hide Run, Possible, ValidBatch, Served, Made, Absorbed;
      Arrivals(reply.arrivals);
      ghost var was := View();
      if reply.effect || reply.answer == Fine {
        confirmed := Max(confirmed, position.last + 1);
      }
      updates := None;
      if reply.answer == Fine && |reply.batch| <= BATCH_LIMIT && ValidBatch(arrived, purged, position.last, reply.batch) {
        updates := Some(reply.batch);
        process := Next(position, reply.batch);
      }
      Record(was, Poll(reply.effect, reply.answer == Fine, reply.batch), reply);
    }

    method CallInbound(u: Update, reply: Reply)
      requires OnTrack([]) && process.Handling? && process.batch != [] && process.batch[0] == u
      requires u.id > process.position.last && Eligible(u, cutoff)
      modifies this`arrived, this`accepted, this`process, this`trace, this`answered
      ensures OnTrack([]) && answered == old(answered) + [reply] && arrived == Absorbed(old(arrived), reply.arrivals)
      ensures trace != [] && trace[|trace| - 1] == Inbound(reply.effect, reply.answer)
      ensures Made(launch, trace) == Made(launch, old(trace)) + [Inbound(reply.effect, reply.answer)]
      ensures accepted == if reply.effect || reply.answer == Fine then old(accepted) + [u.id] else old(accepted)
      ensures process == match reply.answer
        case Fine => Saving(old(process).position.(last := u.id), old(process).batch[1..])
        case Fails => old(process)
        case CoreUnavailable => Down
    {
      hide Run, Possible, Eligible, Served, Made, Absorbed;
      Arrivals(reply.arrivals);
      ghost var was := View();
      if reply.effect || reply.answer == Fine {
        accepted := accepted + [u.id];
      }
      process := match reply.answer
        case Fine => Saving(process.position.(last := u.id), process.batch[1..])
        case Fails => process
        case CoreUnavailable => Down;
      Record(was, Inbound(reply.effect, reply.answer), reply);
    }

    /** Passing over an update without Core: not newer, or not eligible. */
    ghost method PassOver(u: Update)
      requires OnTrack([]) && process.Handling? && process.batch != [] && process.batch[0] == u
      requires u.id <= process.position.last || !Eligible(u, cutoff)
      modifies this`skipped, this`process, this`trace
      ensures OnTrack([]) && trace == old(trace) + [Skip] && Made(launch, trace) == Made(launch, old(trace))
      ensures process == if u.id <= old(process).position.last then Next(old(process).position, old(process).batch[1..])
        else Saving(old(process).position.(last := u.id), old(process).batch[1..])
    {
      hide Run, Possible, Eligible, Served, Made;
      ghost var was := View();
      if u.id <= process.position.last {
        process := Next(process.position, process.batch[1..]);
      } else {
        skipped := skipped[u.id := cutoff];
        process := Saving(process.position.(last := u.id), process.batch[1..]);
      }
      ServedSkip(launch, trace, arrived, answered);
      Follow(was, Skip);
    }

    ghost method Die()
      requires Follows()
      modifies this`process, this`trace
      ensures Follows() && process == Down && trace == old(trace) + [Crash]
    {
      hide Run, Possible;
      ghost var was := View();
      process := Down;
      Follow(was, Crash);
    }

    /** runTelegram after its identity checks: load, purge once at a cutover, then
        poll, hand over and save. When replies run out the process dies there.
        The steps added are the calls the program made, one per reply and each as
        answered, with what arrived in between and what it passed over. It answers
        Stopped exactly when it made a call for every reply and none of them ended
        it, and any other exit for the last call it made. */
    method RunTelegram(configured: Bytes, at: int, replies: seq<Reply>) returns (exit: Exit, ghost calls: nat)
      requires Follows() && process == Down
      modifies this
      ensures Follows() && process == Down && calls <= |replies| && old(trace) < trace
      ensures var before := Launch(old(trace), old(arrived), configured, at);
        if exit == Stopped then
          && calls == |replies| && trace[|trace| - 1] == Crash
          && Served(before, trace[..|trace| - 1], arrived, replies, [])
          && (calls > 0 ==> !Run(Start(), trace[..|trace| - 1]).process.Down?)
        else
          && Served(before, trace, arrived, replies[..calls], [])
          && ExitMatches(exit, trace[|trace| - 1], disk)
      ensures var held := if old(disk).Some? then old(disk).value else Cursor([], NotDropped, 0);
        GoesOn(held, configured, replies) && AllFine(replies, 0) ==>
          && exit == Stopped
          && (StartCalls(held, configured) < |replies| ==>
                Delivers(Launch(old(trace), old(arrived), configured, at), trace[..|trace| - 1],
                         old(accepted), accepted, purged, held, replies))
    {
      hide Follows, Served, ExitMatches, Run, Made, GoesOn, Delivers, AllFine, StartCalls;
      ghost var held := if disk.Some? then disk.value else Cursor([], NotDropped, 0);
      Begin(configured, at);
      exit, calls := StartAndPull(configured, at, replies);
      StepsAdded();
      if exit == Stopped {
        assert Run(Start(), trace) == View() by { Here(); }
        assert replies[..calls] == replies;
        ghost var made := trace;
        Die();
        assert trace[..|trace| - 1] == made;
      }
    }

    /** Up to where the process stops or dies. */
    method StartAndPull(configured: Bytes, at: int, replies: seq<Reply>) returns (exit: Exit, ghost calls: nat)
      requires OnTrack([]) && process == Down && answered == [] && trace == launch.trace
      requires launch.arrived == arrived && configured == launch.cutover && at == launch.cutoff
      modifies this`disk, this`arrived, this`purged, this`purgeCalls, this`confirmed, this`accepted, this`skipped
      modifies this`cutover, this`cutoff, this`process, this`trace, this`answered
      ensures OnTrack([]) && calls <= |replies| && answered == replies[..calls]
      ensures if exit == Stopped then calls == |replies| && (calls > 0 ==> !process.Down?)
        else process == Down && calls > 0 && trace != [] && ExitMatches(exit, trace[|trace| - 1], disk)
      ensures var held := if old(disk).Some? then old(disk).value else Cursor([], NotDropped, 0);
        GoesOn(held, configured, replies) && AllFine(replies, 0) ==>
          && exit == Stopped
          && (StartCalls(held, configured) < |replies| ==>
                Delivers(launch, trace, old(accepted), accepted, purged, held, replies))
    {
      hide OnTrack, ExitMatches, Made, GoesOn, Absorbed, ArrivalsOf, ValidBatch, GivenFirst, NewerIds, EligibleIds, Eligible, Loaded, InOrder, Delivers;
      ghost var held := if disk.Some? then disk.value else Cursor([], NotDropped, 0);
      var position, next;
      exit, position, next := StartUp(configured, at, replies);
      ghost var start, had := next, arrived;
      if exit == Stopped && next < |replies| {
        CallsAndArrivals();
        exit, next := PullLoop(position, at, replies, next);
        FineLater(replies);
        if GoesOn(held, configured, replies) && AllFine(replies, 0) {
          DeliversFrom(launch, trace, had, old(accepted), accepted, purged, held, replies);
        }
      }
      calls := next;
    }

    lemma FineLater(replies: seq<Reply>)
      ensures AllFine(replies, 0) ==> forall from: nat :: AllFine(replies, from)
    {}

    ghost method Begin(configured: Bytes, at: int)
      requires Follows()
      modifies this`launch, this`answered
      ensures OnTrack([]) && launch == Launch(trace, arrived, configured, at) && answered == []
    {
      launch, answered := Launch(trace, arrived, configured, at), [];
      ServedStart(launch);
    }

    lemma Here()
      requires Follows()
      ensures Run(Start(), trace) == View()
    {}

    lemma CallsAndArrivals()
      requires OnTrack([])
      ensures |Made(launch, trace)| == |answered| && arrived == Absorbed(launch.arrived, ArrivalsOf(answered))
    {
      hide Follows, Absorbed;
      assert ArrivalsOf(answered) + [] == ArrivalsOf(answered);
    }

    lemma StepsAdded()
      requires OnTrack([])
      ensures launch.trace <= trace && (answered != [] ==> launch.trace < trace)
    {}

    /** The part before the loop. Stopped means that it went through, or that
        replies ran out. */
    method StartUp(configured: Bytes, at: int, replies: seq<Reply>) returns (exit: Exit, position: Cursor, next: nat)
      requires OnTrack([]) && process == Down && answered == [] && trace == launch.trace
      requires configured == launch.cutover && at == launch.cutoff
      modifies this`disk, this`arrived, this`purged, this`purgeCalls, this`cutover, this`cutoff, this`process, this`trace, this`answered
      ensures OnTrack([]) && next <= |replies| && answered == replies[..next]
      ensures InOrder(Made(launch, trace))
      ensures (next == 0 ==> replies == []) && (exit == Stopped && next > 0 ==> !process.Down?)
      ensures exit == Stopped && next < |replies| ==>
        process == Polling(position) && cutoff == at && position == Loaded(disk)
        && (configured == [] || (position.cutover == configured && position.drop == Finished))
      ensures exit != Stopped ==> process == Down && next > 0 && trace != [] && ExitMatches(exit, trace[|trace| - 1], disk)
      ensures var held := if old(disk).Some? then old(disk).value else Cursor([], NotDropped, 0);
        var from := if NewCutover(held, configured) then Cursor(configured, Finished, held.last) else held;
        && (GoesOn(held, configured, replies) <==> exit == Stopped && process == Polling(from))
        && (GoesOn(held, configured, replies) ==> next == StartCalls(held, configured) && position == from)
        && (exit == CursorUnavailable <==> Failed(replies, 0) || (Granted(replies, 0) && held.last < 0))
        && (exit == PurgeUnknown <==> PurgeInDoubt(held, configured, replies))
        && (exit == SaveFailed <==> CanLoad(held, replies) && NewCutover(held, configured) && MarkOrFinishFails(replies))
        && exit != CoreGone
    {
      hide OnTrack, Absorbed, Made;
      MadeNothing(launch);
      position, next := Loaded(disk), 0;
      if next == |replies| {
        return Stopped, position, next;
      }
      var loaded := LoadCursor(configured, at, replies[next]);
      next := 1;
      if loaded.None? {
        return CursorUnavailable, position, next;
      }
      position := loaded.value;
      if configured != [] {
        if position.cutover != configured {
          exit, position, next := CutOver(configured, position, replies, next);
          return;
        } else if position.drop != Finished {
          return PurgeUnknown, position, next;
        }
      }
      return Stopped, position, next;
    }

    /** Mark, purge and finish at a new cutover. */
    method CutOver(configured: Bytes, position0: Cursor, replies: seq<Reply>, next0: nat)
      returns (exit: Exit, position: Cursor, next: nat)
      requires OnTrack([]) && process == Marking(Cursor(configured, Dispatched, position0.last))
      requires next0 == 1 <= |replies| && answered == replies[..next0]
      requires |Made(launch, trace)| == 1 && Made(launch, trace)[0].Boot? && Made(launch, trace)[0].readable
      modifies this`disk, this`arrived, this`purged, this`purgeCalls, this`process, this`trace, this`answered
      ensures OnTrack([]) && next0 <= next <= |replies| && answered == replies[..next]
      ensures InOrder(Made(launch, trace))
      ensures exit == Stopped ==> !process.Down?
      ensures exit == Stopped && next < |replies| ==>
        process == Polling(position) && position == Loaded(disk) == Cursor(configured, Finished, position0.last)
      ensures exit != Stopped ==> process == Down && trace != [] && ExitMatches(exit, trace[|trace| - 1], disk)
      ensures Granted(replies, 1) && Granted(replies, 2) && Granted(replies, 3) <==> exit == Stopped && process.Polling?
      ensures exit == Stopped && process.Polling? ==>
        next == 4 && position == Cursor(configured, Finished, position0.last) && process == Polling(position)
      ensures exit == PurgeUnknown <==> Granted(replies, 1) && Failed(replies, 2)
      ensures exit == SaveFailed <==> MarkOrFinishFails(replies)
      ensures exit != CursorUnavailable && exit != CoreGone
    {
      hide OnTrack, Absorbed, Loads, Loaded, Made, ExitMatches, InOrder, GoesOn;
      position, next := Cursor(configured, Dispatched, position0.last), next0;
      ghost var boot := Made(launch, trace)[0];
      ghost var mark, purge, finish := Save(true, true), Purge(true, true), Save(true, true);
      OrderedCalls(boot, mark, purge, finish);
      assert Made(launch, trace) == [boot];
      if next == |replies| {
        return Stopped, position, next;
      }
      var ok := SaveCursor(position, replies[next]);
      next := next + 1;
      mark := Save(replies[1].effect, ok);
      OrderedCalls(boot, mark, purge, finish);
      assert Made(launch, trace) == [boot, mark];
      if !ok {
        ForcedBySave(trace[|trace| - 1], disk);
        return SaveFailed, position, next;
      }
      if next == |replies| {
        return Stopped, position, next;
      }
      ok := DropPendingUpdates(replies[next]);
      next := next + 1;
      purge := Purge(replies[2].effect, ok);
      OrderedCalls(boot, mark, purge, finish);
      assert Made(launch, trace) == [boot, mark, purge];
      if !ok {
        ForcedByPurge(trace[|trace| - 1], disk);
        return PurgeUnknown, position, next;
      }
      position := position.(drop := Finished);
      if next == |replies| {
        return Stopped, position, next;
      }
      ok := SaveCursor(position, replies[next]);
      next := next + 1;
      finish := Save(replies[3].effect, ok);
      OrderedCalls(boot, mark, purge, finish);
      assert Made(launch, trace) == [boot, mark, purge, finish];
      if !ok {
        ForcedBySave(trace[|trace| - 1], disk);
        return SaveFailed, position, next;
      }
      JustSaved(position);
      return Stopped, position, next;
    }

    lemma JustSaved(position: Cursor)
      requires disk == Some(position)
      ensures Loaded(disk) == position
    {}

    method PullLoop(position0: Cursor, at: int, replies: seq<Reply>, next0: nat) returns (exit: Exit, next: nat)
      requires OnTrack([]) && process == Polling(position0) && cutoff == at
      requires 0 < next0 < |replies| && answered == replies[..next0] && |Made(launch, trace)| == next0
      modifies this`disk, this`arrived, this`confirmed, this`accepted, this`skipped, this`process, this`trace, this`answered
      ensures OnTrack([]) && next0 < next <= |replies| && answered == replies[..next]
      ensures exit == Stopped ==> next == |replies| && !process.Down?
      ensures exit != Stopped ==> process == Down && trace != [] && ExitMatches(exit, trace[|trace| - 1], disk)
      ensures AllFine(replies, next0) ==> exit == Stopped
      ensures PolledAt(Made(launch, trace), next0)
      ensures old(accepted) <= accepted
      ensures AllFine(replies, next0) && |replies[next0].batch| <= 100
        && ValidBatch(Absorbed(old(arrived), replies[next0].arrivals), purged, position0.last, replies[next0].batch)
        && next0 + 1 + 2 * |replies[next0].batch| <= |replies|
        ==> GivenFirst(old(accepted), accepted, NewerIds(position0.last, replies[next0].batch, at))
    {
      hide OnTrack, ExitMatches, Eligible, ValidBatch, Made, NewerIds, GivenFirst, WithoutRepeats, Absorbed;
      var position;
      position, next := position0, next0;
      ghost var batch := replies[next0].batch;
      ghost var ids := NewerIds(position0.last, batch, at);
      ghost var first := AllFine(replies, next0) && |batch| <= 100
        && ValidBatch(Absorbed(arrived, replies[next0].arrivals), purged, position0.last, batch)
        && next0 + 1 + 2 * |batch| <= |replies|;
      while next < |replies|
        invariant OnTrack([]) && process == Polling(position) && cutoff == at
        invariant next0 <= next <= |replies| && answered == replies[..next]
        invariant next == next0 ==> position == position0 && accepted == old(accepted) && arrived == old(arrived)
        invariant if next == next0 then |Made(launch, trace)| == next0 else PolledAt(Made(launch, trace), next0)
        invariant old(accepted) <= accepted
        invariant first && next > next0 ==> GivenFirst(old(accepted), accepted, ids)
        decreases |replies| - next
      {
        ghost var had := accepted;
        var updates := PollUpdates(position, replies[next]);
        next := next + 1;
        if updates.Some? {
          ghost var polled := next;
          exit, position, next := HandleBatch(position, updates.value, at, replies, next);
          if first {
            if polled == next0 + 1 {
              GivenNow(had, accepted, ids);
            } else {
              GivenStays(old(accepted), had, accepted, ids);
            }
          }
          if exit != Stopped || next == |replies| {
            return;
          }
        }
      }
      return Stopped, next;
    }

    /** The retry loop around Core's acceptance of one update. Stopped means
        accepted, or that replies ran out. Every reply but the last was a failure
        that could be retried, and Core has the update once per reply that took
        effect. */
    method OfferUntilAccepted(u: Update, rest: seq<Update>, position: Cursor, at: int, replies: seq<Reply>, next0: nat)
      returns (exit: Exit, next: nat)
      requires OnTrack([]) && process == Handling(position, [u] + rest) && cutoff == at
      requires u.id > position.last && Eligible(u, at)
      requires next0 < |replies| && answered == replies[..next0]
      modifies this`arrived, this`accepted, this`process, this`trace, this`answered
      ensures OnTrack([]) && next0 < next <= |replies| && answered == replies[..next]
      ensures AllFail(replies, next0, next - 1)
      ensures accepted == old(accepted) + Offered(u.id, replies[next0..next])
      ensures match replies[next - 1].answer
        case Fine => exit == Stopped && process == Saving(position.(last := u.id), rest)
        case Fails => exit == Stopped && next == |replies| && process == old(process)
        case CoreUnavailable => exit == CoreGone && process == Down
      ensures exit != Stopped ==> trace != [] && ExitMatches(exit, trace[|trace| - 1], disk)
      ensures Longer(Made(launch, old(trace)), Made(launch, trace))
    {
      hide OnTrack, Absorbed, Eligible, Made, Offered, Longer, ExitMatches, AllFail;
      LongerRules(Made(launch, trace), [], []);
      next := next0;
      ghost var batch := [u] + rest;
      assert batch[0] == u && batch[1..] == rest;
      AllFailNext(replies, next0, next0);
      NothingOffered(u.id);
      assert replies[next0..next0] == [] && accepted + [] == accepted;
      while next < |replies|
        invariant OnTrack([]) && process == Handling(position, batch)
        invariant next0 <= next <= |replies| && answered == replies[..next]
        invariant AllFail(replies, next0, next)
        invariant accepted == old(accepted) + Offered(u.id, replies[next0..next])
        invariant Longer(Made(launch, old(trace)), Made(launch, trace))
        decreases |replies| - next
      {
        LongerByOne(Made(launch, old(trace)), Made(launch, trace), Inbound(replies[next].effect, replies[next].answer));
        CallInbound(u, replies[next]);
        PrefixNext(replies, next);
        AllFailNext(replies, next0, next);
        next := next + 1;
        OfferedNext(old(accepted), u.id, replies, next0, next - 1);
        match replies[next - 1].answer {
          case Fine =>
            return Stopped, next;
          case CoreUnavailable =>
            ForcedByCore(trace[|trace| - 1], disk);
            return CoreGone, next;
          case Fails =>
        }
      }
      AllFailLast(replies, next0, next);
      return Stopped, next;
    }

    /** One newer update: offered or passed over, and then the position saved. given
        is what Core got; done says that it went through. */
    method HandleUpdate(u: Update, rest: seq<Update>, position0: Cursor, at: int, replies: seq<Reply>, next0: nat)
      returns (exit: Exit, next: nat, done: bool, ghost given: seq<int>)
      requires OnTrack([]) && process == Handling(position0, [u] + rest) && cutoff == at && u.id > position0.last
      requires 0 < next0 <= |replies| && answered == replies[..next0]
      modifies this`disk, this`arrived, this`accepted, this`skipped, this`process, this`trace, this`answered
      ensures OnTrack([]) && next0 <= next <= |replies| && answered == replies[..next]
      ensures accepted == old(accepted) + given && (forall x <- given :: x == u.id) && (given != [] ==> Eligible(u, at))
      ensures done ==> process == Next(position0.(last := u.id), rest) && disk == Some(position0.(last := u.id))
      ensures done ==> exit == Stopped && (Eligible(u, at) ==> given != [])
      ensures !done && exit == Stopped ==> next == |replies| && (process.Handling? || process.Saving?)
      ensures exit != Stopped ==> process == Down && trace != [] && ExitMatches(exit, trace[|trace| - 1], disk)
      ensures AllFine(replies, next0) ==> exit == Stopped && (next0 + 2 <= |replies| ==> done && next <= next0 + 2)
      ensures Longer(Made(launch, old(trace)), Made(launch, trace))
    {
      hide OnTrack, Absorbed, Eligible, Made, Offered, Longer, ExitMatches;
      LongerRules(Made(launch, trace), [], []);
      next, given := next0, [];
      assert accepted + [] == accepted;
      if Eligible(u, at) {
        if next == |replies| {
          return Stopped, next, false, given;
        }
        exit, next := OfferUntilAccepted(u, rest, position0, at, replies, next0);
        assert AllFine(replies, next0) ==> replies[next0].answer == Fine;
        assert next - 1 > next0 ==> replies[next0].answer == Fails;
        given := Offered(u.id, replies[next0..next]);
        OfferedAre(u.id, replies[next0..next]);
        assert replies[next - 1] in replies[next0..next];
        if replies[next - 1].answer != Fine {
          return exit, next, false, given;
        }
      } else {
        assert ([u] + rest)[1..] == rest;
        PassOver(u);
      }
      var position := position0.(last := u.id);
      if next == |replies| {
        return Stopped, next, false, given;
      }
      ghost var made := Made(launch, trace);
      var ok := SaveCursor(position, replies[next]);
      LongerByOne(Made(launch, old(trace)), made, Save(replies[next].effect, ok));
      next := next + 1;
      if !ok {
        ForcedBySave(trace[|trace| - 1], disk);
      }
      return if ok then Stopped else SaveFailed, next, ok, given;
    }

    /** The loop over one batch. Stopped means done, or that replies ran out. What
        Core has more, repeats apart, is a first part of the eligible newer ids of
        the batch in order, and all of them once the loop is done; the position is
        then that of the last newer update, and persisted. */
    method HandleBatch(position0: Cursor, batch0: seq<Update>, at: int, replies: seq<Reply>, next0: nat)
      returns (exit: Exit, position: Cursor, next: nat)
      requires OnTrack([]) && process == Next(position0, batch0) && cutoff == at
      requires 0 < next0 <= |replies| && answered == replies[..next0]
      modifies this`disk, this`arrived, this`accepted, this`skipped, this`process, this`trace, this`answered
      ensures OnTrack([]) && next0 <= next <= |replies| && answered == replies[..next]
      ensures exit == Stopped ==> !process.Down? && (next < |replies| ==> process == Polling(position))
      ensures exit != Stopped ==> process == Down && trace != [] && ExitMatches(exit, trace[|trace| - 1], disk)
      ensures old(accepted) <= accepted
        && WithoutRepeats(accepted[|old(accepted)|..]) <= NewerIds(position0.last, batch0, at)
      ensures exit == Stopped && process == Polling(position) ==>
        && WithoutRepeats(accepted[|old(accepted)|..]) == NewerIds(position0.last, batch0, at)
        && position == position0.(last := LastOfBatch(position0.last, batch0))
        && disk == if position == position0 then old(disk) else Some(position)
      ensures AllFine(replies, next0) ==> exit == Stopped
      ensures AllFine(replies, next0) && next0 + 2 * |batch0| <= |replies| ==>
        process == Polling(position) && next <= next0 + 2 * |batch0|
      ensures Longer(Made(launch, old(trace)), Made(launch, trace))
    {
      hide OnTrack, Absorbed, Eligible, Made, Offered, Longer, Handed, WithoutRepeats, NewerIds, LastOfBatch, ExitMatches, Calls;
      position, next := position0, next0;
      var batch := batch0;
      LongerRules(Made(launch, trace), [], []);
      ghost var more: seq<int> := [];
      ghost var all, end := NewerIds(position0.last, batch0, at), LastOfBatch(position0.last, batch0);
      HandedStart(position0.last, batch0, at);
      while batch != []
        invariant OnTrack([]) && process == Next(position, batch)
        invariant next0 <= next <= |replies| && answered == replies[..next]
        invariant position0.last <= position.last && position == position0.(last := position.last)
        invariant disk == if position == position0 then old(disk) else Some(position)
        invariant accepted == old(accepted) + more && Handed(more, all, end, position.last, batch, at)
        invariant Longer(Made(launch, old(trace)), Made(launch, trace))
        invariant AllFine(replies, next0) && next0 + 2 * |batch0| <= |replies| ==> next + 2 * |batch| <= next0 + 2 * |batch0|
        decreases |batch|
      {
        HandedPart(more, all, end, position.last, batch, at);
        assert accepted[|old(accepted)|..] == more;
        var u := batch[0];
        assert [u] + batch[1..] == batch;
        batch := batch[1..];
        if u.id <= position.last {
          HandedOver(more, all, end, position.last, u, batch, at);
          PassOver(u);
          continue;
        }
        ghost var given;
        var done;
        ghost var made := Made(launch, trace);
        exit, next, done, given := HandleUpdate(u, batch, position, at, replies, next);
        LongerRules(Made(launch, old(trace)), made, Made(launch, trace));
        HandedOne(more, all, end, position.last, u, batch, at, given);
        more := more + given;
        assert accepted[|old(accepted)|..] == more;
        if !done {
          return exit, position, next;
        }
        position := position.(last := u.id);
      }
      HandedPart(more, all, end, position.last, batch, at);
      assert accepted[|old(accepted)|..] == more;
      return Stopped, position, next;
    }
  }
}
