/** The Telegram pull loop as a protocol between a process that may stop between
    any two steps, its cursor file, the platform and Core. */
module TelegramPull {
  import opened Prelude

  const BATCH_LIMIT := 100

  datatype DropState = NotDropped | Dispatched | Finished

  datatype Cursor = Cursor(cutover: Bytes, drop: DropState, last: int)

  /** An update, with what the event mapping and the command filter say of it. */
  datatype Update = Update(id: int, recognized: bool, date: int, forOtherBot: bool)

  /** cutoff is zero when no cutover is configured. */
  predicate Eligible(u: Update, cutoff: int) {
    u.recognized && !(cutoff > 0 && u.date <= cutoff) && !u.forOtherBot
  }

  /** Where the process is: down, or about to take the step named, with the
      cursor it holds in memory and the updates of the batch not yet handled. */
  datatype Process =
    | Down
    | Marking(position: Cursor)
    | Purging(position: Cursor)
    | Finishing(position: Cursor)
    | Polling(position: Cursor)
    | Handling(position: Cursor, batch: seq<Update>)
    | Saving(position: Cursor, batch: seq<Update>)

  /** The cursor file; the platform (all updates that ever arrived, those dropped
      by a purge, the largest offset it was told); Core (ids in the order it
      accepted them, with repeats); and, only observing, the updates skipped with
      the cutoff in force, the purges called, and the process. */
  datatype World = World(
    disk: Option<Cursor>,
    arrived: seq<Update>, purged: set<int>, confirmed: int,
    accepted: seq<int>,
    skipped: map<int, int>, purgeCalls: seq<Bytes>,
    cutover: Bytes, cutoff: int, process: Process)

  ghost function Start(): World {
    World(None, [], {}, 0, [], map[], [], [], 0, Down)
  }

  function Loaded(disk: Option<Cursor>): Cursor {
    if disk.Some? then disk.value else Cursor([], NotDropped, 0)
  }

  /** loadCursor rejects a negative position. */
  predicate Loads(disk: Option<Cursor>) {
    Loaded(disk).last >= 0
  }

  function Last(w: World): int {
    Loaded(w.disk).last
  }

  /** The largest id that has arrived. */
  function High(w: World): int {
    if w.arrived == [] then 0 else w.arrived[|w.arrived| - 1].id
  }

  predicate Ascending(us: seq<Update>) {
    forall i, j :: 0 <= i < j < |us| ==> us[i].id < us[j].id
  }

  /** The platform's contract for one answer: pending updates from the offset on,
      in ascending order, none left out before the last one returned. */
  predicate ValidBatch(arrived: seq<Update>, purged: set<int>, from: int, batch: seq<Update>) {
    && Ascending(batch)
    && (forall u <- batch :: u in arrived && u.id > from && u.id !in purged)
    && (batch != [] ==>
          forall u <- arrived :: from < u.id <= batch[|batch| - 1].id && u.id !in purged ==> u in batch)
  }

  /** What the platform has not been told to forget. */
  function PendingIds(arrived: seq<Update>, confirmed: int): set<int> {
    set u | u in arrived && u.id >= confirmed :: u.id
  }

  datatype Answer = Fine | Fails | CoreUnavailable

  /** One step. effect says whether a call took effect, whatever it answered. */
  datatype Action =
    | Arrive(update: Update)
    | Boot(cutover: Bytes, cutoff: int, readable: bool)
    | Save(effect: bool, ok: bool)
    | Purge(effect: bool, ok: bool)
    | Poll(reached: bool, ok: bool, batch: seq<Update>)
    | Skip
    | Inbound(effect: bool, answer: Answer)
    | Crash

  function AfterBoot(position: Cursor, cutover: Bytes): Process {
    if cutover == [] then Polling(position)
    else if position.cutover != cutover then Marking(Cursor(cutover, Dispatched, position.last))
    else if position.drop != Finished then Down
    else Polling(position)
  }

  function Next(position: Cursor, batch: seq<Update>): Process {
    if batch == [] then Polling(position) else Handling(position, batch)
  }

  function AfterSave(p: Process): Process
    requires p.Marking? || p.Finishing? || p.Saving?
  {
    match p
    case Marking(position) => Purging(position)
    case Finishing(position) => Polling(position)
    case Saving(position, batch) => Next(position, batch)
  }

  /** A failed save leaves the loop with an error; so does a purge whose outcome
      is unknown. Accepting is retried until Core answers. */
  ghost function Step(w: World, a: Action): World {
    match a
    case Arrive(u) =>
      if u.id > 0 && u.id > High(w) then w.(arrived := w.arrived + [u]) else w
    case Boot(cutover, cutoff, readable) =>
      if !w.process.Down? then w
      else if !readable || !Loads(w.disk) then w
      else w.(cutover := cutover, cutoff := cutoff, process := AfterBoot(Loaded(w.disk), cutover))
    case Save(effect, ok) =>
      if !(w.process.Marking? || w.process.Finishing? || w.process.Saving?) then w
      else w.(disk := if effect || ok then Some(w.process.position) else w.disk,
              process := if ok then AfterSave(w.process) else Down)
    case Purge(effect, ok) =>
      if !w.process.Purging? then w
      else w.(purged := if effect || ok then w.purged + PendingIds(w.arrived, w.confirmed) else w.purged,
              purgeCalls := w.purgeCalls + [w.cutover],
              process := if ok then Finishing(w.process.position.(drop := Finished)) else Down)
    case Poll(reached, ok, batch) =>
      if !w.process.Polling? then w
      else
        var position := w.process.position;
        var answered := ok && |batch| <= BATCH_LIMIT && ValidBatch(w.arrived, w.purged, position.last, batch);
        w.(confirmed := if reached || ok then Max(w.confirmed, position.last + 1) else w.confirmed,
           process := if answered then Next(position, batch) else w.process)
    case Skip =>
      if !w.process.Handling? || w.process.batch == [] then w
      else
        var u, rest, position := w.process.batch[0], w.process.batch[1..], w.process.position;
        if u.id <= position.last then w.(process := Next(position, rest))
        else if Eligible(u, w.cutoff) then w
        else w.(skipped := w.skipped[u.id := w.cutoff], process := Saving(position.(last := u.id), rest))
    case Inbound(effect, answer) =>
      if !w.process.Handling? || w.process.batch == [] then w
      else
        var u, rest, position := w.process.batch[0], w.process.batch[1..], w.process.position;
        if u.id <= position.last || !Eligible(u, w.cutoff) then w
        else
          w.(accepted := if effect || answer == Fine then w.accepted + [u.id] else w.accepted,
             process := match answer
               case Fine => Saving(position.(last := u.id), rest)
               case Fails => w.process
               case CoreUnavailable => Down)
    case Crash => w.(process := Down)
  }

  function Max(a: int, b: int): int {
    if a > b then a else b
  }

  ghost function Run(w: World, actions: seq<Action>): World {
    if actions == [] then w else Step(Run(w, actions[..|actions| - 1]), actions[|actions| - 1])
  }

  /** The steps the process itself can be about to take. */
  predicate Enabled(w: World, a: Action) {
    match a
    case Arrive(u) => u.id > 0 && u.id > High(w)
    case Boot(_, _, _) => w.process.Down?
    case Save(_, _) => w.process.Marking? || w.process.Finishing? || w.process.Saving?
    case Purge(_, _) => w.process.Purging?
    case Poll(_, _, _) => w.process.Polling?
    case Skip => w.process.Handling? && w.process.batch != []
      && (w.process.batch[0].id <= w.process.position.last || !Eligible(w.process.batch[0], w.cutoff))
    case Inbound(_, _) => w.process.Handling? && w.process.batch != []
      && w.process.batch[0].id > w.process.position.last && Eligible(w.process.batch[0], w.cutoff)
    case Crash => true
  }

  ghost predicate Possible(w: World, actions: seq<Action>) {
    actions != [] ==>
      && Possible(w, actions[..|actions| - 1])
      && Enabled(Run(w, actions[..|actions| - 1]), actions[|actions| - 1])
  }

  lemma RunSnoc(w: World, actions: seq<Action>, a: Action)
    ensures Run(w, actions + [a]) == Step(Run(w, actions), a)
    ensures Possible(w, actions + [a]) <==> Possible(w, actions) && Enabled(Run(w, actions), a)
  {
    assert (actions + [a])[..|actions|] == actions;
  }

  // ----- The invariant -----

  ghost predicate Accounted(w: World, id: int) {
    id in w.accepted || id in w.purged || id in w.skipped
  }

  ghost predicate AccountedTo(w: World, last: int) {
    0 <= last <= High(w) && forall u <- w.arrived :: u.id <= last ==> Accounted(w, u.id)
  }

  ghost predicate SkippedRightly(w: World) {
    && (forall id <- w.skipped :: id <= High(w))
    && forall u <- w.arrived :: u.id in w.skipped ==> !Eligible(u, w.skipped[u.id])
  }

  ghost predicate NonDecreasing(ids: seq<int>) {
    forall i, j :: 0 <= i < j < |ids| ==> ids[i] <= ids[j]
  }

  function Top(ids: seq<int>): int {
    if ids == [] then 0 else ids[|ids| - 1]
  }

  /** Core has accepted in order, and nothing is left between the persisted
      position and the newest id accepted but what a purge dropped. */
  ghost predicate Ordered(w: World) {
    && NonDecreasing(w.accepted) && Top(w.accepted) <= High(w)
    && forall u <- w.arrived :: Last(w) < u.id < Top(w.accepted) ==> u.id in w.purged
  }

  ghost predicate PurgeSettled(w: World, position: Cursor) {
    w.cutover == [] || (position.cutover == w.cutover && position.drop == Finished)
  }

  ghost predicate ProcessInv(w: World) {
    var disk := Loaded(w.disk);
    match w.process
    case Down => true
    case Marking(p) => p == Cursor(w.cutover, Dispatched, disk.last) && w.cutover != []
    case Purging(p) => w.disk == Some(p) && p.cutover == w.cutover && w.cutover != []
    case Finishing(p) => p == disk.(drop := Finished) && p.cutover == w.cutover && w.cutover != []
    case Polling(p) => p == disk && PurgeSettled(w, p)
    case Handling(p, batch) =>
      p == disk && PurgeSettled(w, p) && batch != [] && ValidBatch(w.arrived, w.purged, p.last, batch)
    case Saving(p, batch) =>
      && p.(last := disk.last) == disk && PurgeSettled(w, p) && disk.last <= p.last
      && AccountedTo(w, p.last) && ValidBatch(w.arrived, w.purged, p.last, batch)
  }

  ghost predicate Inv(w: World) {
    && Ascending(w.arrived) && (forall u <- w.arrived :: u.id > 0)
    && AccountedTo(w, Last(w)) && w.confirmed <= Last(w) + 1
    && SkippedRightly(w) && Ordered(w)
    && ProcessInv(w)
  }

  lemma HighBounds(w: World)
    requires Ascending(w.arrived)
    ensures forall u <- w.arrived :: u.id <= High(w)
  {}

  lemma AscendingTail(batch: seq<Update>)
    requires Ascending(batch) && batch != []
    ensures Ascending(batch[1..]) && batch[0].id <= batch[|batch| - 1].id
    ensures forall u <- batch[1..] :: u in batch && batch[0].id < u.id
    ensures forall u <- batch :: u == batch[0] || u in batch[1..]
  {
    assert batch == [batch[0]] + batch[1..];
  }

  lemma RestOfBatch(arrived: seq<Update>, purged: set<int>, from: int, batch: seq<Update>)
    requires ValidBatch(arrived, purged, from, batch) && batch != []
    ensures from < batch[0].id && batch[0] in arrived && batch[0].id !in purged
    ensures ValidBatch(arrived, purged, batch[0].id, batch[1..])
    ensures forall u <- arrived :: from < u.id < batch[0].id ==> u.id in purged
  {
    AscendingTail(batch);
    hide Ascending;
    forall u <- arrived | from < u.id < batch[0].id ensures u.id in purged {
      assert u.id !in purged ==> u in batch;
    }
    if |batch| > 1 {
      assert batch[1..][|batch[1..]| - 1] == batch[|batch| - 1];
    }
  }

  lemma ArriveInv(w: World, u: Update)
    requires Inv(w) && u.id > 0 && u.id > High(w)
    ensures Inv(w.(arrived := w.arrived + [u]))
  {
    hide Eligible, ValidBatch;
    HighBounds(w);
    var w' := w.(arrived := w.arrived + [u]);
    assert High(w') == u.id;
    if w.process.Handling? || w.process.Saving? {
      BatchAfterArrival(w, u, w.process.position.last, w.process.batch);
    }
  }

  lemma BatchAfterArrival(w: World, u: Update, from: int, batch: seq<Update>)
    requires Ascending(w.arrived) && u.id > High(w) && ValidBatch(w.arrived, w.purged, from, batch)
    ensures ValidBatch(w.arrived + [u], w.purged, from, batch)
  {
    HighBounds(w);
    if batch != [] {
      assert batch[|batch| - 1] in batch;
    }
  }

  lemma BootInv(w: World, cutover: Bytes, cutoff: int)
    requires Inv(w) && w.process.Down? && Loads(w.disk)
    ensures Inv(Step(w, Boot(cutover, cutoff, true)))
  {
    hide Eligible, ValidBatch, Ordered, SkippedRightly, AccountedTo, Ascending;
    FrameInv(w, Step(w, Boot(cutover, cutoff, true)));
  }

  /** What the steps that change only the process and its configuration keep. */
  lemma FrameInv(w: World, w': World)
    requires w'.arrived == w.arrived && w'.purged == w.purged && w'.accepted == w.accepted && w'.skipped == w.skipped
    requires Last(w') == Last(w)
    ensures Ordered(w') == Ordered(w) && SkippedRightly(w') == SkippedRightly(w)
    ensures forall last :: AccountedTo(w', last) == AccountedTo(w, last)
  {
    assert High(w') == High(w);
  }

  lemma SaveInv(w: World, effect: bool, ok: bool)
    requires Inv(w) && (w.process.Marking? || w.process.Finishing? || w.process.Saving?)
    ensures Inv(Step(w, Save(effect, ok)))
  {
    hide Eligible, ValidBatch, SkippedRightly, Ascending, NonDecreasing, AccountedTo;
    var w' := Step(w, Save(effect, ok));
    assert High(w') == High(w) && w'.skipped == w.skipped;
    SkippedFrame(w, w');
    AccountedFrame(w, w');
  }

  lemma SkippedFrame(w: World, w': World)
    requires SkippedRightly(w) && w'.arrived == w.arrived && w'.skipped == w.skipped
    ensures SkippedRightly(w')
  {
    assert High(w') == High(w);
  }

  lemma AccountedFrame(w: World, w': World)
    requires w'.arrived == w.arrived && w'.skipped.Keys >= w.skipped.Keys && w'.purged >= w.purged
    requires w.accepted <= w'.accepted
    ensures forall last :: AccountedTo(w, last) ==> AccountedTo(w', last)
  {
    assert High(w') == High(w);
  }

  lemma PurgeInv(w: World, effect: bool, ok: bool)
    requires Inv(w) && w.process.Purging?
    ensures Inv(Step(w, Purge(effect, ok)))
  {
    hide Eligible, ValidBatch, SkippedRightly, Ascending, NonDecreasing, AccountedTo;
    var w' := Step(w, Purge(effect, ok));
    assert High(w') == High(w);
    SkippedFrame(w, w');
    AccountedFrame(w, w');
  }

  lemma PollInv(w: World, reached: bool, ok: bool, batch: seq<Update>)
    requires Inv(w) && w.process.Polling?
    ensures Inv(Step(w, Poll(reached, ok, batch)))
  {
    hide Eligible, ValidBatch, Ordered, SkippedRightly, AccountedTo, Ascending;
    FrameInv(w, Step(w, Poll(reached, ok, batch)));
  }

  lemma HandledAccounted(w: World, w': World)
    requires Inv(w) && w.process.Handling? && w'.arrived == w.arrived
    requires w'.skipped.Keys >= w.skipped.Keys && w'.purged == w.purged && w.accepted <= w'.accepted
    requires Accounted(w', w.process.batch[0].id)
    ensures AccountedTo(w', w.process.batch[0].id)
  {
    hide Eligible, SkippedRightly, Ordered, ValidBatch;
    var u := w.process.batch[0];
    RestOfBatch(w.arrived, w.purged, Last(w), w.process.batch);
    HighBounds(w);
    assert High(w') == High(w);
  }

  lemma SkipInv(w: World)
    requires Inv(w) && w.process.Handling?
    ensures Inv(Step(w, Skip))
  {
    var u, rest := w.process.batch[0], w.process.batch[1..];
    RestOfBatch(w.arrived, w.purged, Last(w), w.process.batch);
    HighBounds(w);
    if !Eligible(u, w.cutoff) {
      var w' := Step(w, Skip);
      HandledAccounted(w, w');
      AccountedFrame(w, w');
      OnlyUpdateWithId(w.arrived, u);
      hide ValidBatch, AccountedTo, Ordered, Eligible;
      OrderedFrame(w, w');
    }
  }

  lemma OnlyUpdateWithId(arrived: seq<Update>, u: Update)
    requires Ascending(arrived) && u in arrived
    ensures forall v <- arrived :: v.id == u.id ==> v == u
  {}

  lemma OrderedFrame(w: World, w': World)
    requires Ordered(w) && w'.arrived == w.arrived && w'.purged == w.purged && w'.accepted == w.accepted
    requires w'.disk == w.disk
    ensures Ordered(w')
  {
    assert High(w') == High(w);
  }

  lemma AcceptedOrdered(w: World, w': World)
    requires Inv(w) && w.process.Handling? && w'.arrived == w.arrived && w'.purged == w.purged && w'.disk == w.disk
    requires w'.accepted == w.accepted + [w.process.batch[0].id]
    ensures Ordered(w')
  {
    hide Eligible, SkippedRightly, AccountedTo;
    var u := w.process.batch[0];
    RestOfBatch(w.arrived, w.purged, Last(w), w.process.batch);
    HighBounds(w);
    hide ValidBatch;
    assert High(w') == High(w);
    assert Top(w.accepted) <= u.id;
  }

  lemma InboundInv(w: World, effect: bool, answer: Answer)
    requires Inv(w) && w.process.Handling?
    ensures Inv(Step(w, Inbound(effect, answer)))
  {
    hide Eligible, Ascending, NonDecreasing;
    var u := w.process.batch[0];
    RestOfBatch(w.arrived, w.purged, Last(w), w.process.batch);
    var w' := Step(w, Inbound(effect, answer));
    hide ValidBatch;
    if w'.accepted != w.accepted {
      AcceptedOrdered(w, w');
      HandledAccounted(w, w');
    } else {
      OrderedFrame(w, w');
    }
    AccountedFrame(w, w');
    SkippedFrame(w, w');
    hide Ordered, AccountedTo, SkippedRightly;
  }

  lemma StepInv(w: World, a: Action)
    requires Inv(w)
    ensures Inv(Step(w, a))
  {
    hide Inv, Eligible;
    match a {
      case Arrive(u) => if u.id > 0 && u.id > High(w) { ArriveInv(w, u); }
      case Boot(cutover, cutoff, readable) =>
        if w.process.Down? && readable && Loads(w.disk) { BootInv(w, cutover, cutoff); }
      case Save(effect, ok) =>
        if w.process.Marking? || w.process.Finishing? || w.process.Saving? { SaveInv(w, effect, ok); }
      case Purge(effect, ok) => if w.process.Purging? { PurgeInv(w, effect, ok); }
      case Poll(reached, ok, batch) => if w.process.Polling? { PollInv(w, reached, ok, batch); }
      case Skip => if w.process.Handling? { SkipInv(w); }
      case Inbound(effect, answer) => if w.process.Handling? { InboundInv(w, effect, answer); }
      case Crash => CrashInv(w);
    }
  }

  lemma CrashInv(w: World)
    requires Inv(w)
    ensures Inv(w.(process := Down))
  {
    hide Eligible, ValidBatch, SkippedRightly, Ordered, AccountedTo, Ascending;
    FrameInv(w, w.(process := Down));
  }
}
