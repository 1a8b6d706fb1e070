/** The chat snapshot: a bounded retry around a read made outside the mutex. */
module Snapshot {
  import opened Prelude
  import opened Events
  import Owner
  import EventHub
  import HubRuns
  import KeyOrder

  const ATTEMPTS := 3

  /** The server's fields in one critical section. */
  datatype Look = Look(
    stateSeq: nat, eventSeq: nat, generation: Bytes, running: map<Bytes, Owner.Execution>,
    streams: Streams, stopping: bool)

  /** One attempt: what the first section saw, what the read outside the mutex
      answered (the keys of the turns, or an error), what the second section saw. */
  datatype Attempt = Attempt(before: Look, turns: Option<seq<Bytes>>, after: Look)

  datatype Payload = Payload(
    turns: seq<Bytes>, streams: seq<Stream>, busy: bool, stopping: bool, runningElsewhere: bool,
    activeChat: Bytes, activeChats: seq<Bytes>, generation: Bytes, snapshotSeq: nat, stable: bool,
    backgroundActive: bool)

  function ExecutionOf(running: map<Bytes, Owner.Execution>, chat: Bytes): Option<Owner.Execution> {
    if chat in running then Some(running[chat]) else None
  }

  predicate Stable(a: Attempt, chat: Bytes) {
    && ExecutionOf(a.before.running, chat) == ExecutionOf(a.after.running, chat)
    && a.before.stateSeq == a.after.stateSeq
  }

  /** s once per turn that shows its run. */
  function Copies(s: Stream, turns: seq<Bytes>): seq<Stream> {
    if turns == [] then []
    else Copies(s, turns[..|turns| - 1]) + (if s.run == turns[|turns| - 1] then [s] else [])
  }

  /** The streams with these keys, in this order, once per turn that shows them. */
  function ShownInOrder(streams: Streams, order: seq<Bytes>, turns: seq<Bytes>): seq<Stream>
    requires forall id <- order :: id in streams
  {
    if order == [] then []
    else
      var n := |order| - 1;
      ShownInOrder(streams, order[..n], turns) + Copies(streams[order[n]], turns)
  }

  ghost predicate Ordering(order: seq<Bytes>, ids: set<Bytes>) {
    KeyOrder.NoDuplicates(order) && forall id :: id in order <==> id in ids
  }

  /** shown lists every stream once per turn that shows its run, by some order of the map. */
  ghost predicate Shows(shown: seq<Stream>, streams: Streams, turns: seq<Bytes>) {
    exists order :: Ordering(order, streams.Keys) && shown == ShownInOrder(streams, order, turns)
  }

  lemma {:induction false} CopiesAre(s: Stream, turns: seq<Bytes>)
    ensures forall t <- Copies(s, turns) :: t == s
    ensures Copies(s, turns) != [] <==> s.run in turns
  {
    if turns != [] {
      var n := |turns| - 1;
      assert turns == turns[..n] + [turns[n]];
      CopiesAre(s, turns[..n]);
    }
  }

  /** Shown are exactly the streams of the runs shown. */
  lemma {:induction false} ShownExactly(streams: Streams, order: seq<Bytes>, turns: seq<Bytes>)
    requires forall id <- order :: id in streams
    ensures forall s :: s in ShownInOrder(streams, order, turns) <==>
      exists id <- order :: streams[id] == s && s.run in turns
  {
    if order != [] {
      var n := |order| - 1;
      assert order == order[..n] + [order[n]];
      ShownExactly(streams, order[..n], turns);
      var last := streams[order[n]];
      CopiesAre(last, turns);
      assert Copies(last, turns) != [] ==> Copies(last, turns)[0] in Copies(last, turns);
    }
  }

  /** Ranges over the streams in any order and over the turns of each. */
  method StreamsShown(streams: Streams, turns: seq<Bytes>) returns (shown: seq<Stream>)
    ensures Shows(shown, streams, turns)
  {
    shown := [];
    var left := streams.Keys;
    ghost var order: seq<Bytes> := [];
    while left != {}
      invariant left <= streams.Keys
      invariant Ordering(order, streams.Keys - left)
      invariant shown == ShownInOrder(streams, order, turns)
      decreases |left|
    {
      var id :| id in left;
      left := left - {id};
      ghost var earlier := shown;
      for i := 0 to |turns|
        invariant shown == earlier + Copies(streams[id], turns[..i])
      {
        assert turns[..i + 1][..i] == turns[..i];
        if streams[id].run == turns[i] {
          shown := shown + [streams[id]];
        }
      }
      assert turns[..|turns|] == turns;
      assert (order + [id])[..|order|] == order;
      order := order + [id];
    }
  }

  /** What is built from the last section of the deciding attempt. */
  ghost predicate Describes(p: Payload, a: Attempt, chat: Bytes, hasCommands: bool) {
    && a.turns == Some(p.turns)
    && Shows(p.streams, a.after.streams, p.turns)
    && p.stable == Stable(a, chat)
    && p.busy == (chat in a.after.running || !p.stable)
    && p.stopping == (a.after.stopping && chat in a.after.running)
    && p.runningElsewhere == (|a.after.running| >= Owner.MAX_FOREGROUND_RUNS && chat !in a.after.running)
    && p.activeChats == KeyOrder.SortedKeys(a.after.running.Keys)
    && p.activeChat == (if a.after.running == map[] then [] else p.activeChats[0])
    && p.generation == a.after.generation && p.snapshotSeq == a.after.eventSeq
    && p.backgroundActive == hasCommands
  }

  /** The retry loop, over the answers it would get. It always returns within
      three reads: at the first failed read, the first stable attempt, or the third. */
  method ReadChatSnapshot(chat: Bytes, attempts: seq<Attempt>, hasCommands: bool)
    returns (payload: Option<Payload>, used: nat)
    requires |attempts| == 3
    ensures 1 <= used <= 3
    ensures forall k :: 0 <= k < used - 1 ==> attempts[k].turns.Some? && !Stable(attempts[k], chat)
    ensures payload.None? <==> attempts[used - 1].turns.None?
    ensures payload.Some? ==> Describes(payload.value, attempts[used - 1], chat, hasCommands)
    ensures payload.Some? && !payload.value.stable ==> used == 3 && payload.value.busy
  {
    hide Shows, KeyOrder.SortedKeys;
    var retry := 0;
    while retry < ATTEMPTS
      invariant 0 <= retry < ATTEMPTS
      invariant forall k :: 0 <= k < retry ==> attempts[k].turns.Some? && !Stable(attempts[k], chat)
    {
      var attempt := attempts[retry];
      var sequence, execution := attempt.before.stateSeq, ExecutionOf(attempt.before.running, chat);
      if attempt.turns.None? {
        return None, retry + 1;
      }
      var look := attempt.after;
      var stable := execution == ExecutionOf(look.running, chat) && sequence == look.stateSeq;
      if !stable && retry < ATTEMPTS - 1 {
        retry := retry + 1;
        continue;
      }
      var streams := StreamsShown(look.streams, attempt.turns.value);
      var activeChat, activeChats := ActiveChats(look.running);
      var busy := chat in look.running;
      return Some(Payload(attempt.turns.value, streams, busy || !stable, look.stopping && busy,
        |look.running| >= Owner.MAX_FOREGROUND_RUNS && !busy, activeChat, activeChats,
        look.generation, look.eventSeq, stable, hasCommands)), retry + 1;
    }
    assert false;
  }

  /** firstActiveLocked and activeChatsLocked. */
  method ActiveChats(running: map<Bytes, Owner.Execution>) returns (first: Bytes, chats: seq<Bytes>)
    ensures chats == KeyOrder.SortedKeys(running.Keys)
    ensures |chats| == |running| && (if running == map[] then first == [] else KeyOrder.Least(first, running.Keys) && first == chats[0])
  {
    chats := KeyOrder.CollectKeys(running.Keys);
    KeyOrder.SortedKeysFacts(running.Keys);
    if |chats| == 0 {
      assert running.Keys == {};
      return [], chats;
    }
    assert chats[0] in chats;
    first := chats[0];
  }

  // ----- What stable means for the events in between -----

  ghost predicate OnlyText(events: seq<Event>) {
    forall e <- events :: e.kind == ModelText
  }

  lemma {:induction false} LastStateAppend(a: seq<Event>, b: seq<Event>)
    ensures HubRuns.LastState(a) <= |a|
    ensures OnlyText(b) ==> HubRuns.LastState(a + b) == HubRuns.LastState(a)
    ensures !OnlyText(b) ==> HubRuns.LastState(a + b) > |a|
  {
    if b == [] {
      assert a + b == a;
      if a != [] { LastStateAppend(a[..|a| - 1], []); assert a[..|a| - 1] + [] == a[..|a| - 1]; }
    } else {
      var n := |b| - 1;
      assert (a + b)[..|a + b| - 1] == a + b[..n];
      assert b == b[..n] + [b[n]];
      LastStateAppend(a, b[..n]);
      assert OnlyText(b) <==> OnlyText(b[..n]) && b[n].kind == ModelText;
    }
  }

  /** What state numbers can tell: within a generation that nothing but text was
      recorded, across a new one only that both last changed at the same number. */
  ghost predicate Unchanged(h: EventHub.Hub, h': EventHub.Hub)
    requires h.base <= |h.history| && h'.base <= |h'.history|
  {
    if h'.base == h.base then OnlyText(HubRuns.Recent(h, h'))
    else HubRuns.LastState(HubRuns.Current(h)) == HubRuns.LastState(HubRuns.Current(h'))
  }

  /** Whatever happens between two sections, new generations included, their state
      numbers agree exactly when that holds, and within a generation they never
      go back. */
  lemma SameStateExactly(h: EventHub.Hub, actions: seq<HubRuns.Action>)
    requires HubRuns.LogInv(h)
    ensures var h' := HubRuns.Run(h, actions);
      && HubRuns.LogInv(h') && h.history <= h'.history
      && (h.stateSeq == h'.stateSeq <==> Unchanged(h, h'))
      && (h'.base == h.base ==> h.stateSeq <= h'.stateSeq)
      && (h'.base != h.base ==> |h.history| <= h'.base)
  {
    hide HubRuns.Run, OnlyText, HubRuns.LastState;
    HubRuns.HistoryGrows(h, actions);
    var h' := HubRuns.Run(h, actions);
    if h'.base == h.base {
      var more := HubRuns.Recent(h, h');
      assert HubRuns.Current(h') == HubRuns.Current(h) + more;
      LastStateAppend(HubRuns.Current(h), more);
    }
  }

  ghost function LookAt(h: EventHub.Hub, s: Owner.State): Look {
    Look(h.stateSeq, h.eventSeq, h.generation, s.running, h.streams, s.stopping)
  }

  /** A snapshot is stable exactly when the conversation's slot is the same at
      both ends and the state numbers could not tell the histories apart. */
  lemma StableExactly(h: EventHub.Hub, actions: seq<HubRuns.Action>, s: Owner.State, s': Owner.State,
                      turns: Option<seq<Bytes>>, chat: Bytes)
    requires HubRuns.LogInv(h)
    ensures var h' := HubRuns.Run(h, actions);
      && HubRuns.LogInv(h')
      && (Stable(Attempt(LookAt(h, s), turns, LookAt(h', s')), chat) <==>
            ExecutionOf(s.running, chat) == ExecutionOf(s'.running, chat) && Unchanged(h, h'))
  {
    hide HubRuns.Run, Unchanged;
    SameStateExactly(h, actions);
  }

  /** A new generation restarts the numbers, so across it a stable snapshot may
      hide events: here one notice before the reset and one after. */
  lemma ResetCanHideEvents(g1: Bytes, g2: Bytes, chat: Bytes, s: Owner.State, turns: seq<Bytes>)
    requires !EventHub.Blank(g2)
    ensures var notice := HubRuns.Notified(Refresh, chat, []);
      var h := HubRuns.Step(HubRuns.Start(g1), notice);
      var h' := HubRuns.Step(HubRuns.Step(h, HubRuns.NewGeneration(g2)), notice);
      && Stable(Attempt(LookAt(h, s), Some(turns), LookAt(h', s)), chat)
      && |h'.history| > |h.history| && !OnlyText(HubRuns.Recent(h, h'))
  {
    hide EventHub.Blank;
    var notice := HubRuns.Notified(Refresh, chat, []);
    var h := HubRuns.Step(HubRuns.Start(g1), notice);
    var h' := HubRuns.Step(HubRuns.Step(h, HubRuns.NewGeneration(g2)), notice);
    assert HubRuns.Recent(h, h')[0].kind == Refresh;
    assert HubRuns.Recent(h, h')[0] in HubRuns.Recent(h, h');
  }

  /** A client that takes a stream from the payload of a snapshot, and polls from
      the payload's generation and number, holds the live text of an attempt that
      still runs: exactly as long as the live stream is not truncated. */
  lemma PayloadPlusPoll(h: EventHub.Hub, s: Owner.State, a: Attempt, p: Payload, chat: Bytes, hasCommands: bool,
                        st: Stream, actions: seq<HubRuns.Action>)
    requires HubRuns.HubInv(h) && h.eventSeq < 0xffff_ffff_ffff_ffff && forall x <- actions :: !x.NewGeneration?
    requires a.after == LookAt(h, s) && Describes(p, a, chat, hasCommands)
    requires st in p.streams && st.attempt != [] && !st.interrupted && !st.truncated
    requires forall e <- HubRuns.Recent(h, HubRuns.Run(h, actions)) :: Quiet(e, st.attempt, st.run)
    ensures var h' := HubRuns.Run(h, actions);
      var poll := EventHub.Polled(h'.generation, h'.eventSeq, h'.eventLog, p.generation, p.snapshotSeq);
      && st.attempt in h'.streams
      && (poll == EventHub.CursorExpired <==> p.snapshotSeq + 256 < h'.eventSeq)
      && (poll != EventHub.CursorExpired ==>
            && poll.Events?
            && (!h'.streams[st.attempt].truncated <==>
                  h'.streams[st.attempt].raw == st.raw + TextOf(poll.events, st.attempt)))
  {
    hide HubRuns.Run, HubRuns.LogInv, HubRuns.SseInv, EventHub.Polled, Quiet, ShownInOrder;
    var order :| Ordering(order, h.streams.Keys) && p.streams == ShownInOrder(h.streams, order, p.turns);
    ShownExactly(h.streams, order, p.turns);
    assert h.streams[st.attempt] == st;
    HubRuns.SnapshotPlusReplay(h, actions, st.attempt, st.run);
  }
}
