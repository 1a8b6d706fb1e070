/** What holds of the event hub over every interleaving of its critical sections. */
module HubRuns {
  import opened Prelude
  import opened Events
  import opened EventHub

  datatype Action =
    | EventArrives(event: Event)
    | Notified(kind: Kind, chat: Bytes, message: Bytes)
    | Registered(id: nat)
    | Taken(id: nat)
    | Left(id: nat)
    | NewGeneration(generation: Bytes)

  /** One critical section; an action that is not possible changes nothing.
      Notices are never model text: every caller passes another kind. */
  ghost function Step(h: Hub, a: Action): Hub {
    match a
    case EventArrives(e) => AfterEvent(h, e)
    case Notified(kind, chat, message) => if kind == ModelText then h else AfterNotify(h, kind, chat, message)
    case Registered(id) => if id in h.channels || |h.listeners| >= MAX_LISTENERS then h else AfterRegister(h, id)
    case Taken(id) => if id in h.channels && h.channels[id].buffer != [] then AfterTake(h, id) else h
    case Left(id) => h.(listeners := h.listeners - {id})
    case NewGeneration(g) => AfterGeneration(h, g)
  }

  ghost function Run(h: Hub, actions: seq<Action>): Hub {
    if actions == [] then h else Step(Run(h, actions[..|actions| - 1]), actions[|actions| - 1])
  }

  ghost function Start(generation: Bytes): Hub {
    Hub(0, 0, [], generation, map[], {}, map[], [], [], 0, map[])
  }

  // ----- The log is the end of the history -----

  /** The sequence number of the last event that is not model text. */
  function LastState(events: seq<Event>): nat {
    if events == [] then 0
    else if events[|events| - 1].kind != ModelText then |events|
    else LastState(events[..|events| - 1])
  }

  ghost predicate Numbered(events: seq<Event>, generation: Bytes) {
    forall k :: 0 <= k < |events| ==> events[k].seqNo == k + 1 && events[k].generation == generation
  }

  /** All events of the current generation. */
  ghost function Current(h: Hub): seq<Event>
    requires h.base <= |h.history|
  {
    h.history[h.base..]
  }

  ghost predicate LogInv(h: Hub) {
    && h.base <= |h.history|
    && h.eventSeq == |Current(h)|
    && Numbered(Current(h), h.generation)
    && h.eventLog == LastOf(Current(h))
    && h.stateSeq == LastState(Current(h))
  }

  lemma LastOfAppend(events: seq<Event>, e: Event)
    ensures LastOf(LastOf(events) + [e]) == LastOf(events + [e])
  {}

  lemma RecordedLog(h: Hub, e: Event, frame: Event)
    requires LogInv(h) && e.seqNo == h.eventSeq + 1 && e.generation == h.generation
    ensures LogInv(Recorded(h, e, frame, e.kind != ModelText))
  {
    hide LastOf, BroadcastChannels, Remaining;
    var h' := Recorded(h, e, frame, e.kind != ModelText);
    assert Current(h') == Current(h) + [e];
    LastOfAppend(Current(h), e);
    assert Current(h')[..|Current(h')| - 1] == Current(h);
  }

  lemma StepLog(h: Hub, a: Action)
    requires LogInv(h)
    ensures LogInv(Step(h, a))
  {
    hide LastOf, BroadcastChannels, Remaining, Recorded, StreamsAfter;
    match a {
      case EventArrives(e) =>
        var stamped := Stamped(h, e);
        RecordedLog(h, stamped, FrameOf(stamped));
      case Notified(kind, chat, message) =>
        var e := Notice(h.eventSeq + 1, h.generation, kind, chat, message);
        if kind != ModelText {
          RecordedLog(h, e, e);
        }
      case NewGeneration(g) =>
        EmptyLog();
      case _ =>
    }
  }

  lemma EmptyLog()
    ensures LastOf([]) == []
  {}

  // ----- Every listener sees a gap-free stretch of frames -----

  ghost function Seen(c: Channel): seq<Event> {
    c.taken + c.buffer
  }

  ghost predicate ChannelInv(c: Channel, from: nat, frames: seq<Event>, listening: bool) {
    var n := |Seen(c)|;
    && from + n <= |frames| && Seen(c) == frames[from..from + n]
    && |c.buffer| <= CHANNEL_CAPACITY
    && (listening ==> !c.closed && from + n == |frames|)
    && (c.closed ==> from + n < |frames| && n >= CHANNEL_CAPACITY)
  }

  /** What listeners are sent for an event: its frame, or for a notice the event itself. */
  ghost predicate IsFrame(frame: Event, e: Event) {
    frame == FrameOf(e) || (frame == e && !Streamed(e))
  }

  ghost predicate AreFrames(frames: seq<Event>, events: seq<Event>) {
    |frames| == |events| && forall k :: 0 <= k < |events| ==> IsFrame(frames[k], events[k])
  }

  ghost predicate SseInv(h: Hub) {
    && AreFrames(h.frames, h.history)
    && h.joined.Keys == h.channels.Keys && h.listeners <= h.channels.Keys
    && |h.listeners| <= MAX_LISTENERS
    && forall id <- h.channels :: ChannelInv(h.channels[id], h.joined[id], h.frames, id in h.listeners)
  }

  lemma ChannelBroadcast(c: Channel, from: nat, frames: seq<Event>, frame: Event)
    requires ChannelInv(c, from, frames, true)
    ensures ChannelInv(c.(buffer := c.buffer + [frame]), from, frames + [frame], true) || Full(c)
    ensures Full(c) ==> ChannelInv(c.(closed := true), from, frames + [frame], false)
  {
    var n := |Seen(c)|;
    var sent := c.(buffer := c.buffer + [frame]);
    assert Seen(sent) == Seen(c) + [frame];
    assert (frames + [frame])[from..from + n + 1] == frames[from..from + n] + [frame];
    assert (frames + [frame])[from..from + n] == frames[from..from + n];
  }

  lemma ChannelIgnored(c: Channel, from: nat, frames: seq<Event>, frame: Event)
    requires ChannelInv(c, from, frames, false)
    ensures ChannelInv(c, from, frames + [frame], false)
  {
    var n := |Seen(c)|;
    assert (frames + [frame])[from..from + n] == frames[from..from + n];
  }

  lemma RecordedSse(h: Hub, e: Event, frame: Event, state: bool)
    requires SseInv(h) && IsFrame(frame, e)
    ensures SseInv(Recorded(h, e, frame, state))
  {
    hide LastOf, ChannelInv, Full, IsFrame;
    var h' := Recorded(h, e, frame, state);
    SubsetSize(h'.listeners, h.listeners);
    forall id <- h'.channels
      ensures ChannelInv(h'.channels[id], h'.joined[id], h'.frames, id in h'.listeners)
    {
      var c := h.channels[id];
      if id in h.listeners {
        ChannelBroadcast(c, h.joined[id], h.frames, frame);
      } else {
        ChannelIgnored(c, h.joined[id], h.frames, frame);
      }
    }
  }

  lemma StepSse(h: Hub, a: Action)
    requires SseInv(h)
    ensures SseInv(Step(h, a))
  {
    hide LastOf, BroadcastChannels, Remaining, Recorded, StreamsAfter, ChannelInv, SseInv, AfterRegister, AfterTake;
    match a {
      case EventArrives(e) =>
        var stamped := Stamped(h, e);
        RecordedSse(h, stamped, FrameOf(stamped), e.kind != ModelText);
        StreamsSse(Recorded(h, stamped, FrameOf(stamped), e.kind != ModelText), StreamsAfter(h.streams, stamped));
      case Notified(kind, chat, message) =>
        var e := Notice(h.eventSeq + 1, h.generation, kind, chat, message);
        if kind != ModelText {
          RecordedSse(h, e, e, true);
        }
      case Registered(id) =>
        if id !in h.channels && |h.listeners| < MAX_LISTENERS {
          RegisteredSse(h, id);
        }
      case Taken(id) =>
        if id in h.channels && h.channels[id].buffer != [] {
          TakenSse(h, id);
        }
      case Left(id) => LeftSse(h, id);
      case NewGeneration(g) => GenerationSse(h, g);
    }
  }

  lemma GenerationSse(h: Hub, g: Bytes)
    requires SseInv(h)
    ensures SseInv(AfterGeneration(h, g))
  {
    hide ChannelInv;
  }

  /** The streams play no part in what listeners see. */
  lemma StreamsSse(h: Hub, streams: Streams)
    requires SseInv(h)
    ensures SseInv(h.(streams := streams))
  {
    hide ChannelInv;
  }

  lemma RegisteredSse(h: Hub, id: nat)
    requires SseInv(h) && id !in h.channels && |h.listeners| < MAX_LISTENERS
    ensures SseInv(AfterRegister(h, id))
  {
    hide ChannelInv;
    NewChannel(|h.history|, h.frames);
  }

  lemma TakenSse(h: Hub, id: nat)
    requires SseInv(h) && id in h.channels && h.channels[id].buffer != []
    ensures SseInv(AfterTake(h, id))
  {
    hide ChannelInv;
    TakenChannel(h.channels[id], h.joined[id], h.frames, id in h.listeners);
  }

  lemma LeftSse(h: Hub, id: nat)
    requires SseInv(h)
    ensures SseInv(h.(listeners := h.listeners - {id}))
  {
    hide ChannelInv;
    SubsetSize(h.listeners - {id}, h.listeners);
    forall i <- h.channels ensures ChannelInv(h.channels[i], h.joined[i], h.frames, i in h.listeners - {id}) {
      Weaken(h.channels[i], h.joined[i], h.frames, i in h.listeners);
    }
  }

  lemma Weaken(c: Channel, from: nat, frames: seq<Event>, listening: bool)
    requires ChannelInv(c, from, frames, listening)
    ensures ChannelInv(c, from, frames, false)
  {}

  lemma NewChannel(from: nat, frames: seq<Event>)
    requires from == |frames|
    ensures ChannelInv(Channel([], [], false), from, frames, true)
  {}

  lemma TakenChannel(c: Channel, from: nat, frames: seq<Event>, listening: bool)
    requires ChannelInv(c, from, frames, listening) && c.buffer != []
    ensures ChannelInv(c.(buffer := c.buffer[1..], taken := c.taken + [c.buffer[0]]), from, frames, listening)
  {
    assert Seen(c.(buffer := c.buffer[1..], taken := c.taken + [c.buffer[0]])) == Seen(c);
  }

  /** The invariants of log, listeners and streams. */
  ghost predicate HubInv(h: Hub) {
    LogInv(h) && SseInv(h) && StreamsBounded(h.streams) && StreamsKeyed(h.streams)
  }

  /** They are kept by any actions in any order. */
  lemma {:induction false} RunKeeps(h: Hub, actions: seq<Action>)
    requires HubInv(h)
    ensures HubInv(Run(h, actions))
  {
    hide LogInv, SseInv, Step, StreamsBounded, StreamsKeyed;
    if actions != [] {
      var n := |actions| - 1;
      RunKeeps(h, actions[..n]);
      var h' := Run(h, actions[..n]);
      StepLog(h', actions[n]);
      StepSse(h', actions[n]);
      StepStreams(h', actions[n]);
    }
  }

  /** So they hold of every run of a server. */
  lemma Always(generation: Bytes, actions: seq<Action>)
    ensures HubInv(Run(Start(generation), actions))
  {
    RunKeeps(Start(generation), actions);
  }

  lemma StepStreams(h: Hub, a: Action)
    requires StreamsBounded(h.streams) && StreamsKeyed(h.streams)
    ensures StreamsBounded(Step(h, a).streams) && StreamsKeyed(Step(h, a).streams)
  {
    hide StreamsBounded, StreamsKeyed, StreamsAfter, LastOf, BroadcastChannels, Remaining, Blank;
    if a.EventArrives? {
      StreamsStayBounded(h.streams, Stamped(h, a.event));
      StreamsStayKeyed(h.streams, Stamped(h, a.event));
    }
  }

  /** What a listener was sent carries consecutive numbers, from the first event
      after it joined, as long as the generation has not changed since; if its
      channel was closed, the next frame is the first one it was not sent. */
  lemma DeliveryIsConsecutive(generation: Bytes, actions: seq<Action>, id: nat)
    requires id in Run(Start(generation), actions).channels
    ensures var h := Run(Start(generation), actions);
      && id in h.joined
      && (var c, from := h.channels[id], h.joined[id];
          && from <= |h.frames|
          && Seen(c) <= h.frames[from..]
          && (h.base <= from ==>
                forall j :: 0 <= j < |Seen(c)| ==> Seen(c)[j].seqNo == from - h.base + 1 + j)
          && (id in h.listeners ==> !c.closed && Seen(c) == h.frames[from..])
          && (c.closed ==> Seen(c) < h.frames[from..]))
  {
    hide Run;
    Always(generation, actions);
    var h := Run(Start(generation), actions);
    assert ChannelInv(h.channels[id], h.joined[id], h.frames, id in h.listeners);
    hide LogInv, IsFrame;
    if h.base <= h.joined[id] {
      SeenNumbered(h, id);
    }
  }

  /** What a channel that joined in this generation was sent is numbered from there. */
  lemma SeenNumbered(h: Hub, id: nat)
    requires LogInv(h) && SseInv(h) && id in h.channels && h.base <= h.joined[id]
    ensures NumberedFrom(Seen(h.channels[id]), h.joined[id] - h.base)
  {
    hide IsFrame, LastOf;
    var c, from := h.channels[id], h.joined[id];
    assert ChannelInv(c, from, h.frames, id in h.listeners);
    forall k | 0 <= k < |Seen(c)| ensures Seen(c)[k].seqNo == from - h.base + k + 1 {
      FrameKeepsNumber(h.frames[from + k], h.history[from + k]);
      assert Current(h)[from + k - h.base] == h.history[from + k];
    }
  }

  lemma FrameKeepsNumber(frame: Event, e: Event)
    requires IsFrame(frame, e)
    ensures frame.seqNo == e.seqNo && frame.generation == e.generation
  {}

  /** A channel is closed by one event only: the first that finds it full. */
  lemma ClosedOnlyWhenFull(h: Hub, a: Action, id: nat)
    requires id in h.channels && !h.channels[id].closed
    requires id in Step(h, a).channels && Step(h, a).channels[id].closed
    ensures id in h.listeners && |h.channels[id].buffer| >= 32 && |Step(h, a).frames| == |h.frames| + 1
    ensures id !in Step(h, a).listeners && Seen(Step(h, a).channels[id]) == Seen(h.channels[id])
  {
    hide LastOf, StreamsAfter;
  }

  // ----- Polling reads exactly the history -----

  /** How many of n consecutive events after first are not after the cursor. */
  function Skipped(n: nat, first: nat, after: nat): (k: nat)
    ensures k <= n
  {
    if after <= first then 0 else if after - first <= n then after - first else n
  }

  ghost predicate NumberedFrom(events: seq<Event>, first: nat) {
    forall k :: 0 <= k < |events| ==> events[k].seqNo == first + k + 1
  }

  lemma NumberedPrefix(events: seq<Event>, first: nat)
    requires NumberedFrom(events, first) && events != []
    ensures var n := |events| - 1; NumberedFrom(events[..n], first) && events[n].seqNo == first + n + 1
  {}

  lemma SuffixSnoc(events: seq<Event>, k: nat)
    requires k < |events|
    ensures events[..|events| - 1][k..] + [events[|events| - 1]] == events[k..]
  {}

  lemma {:induction false} AfterNumbered(events: seq<Event>, first: nat, after: nat)
    requires NumberedFrom(events, first)
    ensures After(events, after) == events[Skipped(|events|, first, after)..]
  {
    hide NumberedFrom;
    if events != [] {
      var n := |events| - 1;
      NumberedPrefix(events, first);
      AfterNumbered(events[..n], first, after);
      if events[n].seqNo > after {
        SuffixSnoc(events, Skipped(n, first, after));
      } else {
        assert events[..n][n..] + [] == events[n + 1..];
      }
    }
  }

  /** Where the retained log starts in the history of the generation. */
  function FirstKept(n: nat): nat {
    if n > LOG_LIMIT then n - LOG_LIMIT else 0
  }

  lemma LogIsSuffix(h: Hub)
    requires LogInv(h)
    ensures h.base <= |h.history| && h.eventSeq == |Current(h)|
    ensures h.eventLog == Current(h)[FirstKept(h.eventSeq)..] && NumberedFrom(h.eventLog, FirstKept(h.eventSeq))
  {
    forall k | 0 <= k < |h.eventLog| ensures h.eventLog[k].seqNo == FirstKept(h.eventSeq) + k + 1 {
      assert h.eventLog[k] == Current(h)[FirstKept(h.eventSeq) + k];
    }
  }

  /** A poll expires exactly when the event after the cursor has been recorded
      and dropped, or when the cursor is the largest 64-bit number and anything
      is logged; otherwise it returns every event after the cursor. */
  lemma PollIsExact(h: Hub, after: u64)
    requires LogInv(h)
    ensures var poll := Polled(h.generation, h.eventSeq, h.eventLog, h.generation, after);
      var evicted := after + 256 < h.eventSeq;
      var wrapped := after == 0xffff_ffff_ffff_ffff && h.eventSeq > 0;
      && (poll == CursorExpired <==> evicted || wrapped)
      && (!evicted && !wrapped ==>
            poll == EventHub.Events(h.generation, h.eventSeq,
                                    if after <= h.eventSeq then Current(h)[after..] else []))
  {
    hide After, LogInv, NumberedFrom, LastOf, Current, Polled, FirstKept;
    PollExpires(h, after);
    if after + 256 >= h.eventSeq && !(after == 0xffff_ffff_ffff_ffff && h.eventSeq > 0) {
      PollReturns(h, after);
    }
  }

  lemma PollExpires(h: Hub, after: u64)
    requires LogInv(h)
    ensures Polled(h.generation, h.eventSeq, h.eventLog, h.generation, after) == CursorExpired <==>
      after + 256 < h.eventSeq || (after == 0xffff_ffff_ffff_ffff && h.eventSeq > 0)
  {
    hide After, LogInv, NumberedFrom, LastOf, Current;
    LogIsSuffix(h);
    if h.eventLog != [] {
      FirstNumber(h.eventLog, FirstKept(h.eventSeq));
    }
  }

  lemma PollReturns(h: Hub, after: u64)
    requires LogInv(h) && after + 256 >= h.eventSeq
    requires Polled(h.generation, h.eventSeq, h.eventLog, h.generation, after) != CursorExpired
    ensures Polled(h.generation, h.eventSeq, h.eventLog, h.generation, after) ==
      EventHub.Events(h.generation, h.eventSeq, if after <= h.eventSeq then Current(h)[after..] else [])
  {
    hide After, LogInv, NumberedFrom, LastOf, Current, Skipped;
    LogIsSuffix(h);
    AfterNumbered(h.eventLog, FirstKept(h.eventSeq), after);
    SuffixOfSuffix(Current(h), FirstKept(h.eventSeq), after);
  }

  lemma FirstNumber(events: seq<Event>, first: nat)
    requires NumberedFrom(events, first) && events != []
    ensures events[0].seqNo == first + 1
  {}

  lemma SuffixOfSuffix(events: seq<Event>, first: nat, after: nat)
    requires first <= |events|
    ensures var log := events[first..];
      first <= after ==>
        log[Skipped(|log|, first, after)..] == if after <= |events| then events[after..] else []
  {}

  datatype Move = Act(action: Action) | PollNow

  /** A client that polls with its cursor and then advances it to next. */
  datatype Client = Client(cursor: nat, got: seq<Event>, lost: bool)

  ghost function Poller(h: Hub, c: Client, moves: seq<Move>): (Hub, Client) {
    if moves == [] then (h, c)
    else
      var (h', c') := Poller(h, c, moves[..|moves| - 1]);
      match moves[|moves| - 1]
      case Act(a) => (Step(h', a), c')
      case PollNow =>
        if c'.lost || c'.cursor >= 0x1_0000_0000_0000_0000 then (h', c'.(lost := true))
        else
          match Polled(h'.generation, h'.eventSeq, h'.eventLog, h.generation, c'.cursor)
          case Events(_, next, events) => (h', Client(next, c'.got + events, false))
          case _ => (h', c'.(lost := true))
  }

  /** The client names a generation, and that one is not set again. */
  ghost predicate NotSetAgain(generation: Bytes, moves: seq<Move>) {
    forall m <- moves :: m.Act? && m.action.NewGeneration? && !Blank(m.action.generation) ==>
      generation != [] && m.action.generation != generation
  }

  /** Whatever happens between polls, new generations included, a client that was
      never told to start over has received exactly the history of its generation
      up to its cursor: no event is missing, repeated or out of order. */
  lemma {:induction false} PollerGetsHistory(h: Hub, from: nat, moves: seq<Move>)
    requires LogInv(h) && from <= h.eventSeq && NotSetAgain(h.generation, moves)
    ensures var (h', c) := Poller(h, Client(from, [], false), moves);
      && LogInv(h') && h.base + h.eventSeq <= |h'.history|
      && (if h'.generation == h.generation then h'.base == h.base else h.generation != [])
      && (!c.lost ==>
            && from <= c.cursor && h.base + c.cursor <= |h'.history|
            && c.got == h'.history[h.base + from..h.base + c.cursor])
  {
    hide LogInv, Polled, Step, Blank;
    if moves == [] {
      LogLength(h);
      assert h.history[h.base + from..h.base + from] == [];
    } else {
      var n := |moves| - 1;
      assert forall m <- moves[..n] :: m in moves;
      assert moves[n] in moves;
      PollerGetsHistory(h, from, moves[..n]);
      var (h', c) := Poller(h, Client(from, [], false), moves[..n]);
      match moves[n] {
        case Act(a) =>
          StepLog(h', a);
          StepGrows(h', a);
          StepGeneration(h', a);
          if !c.lost {
            assert Step(h', a).history[h.base + from..h.base + c.cursor] == h'.history[h.base + from..h.base + c.cursor];
          }
        case PollNow => PollAdvances(h, h', from, c);
      }
    }
  }

  lemma StepGeneration(h: Hub, a: Action)
    ensures if a.NewGeneration? && !Blank(a.generation) then Step(h, a).generation == a.generation
      else Step(h, a).generation == h.generation && Step(h, a).base == h.base
  {
    hide LastOf, BroadcastChannels, Remaining, StreamsAfter, Blank;
  }

  lemma PollAdvances(h: Hub, h': Hub, from: nat, c: Client)
    requires LogInv(h') && (if h'.generation == h.generation then h'.base == h.base else h.generation != [])
    requires !c.lost && c.cursor < 0x1_0000_0000_0000_0000 ==>
      from <= c.cursor && h.base + c.cursor <= |h'.history| && c.got == h'.history[h.base + from..h.base + c.cursor]
    ensures !c.lost && c.cursor < 0x1_0000_0000_0000_0000 ==>
      match Polled(h'.generation, h'.eventSeq, h'.eventLog, h.generation, c.cursor)
      case Events(_, next, events) =>
        && from <= next && h.base + next <= |h'.history|
        && c.got + events == h'.history[h.base + from..h.base + next]
      case _ => true
  {
    hide LogInv, Polled;
    if !c.lost && c.cursor < 0x1_0000_0000_0000_0000 {
      if h'.generation == h.generation {
        PollIsExact(h', c.cursor);
        LogLength(h');
        assert h'.history[h.base + from..h.base + c.cursor] + Current(h')[c.cursor..] == h'.history[h.base + from..];
      } else {
        PollOfOther(h', h.generation, c.cursor);
      }
    }
  }

  lemma PollOfOther(h: Hub, requested: Bytes, after: u64)
    requires requested != [] && requested != h.generation
    ensures Polled(h.generation, h.eventSeq, h.eventLog, requested, after) == GenerationChanged
  {
    hide After;
  }

  /** A generation that is set again does mislead: a client that has the first
      event polls with its cursor and gets the second event of the new numbering,
      without the first. So does any new generation while the client names none. */
  lemma SetAgainMisleads(g: Bytes, again: Bytes, a: Bytes, b: Bytes, c: Bytes)
    requires !Blank(again) && (g == again || g == [])
    ensures var notice := (chat: Bytes) => Act(Notified(Refresh, chat, []));
      var (h, client) := Poller(Start(g), Client(0, [], false),
        [notice(a), PollNow, Act(NewGeneration(again)), notice(b), notice(c), PollNow]);
      && !client.lost && |h.history| == 3
      && client.got == [h.history[0], h.history[2]]
  {
    hide Blank, Step, Polled;
    var notice := (chat: Bytes) => Act(Notified(Refresh, chat, []));
    var moves := [notice(a), PollNow, Act(NewGeneration(again)), notice(b), notice(c), PollNow];
    var none := Client(0, [], false);
    var h1 := Step(Start(g), Notified(Refresh, a, []));
    var h2 := Step(h1, NewGeneration(again));
    var h3 := Step(h2, Notified(Refresh, b, []));
    var h4 := Step(h3, Notified(Refresh, c, []));
    var e1, e2, e3 := Notice(1, g, Refresh, a, []), Notice(1, again, Refresh, b, []), Notice(2, again, Refresh, c, []);
    FirstNotices(g, again, a, b, c);
    assert moves[..0] == [] && moves[..1][..0] == [] && moves[..2][..1] == moves[..1] && moves[..3][..2] == moves[..2];
    assert moves[..4][..3] == moves[..3] && moves[..5][..4] == moves[..4] && moves[..5] == moves[..|moves| - 1];
    assert Poller(Start(g), none, moves[..1]) == (h1, none);
    assert [] + [e1] == [e1] && [e1] + [e3] == [e1, e3];
    assert Poller(Start(g), none, moves[..2]) == (h1, Client(1, [e1], false));
    assert Poller(Start(g), none, moves[..3]) == (h2, Client(1, [e1], false));
    assert Poller(Start(g), none, moves[..4]) == (h3, Client(1, [e1], false));
    assert Poller(Start(g), none, moves[..5]) == (h4, Client(1, [e1], false));
  }

  lemma FirstNotices(g: Bytes, again: Bytes, a: Bytes, b: Bytes, c: Bytes)
    requires !Blank(again) && (g == again || g == [])
    ensures var h1 := Step(Start(g), Notified(Refresh, a, []));
      var h4 := Step(Step(Step(h1, NewGeneration(again)), Notified(Refresh, b, [])), Notified(Refresh, c, []));
      var e1, e2, e3 := Notice(1, g, Refresh, a, []), Notice(1, again, Refresh, b, []), Notice(2, again, Refresh, c, []);
      && Polled(h1.generation, h1.eventSeq, h1.eventLog, g, 0) == EventHub.Events(g, 1, [e1])
      && Polled(h4.generation, h4.eventSeq, h4.eventLog, g, 1) == EventHub.Events(again, 2, [e3])
      && h4.history == [e1, e2, e3]
  {
    hide Blank, Step, After;
    var e1, e2, e3 := Notice(1, g, Refresh, a, []), Notice(1, again, Refresh, b, []), Notice(2, again, Refresh, c, []);
    var h1 := Step(Start(g), Notified(Refresh, a, []));
    var h2 := Step(h1, NewGeneration(again));
    var h3 := Step(h2, Notified(Refresh, b, []));
    NoticeStep(Start(g), a);
    NewNumbers(h1, again);
    NoticeStep(h2, b);
    NoticeStep(h3, c);
    assert [] + [e1] == [e1] && [] + [e2] == [e2] && [e2] + [e3] == [e2, e3] && [e1] + [e2] + [e3] == [e1, e2, e3];
    AfterTwo(e1, e2, e3);
  }

  lemma NoticeStep(h: Hub, chat: Bytes)
    requires |h.eventLog| < LOG_LIMIT
    ensures var e, h' := Notice(h.eventSeq + 1, h.generation, Refresh, chat, []), Step(h, Notified(Refresh, chat, []));
      && h'.eventSeq == h.eventSeq + 1 && h'.generation == h.generation
      && h'.eventLog == h.eventLog + [e] && h'.history == h.history + [e]
  {
    hide BroadcastChannels, Remaining;
  }

  lemma NewNumbers(h: Hub, generation: Bytes)
    requires !Blank(generation)
    ensures var h' := Step(h, NewGeneration(generation));
      h'.eventSeq == 0 && h'.generation == generation && h'.eventLog == [] && h'.history == h.history
  {
    hide Blank;
  }

  lemma AfterTwo(e1: Event, e2: Event, e3: Event)
    requires e1.seqNo == 1 && e2.seqNo == 1 && e3.seqNo == 2
    ensures After([e1], 0) == [e1] && After([e2, e3], 1) == [e3]
  {
    assert [e1][..0] == [] && [e2, e3][..1] == [e2] && [e2][..0] == [];
    assert After([], 0) + [e1] == [e1] && After([e2], 1) == [] && After([e2], 1) + [e3] == [e3];
  }

  lemma LogLength(h: Hub)
    requires LogInv(h)
    ensures h.base <= |h.history| && h.eventSeq == |Current(h)|
  {}

  /** Within a generation the history only grows. */
  lemma StepExtends(h: Hub, a: Action)
    requires LogInv(h) && !a.NewGeneration?
    ensures var h' := Step(h, a);
      && h'.base == h.base && h'.generation == h.generation
      && h.history <= h'.history && Current(h) <= Current(h')
  {
    hide LastOf, BroadcastChannels, Remaining, StreamsAfter;
  }

  // ----- A snapshot and the events after it give the live text -----

  /** What was recorded between h and a later h'. */
  ghost function Recent(h: Hub, h': Hub): seq<Event> {
    if |h.history| <= |h'.history| then h'.history[|h.history|..] else []
  }

  /** Whatever happens, the history only grows, and a new generation starts after it. */
  lemma {:induction false} HistoryGrows(h: Hub, actions: seq<Action>)
    requires LogInv(h)
    ensures var h' := Run(h, actions);
      && LogInv(h') && h.history <= h'.history && h'.history == h.history + Recent(h, h')
      && (h'.base == h.base || |h.history| <= h'.base)
  {
    hide LogInv, Step;
    if actions != [] {
      var n := |actions| - 1;
      HistoryGrows(h, actions[..n]);
      var mid := Run(h, actions[..n]);
      StepLog(mid, actions[n]);
      StepGrows(mid, actions[n]);
    }
  }

  lemma StepGrows(h: Hub, a: Action)
    ensures h.history <= Step(h, a).history
    ensures Step(h, a).base == h.base || Step(h, a).base == |h.history|
  {
    hide LastOf, BroadcastChannels, Remaining, StreamsAfter, Blank;
  }

  /** Between two points of a generation the streams change only by the events recorded. */
  lemma {:induction false} StreamsFollowHistory(h: Hub, actions: seq<Action>)
    requires LogInv(h) && forall a <- actions :: !a.NewGeneration?
    ensures var h' := Run(h, actions);
      && LogInv(h') && h'.base == h.base && h'.generation == h.generation && h.history <= h'.history
      && h'.streams == StreamsThrough(h.streams, h'.history[|h.history|..])
  {
    hide LogInv, Step, StreamsAfter, Recorded;
    if actions == [] {
    } else {
      var n := |actions| - 1;
      assert forall a <- actions[..n] :: a in actions;
      assert actions[n] in actions;
      StreamsFollowHistory(h, actions[..n]);
      var mid := Run(h, actions[..n]);
      StepLog(mid, actions[n]);
      StepExtends(mid, actions[n]);
      StepStreamsExactly(mid, actions[n]);
      var before, added := mid.history[|h.history|..], Step(mid, actions[n]).history[|mid.history|..];
      assert Step(mid, actions[n]).history[|h.history|..] == before + added;
      StreamsConcat(h.streams, before, added);
    }
  }

  lemma StepStreamsExactly(h: Hub, a: Action)
    requires !a.NewGeneration?
    ensures var h' := Step(h, a);
      h.history <= h'.history && h'.streams == StreamsThrough(h.streams, h'.history[|h.history|..])
  {
    hide LastOf, BroadcastChannels, Remaining;
    var h' := Step(h, a);
    if h'.history != h.history {
      assert h'.history[|h.history|..] == [h'.history[|h.history|]];
      assert [h'.history[|h.history|]][..0] == [];
    }
  }

  /** Take a snapshot at h, let anything happen within the generation, then poll
      from the snapshot's sequence number. For an attempt still running the
      snapshot text followed by the text of the polled events is the live text,
      exactly as long as the live stream is not marked truncated. */
  lemma SnapshotPlusReplay(h: Hub, actions: seq<Action>, attempt: Bytes, run: Bytes)
    requires LogInv(h) && StreamsBounded(h.streams) && forall a <- actions :: !a.NewGeneration?
    requires h.eventSeq < 0xffff_ffff_ffff_ffff
    requires Running(h.streams, attempt, run) && !h.streams[attempt].truncated
    requires forall e <- Recent(h, Run(h, actions)) :: Quiet(e, attempt, run)
    ensures var h' := Run(h, actions);
      var poll := Polled(h'.generation, h'.eventSeq, h'.eventLog, h.generation, h.eventSeq);
      && Running(h'.streams, attempt, run)
      && (poll == CursorExpired <==> h.eventSeq + 256 < h'.eventSeq)
      && (poll != CursorExpired ==>
            && poll.Events?
            && (!h'.streams[attempt].truncated <==>
                  h'.streams[attempt].raw == h.streams[attempt].raw + TextOf(poll.events, attempt)))
  {
    hide Run, StreamsThrough, Polled, LastOf, Quiet;
    var h' := Run(h, actions);
    StreamsFollowHistory(h, actions);
    RunningText(h.streams, Recent(h, h'), attempt, run);
    PollIsExact(h', h.eventSeq);
    assert Current(h')[h.eventSeq..] == Recent(h, h');
  }

  // ----- A snapshot and the frames after it give the live text -----

  /** No text of the attempt is too long to be sent to listeners. */
  ghost predicate FitsFrames(events: seq<Event>, attempt: Bytes) {
    forall e <- events :: OwnText(e, attempt) ==> |e.message| <= FRAME_TEXT_LIMIT
  }

  lemma {:induction false} FramesShorter(frames: seq<Event>, events: seq<Event>, attempt: Bytes)
    requires AreFrames(frames, events)
    ensures |TextOf(frames, attempt)| <= |TextOf(events, attempt)|
    ensures FitsFrames(events, attempt) ==> TextOf(frames, attempt) == TextOf(events, attempt)
    ensures !FitsFrames(events, attempt) ==> |TextOf(frames, attempt)| < |TextOf(events, attempt)|
  {
    if events != [] {
      var n := |events| - 1;
      assert events == events[..n] + [events[n]];
      FramesShorter(frames[..n], events[..n], attempt);
    }
  }

  lemma FramesOfStretch(h: Hub, from: nat, to: nat)
    requires SseInv(h) && from <= to <= |h.history|
    ensures AreFrames(h.frames[from..to], h.history[from..to])
  {
    hide IsFrame, ChannelInv;
  }

  /** Over any run, the frames a channel was given carry the same text as the
      events recorded meanwhile exactly when no piece of it exceeded the frame
      limit; for a registered listener these are all the events since it joined. */
  lemma FramesReplayExactly(generation: Bytes, actions: seq<Action>, id: nat, attempt: Bytes)
    requires id in Run(Start(generation), actions).channels
    ensures var h := Run(Start(generation), actions);
      && id in h.joined
      && (var c, from := h.channels[id], h.joined[id];
          && from + |Seen(c)| <= |h.history|
          && (var missed := h.history[from..from + |Seen(c)|];
              TextOf(Seen(c), attempt) == TextOf(missed, attempt) <==> FitsFrames(missed, attempt))
          && (id in h.listeners ==> from + |Seen(c)| == |h.history|))
  {
    hide Run, LogInv, SseInv, StreamsBounded, StreamsKeyed, FitsFrames, TextOf, Seen;
    Always(generation, actions);
    var h := Run(Start(generation), actions);
    SeenStretch(h, id);
    var from, to := h.joined[id], h.joined[id] + |Seen(h.channels[id])|;
    FramesOfStretch(h, from, to);
    FramesShorter(h.frames[from..to], h.history[from..to], attempt);
  }

  lemma SeenStretch(h: Hub, id: nat)
    requires SseInv(h) && (id in h.channels || id in h.listeners)
    ensures id in h.channels && id in h.joined && |h.frames| == |h.history|
    ensures var from, to := h.joined[id], h.joined[id] + |Seen(h.channels[id])|;
      && to <= |h.history| && Seen(h.channels[id]) == h.frames[from..to]
      && (id in h.listeners ==> to == |h.history|)
  {
    hide IsFrame;
    assert ChannelInv(h.channels[id], h.joined[id], h.frames, id in h.listeners);
  }

  /** The frames a listener has with numbers after the snapshot's are those of
      everything recorded since. */
  lemma FramesAfter(h: Hub, h': Hub, id: nat)
    requires LogInv(h) && HubInv(h') && h.history <= h'.history && h.base == h'.base
    requires id in h'.listeners && id in h'.joined && h'.base <= h'.joined[id] <= |h.history|
    ensures id in h'.channels && AreFrames(After(Seen(h'.channels[id]), h.eventSeq), Recent(h, h'))
  {
    hide LogInv, SseInv, AreFrames, StreamsKeyed, StreamsBounded, NumberedFrom, After, Seen;
    SeenStretch(h', id);
    LogLength(h);
    SeenNumbered(h', id);
    assert Seen(h'.channels[id]) == h'.frames[h'.joined[id]..];
    AfterStretch(h'.frames, h'.base, h'.joined[id], |h.history|);
    FramesOfStretch(h', |h.history|, |h'.history|);
    assert h'.frames[|h.history|..] == h'.frames[|h.history|..|h'.history|];
    assert h'.history[|h.history|..] == h'.history[|h.history|..|h'.history|];
  }

  lemma AfterStretch(frames: seq<Event>, base: nat, from: nat, mark: nat)
    requires base <= from <= mark <= |frames| && NumberedFrom(frames[from..], from - base)
    ensures After(frames[from..], mark - base) == frames[mark..]
  {
    hide NumberedFrom;
    AfterNumbered(frames[from..], from - base, mark - base);
    assert frames[from..][mark - from..] == frames[mark..];
  }

  /** Take a snapshot at h and let anything happen within the generation. A
      listener that joined before, in the same generation, and is still there has
      the live text in its frames after the snapshot's number, following the
      snapshot text: while the live stream is not truncated, exactly when no
      piece of text since exceeded the frame limit. */
  lemma SnapshotPlusFrames(h: Hub, actions: seq<Action>, id: nat, attempt: Bytes, run: Bytes)
    requires HubInv(h) && forall a <- actions :: !a.NewGeneration?
    requires Running(h.streams, attempt, run) && !h.streams[attempt].truncated
    requires forall e <- Recent(h, Run(h, actions)) :: Quiet(e, attempt, run)
    requires var h' := Run(h, actions);
      id in h'.listeners && id in h'.joined && h'.base <= h'.joined[id] <= |h.history|
    ensures var h' := Run(h, actions);
      && id in h'.channels && Running(h'.streams, attempt, run)
      && (!h'.streams[attempt].truncated ==>
            (FitsFrames(Recent(h, h'), attempt) <==>
               h'.streams[attempt].raw == h.streams[attempt].raw + TextOf(After(Seen(h'.channels[id]), h.eventSeq), attempt)))
  {
    hide Run, StreamsThrough, SseInv, Quiet, FitsFrames, After;
    var h' := Run(h, actions);
    StreamsFollowHistory(h, actions);
    RunKeeps(h, actions);
    RunningText(h.streams, Recent(h, h'), attempt, run);
    FramesAfter(h, h', id);
    var frames := After(Seen(h'.channels[id]), h.eventSeq);
    FramesShorter(frames, Recent(h, h'), attempt);
    CancelPrefix(h.streams[attempt].raw, TextOf(frames, attempt), TextOf(Recent(h, h'), attempt));
  }

  lemma CancelPrefix<T>(a: seq<T>, b: seq<T>, c: seq<T>)
    ensures a + b == a + c <==> b == c
  {
    if a + b == a + c {
      assert (a + b)[|a|..] == b && (a + c)[|a|..] == c;
    }
  }
}
