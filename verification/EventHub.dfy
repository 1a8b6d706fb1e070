/** The Owner's event log, its live streams and its server-sent-event listeners. */
module EventHub {
  import opened Prelude
  import opened Events
  import Decimal
  import Utf8

  const LOG_LIMIT := 256
  const CHANNEL_CAPACITY := 32
  const MAX_LISTENERS := 8

  /** A Go channel of frames: what is queued, what its reader has taken, and
      whether it is closed. */
  datatype Channel = Channel(buffer: seq<Event>, taken: seq<Event>, closed: bool)

  type Channels = map<nat, Channel>

  /** The fields behind the mutex. The last four only observe: all events recorded
      since the server was made, the frame broadcast for each, where the current
      generation starts, and how many frames had gone before each channel. */
  datatype Hub = Hub(
    eventSeq: nat, stateSeq: nat, eventLog: seq<Event>, generation: Bytes,
    streams: Streams, listeners: set<nat>, channels: Channels,
    history: seq<Event>, frames: seq<Event>, base: nat, joined: map<nat, nat>)

  function LastOf(events: seq<Event>): seq<Event> {
    if |events| > LOG_LIMIT then events[|events| - LOG_LIMIT..] else events
  }

  /** An event as listeners see it: a long message is replaced by a refresh. */
  function FrameOf(e: Event): Event {
    if |e.message| > FRAME_TEXT_LIMIT then e.(message := [], kind := Refresh) else e
  }

  /** unicode.IsSpace. */
  predicate IsSpace(code: nat) {
    || 9 <= code <= 13 || code == 32 || code == 0x85 || code == 0xA0
    || code == 0x1680 || 0x2000 <= code <= 0x200A || code == 0x2028 || code == 0x2029
    || code == 0x202F || code == 0x205F || code == 0x3000
  }

  /** Nothing is left of s by strings.TrimSpace. */
  predicate Blank(s: Bytes) {
    forall r <- Utf8.Runes(s) :: IsSpace(r.code)
  }

  // ----- Channels -----

  predicate Full(c: Channel) {
    |c.buffer| >= CHANNEL_CAPACITY
  }

  ghost function BroadcastChannels(channels: Channels, listeners: set<nat>, frame: Event): Channels {
    map id | id in channels ::
      var c := channels[id];
      if id !in listeners then c
      else if Full(c) then c.(closed := true)
      else c.(buffer := c.buffer + [frame])
  }

  ghost function Remaining(channels: Channels, listeners: set<nat>): set<nat> {
    set id | id in listeners && id in channels && !Full(channels[id])
  }

  // ----- The critical sections as functions of the hub -----

  ghost function Recorded(h: Hub, e: Event, frame: Event, state: bool): Hub {
    h.(eventSeq := h.eventSeq + 1,
       stateSeq := if state then h.eventSeq + 1 else h.stateSeq,
       eventLog := LastOf(h.eventLog + [e]),
       listeners := Remaining(h.channels, h.listeners),
       channels := BroadcastChannels(h.channels, h.listeners, frame),
       history := h.history + [e],
       frames := h.frames + [frame])
  }

  ghost function Stamped(h: Hub, e: Event): Event {
    e.(seqNo := h.eventSeq + 1, generation := h.generation)
  }

  ghost function AfterEvent(h: Hub, e: Event): Hub {
    var stamped := Stamped(h, e);
    Recorded(h, stamped, FrameOf(stamped), e.kind != ModelText).(streams := StreamsAfter(h.streams, stamped))
  }

  function Notice(seqNo: nat, generation: Bytes, kind: Kind, chat: Bytes, message: Bytes): Event {
    Event(seqNo, generation, kind, [], [], [], chat, message)
  }

  ghost function AfterNotify(h: Hub, kind: Kind, chat: Bytes, message: Bytes): Hub {
    var e := Notice(h.eventSeq + 1, h.generation, kind, chat, message);
    Recorded(h, e, e, true)
  }

  ghost function AfterGeneration(h: Hub, generation: Bytes): Hub {
    if Blank(generation) then h
    else h.(generation := generation, eventSeq := 0, stateSeq := 0, eventLog := [], base := |h.history|)
  }

  ghost function AfterRegister(h: Hub, id: nat): Hub {
    h.(listeners := h.listeners + {id}, channels := h.channels[id := Channel([], [], false)],
       joined := h.joined[id := |h.history|])
  }

  ghost function AfterTake(h: Hub, id: nat): Hub
    requires id in h.channels && h.channels[id].buffer != []
  {
    var c := h.channels[id];
    h.(channels := h.channels[id := c.(buffer := c.buffer[1..], taken := c.taken + [c.buffer[0]])])
  }

  // ----- Polling by cursor -----

  datatype Poll = BadCursor | GenerationChanged | CursorExpired | Events(generation: Bytes, next: nat, events: seq<Event>)

  /** after + 1 in 64-bit arithmetic. */
  function NextOf(after: u64): u64 {
    if after == 0xffff_ffff_ffff_ffff then 0 else after + 1
  }

  function After(events: seq<Event>, after: nat): seq<Event> {
    if events == [] then []
    else
      var last := events[|events| - 1];
      After(events[..|events| - 1], after) + (if last.seqNo > after then [last] else [])
  }

  function Polled(generation: Bytes, eventSeq: nat, log: seq<Event>, requested: Bytes, after: u64): Poll {
    if requested != [] && requested != generation then GenerationChanged
    else if log != [] && NextOf(after) < log[0].seqNo then CursorExpired
    else Events(generation, eventSeq, After(log, after))
  }

  // ----- The server -----

  class Server {
    var eventSeq: nat
    var stateSeq: nat
    var eventLog: seq<Event>
    var generation: Bytes
    var streams: Streams
    var listeners: set<nat>
    var channels: Channels
    ghost var history: seq<Event>
    ghost var frames: seq<Event>
    ghost var base: nat
    ghost var joined: map<nat, nat>

    ghost function View(): Hub
      reads this
    {
      Hub(eventSeq, stateSeq, eventLog, generation, streams, listeners, channels, history, frames, base, joined)
    }

    /** No listener has been closed: sending to it or closing it cannot panic. */
    ghost predicate Open()
      reads this`listeners, this`channels
    {
      forall id <- listeners :: id in channels && !channels[id].closed
    }

    constructor (generation: Bytes)
      ensures View() == Hub(0, 0, [], generation, map[], {}, map[], [], [], 0, map[]) && Open()
    {
      this.generation := generation;
      eventSeq, stateSeq, eventLog := 0, 0, [];
      streams, listeners, channels := map[], {}, map[];
      history, frames, base, joined := [], [], 0, map[];
    }

    method Send(id: nat, frame: Event)
      requires id in channels && !channels[id].closed && !Full(channels[id])
      modifies this`channels
      ensures channels == old(channels)[id := old(channels[id]).(buffer := old(channels[id]).buffer + [frame])]
    {
      channels := channels[id := channels[id].(buffer := channels[id].buffer + [frame])];
    }

    method CloseChannel(id: nat)
      requires id in channels && !channels[id].closed
      modifies this`channels
      ensures channels == old(channels)[id := old(channels[id]).(closed := true)]
    {
      channels := channels[id := channels[id].(closed := true)];
    }

    method Broadcast(frame: Event)
      requires Open()
      modifies this`channels, this`listeners
      ensures Open()
      ensures channels == BroadcastChannels(old(channels), old(listeners), frame)
      ensures listeners == Remaining(old(channels), old(listeners))
    {
      var left := listeners;
      while left != {}
        invariant left <= listeners <= old(listeners)
        invariant Open()
        invariant channels.Keys == old(channels).Keys
        invariant forall id <- channels ::
          channels[id] == if id in left then old(channels)[id]
            else BroadcastChannels(old(channels), old(listeners), frame)[id]
        invariant forall id <- old(listeners) :: id in left || (id in listeners <==> !Full(old(channels)[id]))
        decreases |left|
      {
        var id :| id in left;
        left := left - {id};
        if |channels[id].buffer| < CHANNEL_CAPACITY {
          Send(id, frame);
        } else {
          CloseChannel(id);
          listeners := listeners - {id};
        }
      }
    }

    method RecordEvent(e: Event)
      modifies this`eventLog, this`history
      ensures eventLog == LastOf(old(eventLog) + [e]) && history == old(history) + [e]
    {
      eventLog := eventLog + [e];
      if |eventLog| > LOG_LIMIT {
        eventLog := eventLog[|eventLog| - LOG_LIMIT..];
      }
      history := history + [e];
    }

    method OnEvent(e: Event)
      requires Open()
      modifies this
      ensures Open() && View() == AfterEvent(old(View()), e)
    {
      hide BroadcastChannels, Remaining, LastOf, StreamsAfter, Open, Streamed, Full, FrameOf;
      eventSeq := eventSeq + 1;
      if e.kind != ModelText {
        stateSeq := eventSeq;
      }
      var event := e.(seqNo := eventSeq, generation := generation);
      RecordEvent(event);
      UpdateStreams(event);
      Publish(FrameOf(event));
    }

    /** The frame goes to every listener. */
    method Publish(frame: Event)
      requires Open()
      modifies this`frames, this`channels, this`listeners
      ensures Open() && frames == old(frames) + [frame]
      ensures channels == BroadcastChannels(old(channels), old(listeners), frame)
      ensures listeners == Remaining(old(channels), old(listeners))
    {
      hide Open, BroadcastChannels, Remaining;
      frames := frames + [frame];
      Broadcast(frame);
    }

    method UpdateStreams(e: Event)
      modifies this`streams
      ensures streams == StreamsAfter(old(streams), e)
    {
      if e.purpose == [] && e.attempt != [] {
        var stream := StreamOf(streams, e.attempt);
        match e.kind {
          case ModelStarted =>
            DropRun(e.run);
            if |streams| >= STREAM_SWEEP {
              DropInterrupted();
            }
            streams := streams[e.attempt := Stream(e.attempt, e.run, [], false, false)];
          case ModelText =>
            if |stream.raw| + |e.message| <= STREAM_LIMIT {
              stream := stream.(raw := stream.raw + e.message);
            } else {
              stream := stream.(truncated := true);
            }
            streams := streams[e.attempt := stream];
          case ModelFinished =>
            streams := streams - {e.attempt};
          case ModelInterrupted =>
            stream := stream.(interrupted := true);
            streams := streams[e.attempt := stream];
          case _ =>
        }
      }
    }

    method DropRun(run: Bytes)
      modifies this`streams
      ensures streams == WithoutRun(old(streams), run)
    {
      var left := streams.Keys;
      while left != {}
        invariant left <= streams.Keys <= old(streams).Keys
        invariant forall id <- streams :: streams[id] == old(streams)[id]
        invariant forall id <- old(streams) :: id in left || (id in streams <==> old(streams)[id].run != run)
        decreases |left|
      {
        var id :| id in left;
        left := left - {id};
        if streams[id].run == run {
          streams := streams - {id};
        }
      }
    }

    method DropInterrupted()
      modifies this`streams
      ensures streams == WithoutInterrupted(old(streams))
    {
      var left := streams.Keys;
      while left != {}
        invariant left <= streams.Keys <= old(streams).Keys
        invariant forall id <- streams :: streams[id] == old(streams)[id]
        invariant forall id <- old(streams) :: id in left || (id in streams <==> !old(streams)[id].interrupted)
        decreases |left|
      {
        var id :| id in left;
        left := left - {id};
        if streams[id].interrupted {
          streams := streams - {id};
        }
      }
    }

    method Notify(kind: Kind, chat: Bytes, message: Bytes)
      requires Open()
      modifies this
      ensures Open() && View() == AfterNotify(old(View()), kind, chat, message)
    {
      hide BroadcastChannels, Remaining, LastOf, StreamsAfter, Open;
      eventSeq := eventSeq + 1;
      stateSeq := eventSeq;
      var event := Notice(eventSeq, generation, kind, chat, message);
      RecordEvent(event);
      Publish(event);
    }

    method SetGeneration(generation: Bytes)
      modifies this
      ensures View() == AfterGeneration(old(View()), generation) && (old(Open()) ==> Open())
    {
      if Blank(generation) {
        return;
      }
      this.generation := generation;
      eventSeq := 0;
      stateSeq := 0;
      eventLog := [];
      base := |history|;
    }

    /** A new event stream, refused when eight are open. id is the new channel. */
    method Register(id: nat) returns (ok: bool)
      requires Open() && id !in channels
      modifies this
      ensures Open() && ok == (|old(listeners)| < MAX_LISTENERS)
      ensures View() == if ok then AfterRegister(old(View()), id) else old(View())
    {
      if |listeners| >= MAX_LISTENERS {
        return false;
      }
      channels := channels[id := Channel([], [], false)];
      joined := joined[id := |history|];
      listeners := listeners + {id};
      return true;
    }

    /** The reader's receive: the next frame, or none once it is closed and drained. */
    method Take(id: nat) returns (frame: Option<Event>)
      requires id in channels && (channels[id].buffer != [] || channels[id].closed)
      modifies this`channels
      ensures old(Open()) ==> Open()
      ensures if old(channels)[id].buffer == [] then frame == None && View() == old(View())
        else frame == Some(old(channels)[id].buffer[0]) && View() == AfterTake(old(View()), id)
    {
      var c := channels[id];
      if c.buffer == [] {
        return None;
      }
      channels := channels[id := c.(buffer := c.buffer[1..], taken := c.taken + [c.buffer[0]])];
      return Some(c.buffer[0]);
    }

    /** The deferred delete when the stream's request ends. */
    method Leave(id: nat)
      modifies this`listeners
      ensures View() == old(View()).(listeners := old(listeners) - {id}) && (old(Open()) ==> Open())
    {
      listeners := listeners - {id};
    }

    /** attachEvents: read the log after a cursor, zero when none is given. */
    method AttachEvents(requested: Bytes, raw: Bytes) returns (poll: Poll)
      ensures raw == [] ==> poll == Polled(generation, eventSeq, eventLog, requested, 0)
      ensures forall after: u64 :: Decimal.ParseUint(raw) == Some(after) ==>
        poll == Polled(generation, eventSeq, eventLog, requested, after)
      ensures poll == BadCursor <==> raw != [] && Decimal.ParseUint(raw) == None
    {
      hide Decimal.ParseUint;
      var after: u64 := 0;
      if |raw| != 0 {
        var parsed := Decimal.ParseUint(raw);
        if parsed.None? {
          return BadCursor;
        }
        after := parsed.value;
      } else {
        Decimal.EmptyIsNoCursor();
      }
      if requested != [] && requested != generation {
        return GenerationChanged;
      }
      if |eventLog| != 0 && NextOf(after) < eventLog[0].seqNo {
        return CursorExpired;
      }
      var events: seq<Event> := [];
      for i := 0 to |eventLog|
        invariant events == After(eventLog[..i], after)
      {
        assert eventLog[..i + 1][..i] == eventLog[..i];
        if eventLog[i].seqNo > after {
          events := events + [eventLog[i]];
        }
      }
      assert eventLog[..|eventLog|] == eventLog;
      return Events(generation, eventSeq, events);
    }
  }
}
