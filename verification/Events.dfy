/** Events of one Owner and the live model text they build up. */
module Events {
  import opened Prelude

  const STREAM_LIMIT := 0x10_0000
  const FRAME_TEXT_LIMIT := 0x1_0000
  const STREAM_SWEEP := 16

  datatype Kind =
    | ModelStarted | ModelText | ModelFinished | ModelInterrupted | Refresh
    | Other(name: Bytes)

  datatype Event = Event(
    seqNo: nat, generation: Bytes, kind: Kind, purpose: Bytes,
    attempt: Bytes, run: Bytes, chat: Bytes, message: Bytes)

  datatype Stream = Stream(attempt: Bytes, run: Bytes, raw: Bytes, interrupted: bool, truncated: bool)

  type Streams = map<Bytes, Stream>

  /** Go's zero value, read for an attempt that has no stream. */
  const NO_STREAM := Stream([], [], [], false, false)

  function StreamOf(streams: Streams, attempt: Bytes): Stream {
    if attempt in streams then streams[attempt] else NO_STREAM
  }

  /** Events without an attempt or with a purpose leave the streams alone. */
  predicate Streamed(e: Event) {
    e.purpose == [] && e.attempt != []
  }

  ghost function WithoutRun(streams: Streams, run: Bytes): Streams {
    map id | id in streams && streams[id].run != run :: streams[id]
  }

  ghost function WithoutInterrupted(streams: Streams): Streams {
    map id | id in streams && !streams[id].interrupted :: streams[id]
  }

  ghost function Started(streams: Streams, e: Event): Streams {
    var kept := WithoutRun(streams, e.run);
    var swept := if |kept| >= STREAM_SWEEP then WithoutInterrupted(kept) else kept;
    swept[e.attempt := Stream(e.attempt, e.run, [], false, false)]
  }

  function Extended(s: Stream, text: Bytes): Stream {
    if |s.raw| + |text| <= STREAM_LIMIT then s.(raw := s.raw + text) else s.(truncated := true)
  }

  /** The effect of one event on the streams. */
  ghost function StreamsAfter(streams: Streams, e: Event): Streams {
    if !Streamed(e) then streams
    else
      match e.kind
      case ModelStarted => Started(streams, e)
      case ModelText => streams[e.attempt := Extended(StreamOf(streams, e.attempt), e.message)]
      case ModelFinished => streams - {e.attempt}
      case ModelInterrupted => streams[e.attempt := StreamOf(streams, e.attempt).(interrupted := true)]
      case _ => streams
  }

  ghost function StreamsThrough(streams: Streams, events: seq<Event>): Streams {
    if events == [] then streams
    else StreamsAfter(StreamsThrough(streams, events[..|events| - 1]), events[|events| - 1])
  }

  predicate OwnText(e: Event, attempt: Bytes) {
    Streamed(e) && e.attempt == attempt && e.kind == ModelText
  }

  /** The text of an attempt's own text events, in order. */
  function TextOf(events: seq<Event>, attempt: Bytes): Bytes {
    if events == [] then []
    else
      var last := events[|events| - 1];
      TextOf(events[..|events| - 1], attempt) + (if OwnText(last, attempt) then last.message else [])
  }

  /** e neither starts, ends nor interrupts the attempt, and starts no other
      attempt of its run. */
  predicate Quiet(e: Event, attempt: Bytes, run: Bytes) {
    Streamed(e) ==>
      && (e.kind == ModelStarted ==> e.attempt != attempt && e.run != run)
      && (e.attempt == attempt ==> e.kind != ModelFinished && e.kind != ModelInterrupted)
  }

  /** The stream of an attempt that is still running. */
  ghost predicate Running(streams: Streams, attempt: Bytes, run: Bytes) {
    attempt in streams && streams[attempt].run == run && !streams[attempt].interrupted
  }

  lemma RunningStep(streams: Streams, e: Event, attempt: Bytes, run: Bytes)
    requires Running(streams, attempt, run) && Quiet(e, attempt, run)
    ensures Running(StreamsAfter(streams, e), attempt, run)
    ensures StreamsAfter(streams, e)[attempt] ==
      if OwnText(e, attempt) then Extended(streams[attempt], e.message) else streams[attempt]
  {}

  /** While an attempt runs, its stream holds the text it had plus all the text
      since, for as long as it is not marked truncated; and the mark is set
      exactly when some of that text is missing. */
  lemma {:induction false} RunningText(streams: Streams, events: seq<Event>, attempt: Bytes, run: Bytes)
    requires Running(streams, attempt, run) && !streams[attempt].truncated
    requires forall e <- events :: Quiet(e, attempt, run)
    requires |streams[attempt].raw| <= STREAM_LIMIT
    ensures var after := StreamsThrough(streams, events);
      && Running(after, attempt, run)
      && |after[attempt].raw| <= STREAM_LIMIT
      && |after[attempt].raw| <= |streams[attempt].raw + TextOf(events, attempt)|
      && (after[attempt].truncated ==> |after[attempt].raw| < |streams[attempt].raw + TextOf(events, attempt)|)
      && (!after[attempt].truncated <==> after[attempt].raw == streams[attempt].raw + TextOf(events, attempt))
  {
    if events == [] {
      assert streams[attempt].raw + [] == streams[attempt].raw;
    } else {
      var n := |events| - 1;
      assert forall e <- events[..n] :: e in events;
      RunningText(streams, events[..n], attempt, run);
      var before := StreamsThrough(streams, events[..n]);
      assert events[n] in events;
      RunningStep(before, events[n], attempt, run);
      var had, text := streams[attempt].raw, TextOf(events[..n], attempt);
      if OwnText(events[n], attempt) {
        assert had + (text + events[n].message) == (had + text) + events[n].message;
      } else {
        assert had + (text + []) == had + text;
      }
    }
  }

  /** From its start, an attempt's stream is all its text exactly while it is
      not truncated. */
  lemma StreamIsWholeText(streams: Streams, start: Event, events: seq<Event>)
    requires Streamed(start) && start.kind == ModelStarted
    requires forall e <- events :: Quiet(e, start.attempt, start.run)
    ensures var after := StreamsThrough(StreamsAfter(streams, start), events);
      && start.attempt in after && |after[start.attempt].raw| <= STREAM_LIMIT
      && (!after[start.attempt].truncated <==> after[start.attempt].raw == TextOf(events, start.attempt))
  {
    RunningText(StreamsAfter(streams, start), events, start.attempt, start.run);
    assert [] + TextOf(events, start.attempt) == TextOf(events, start.attempt);
  }

  ghost predicate StreamsBounded(streams: Streams) {
    forall id <- streams :: |streams[id].raw| <= STREAM_LIMIT
  }

  /** No event makes a stream longer than the limit, whatever order events come in. */
  lemma StreamsStayBounded(streams: Streams, e: Event)
    requires StreamsBounded(streams)
    ensures StreamsBounded(StreamsAfter(streams, e))
  {}

  /** A stream names the attempt it is kept under, unless it never saw a start. */
  ghost predicate StreamsKeyed(streams: Streams) {
    forall id <- streams :: streams[id].attempt == id || streams[id].attempt == []
  }

  lemma StreamsStayKeyed(streams: Streams, e: Event)
    requires StreamsKeyed(streams)
    ensures StreamsKeyed(StreamsAfter(streams, e))
  {}

  lemma {:induction false} StreamsConcat(streams: Streams, a: seq<Event>, b: seq<Event>)
    ensures StreamsThrough(streams, a + b) == StreamsThrough(StreamsThrough(streams, a), b)
  {
    if b == [] {
      assert a + b == a;
    } else {
      var n := |b| - 1;
      assert (a + b)[..|a + b| - 1] == a + b[..n];
      StreamsConcat(streams, a, b[..n]);
    }
  }
}
