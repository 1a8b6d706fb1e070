/** When an attempt has live text, told by the events alone. */
module StreamLife {
  import opened Prelude
  import opened Events
  import EventHub
  import HubRuns
  import Utf8

  /** An event of the attempt itself: without a purpose, and with its name. */
  predicate Of(e: Event, attempt: Bytes) {
    e.purpose == [] && e.attempt == attempt
  }

  /** An event that can give the attempt a stream. */
  predicate Revives(e: Event, attempt: Bytes) {
    Of(e, attempt) && (e.kind == ModelStarted || e.kind == ModelText || e.kind == ModelInterrupted)
  }

  lemma ThroughSnoc(streams: Streams, events: seq<Event>, e: Event)
    ensures StreamsThrough(streams, events + [e]) == StreamsAfter(StreamsThrough(streams, events), e)
  {
    assert (events + [e])[..|events|] == events;
  }

  lemma {:induction false} StaysGone(streams: Streams, events: seq<Event>, attempt: Bytes)
    requires attempt !in streams && forall e <- events :: !Revives(e, attempt)
    ensures attempt !in StreamsThrough(streams, events)
  {
    if events != [] {
      var n := |events| - 1;
      assert events[n] in events && forall e <- events[..n] :: e in events;
      StaysGone(streams, events[..n], attempt);
    }
  }

  /** A finished attempt has no stream until it is started, written to or
      interrupted again, whatever else happens. */
  lemma FinishedIsGone(streams: Streams, before: seq<Event>, e: Event, after: seq<Event>, attempt: Bytes)
    requires attempt != [] && Of(e, attempt) && e.kind == ModelFinished
    requires forall x <- after :: !Revives(x, attempt)
    ensures attempt !in StreamsThrough(streams, before + [e] + after)
  {
    ThroughSnoc(streams, before, e);
    StreamsConcat(streams, before + [e], after);
    StaysGone(StreamsThrough(streams, before + [e]), after, attempt);
  }

  /** An interruption keeps the text and marks it. */
  lemma InterruptedKeepsText(streams: Streams, before: seq<Event>, e: Event, attempt: Bytes)
    requires attempt != [] && Of(e, attempt) && e.kind == ModelInterrupted
    ensures var had, has := StreamsThrough(streams, before), StreamsThrough(streams, before + [e]);
      && attempt in has && has[attempt].interrupted
      && (attempt in had ==>
            has[attempt].raw == had[attempt].raw && has[attempt].truncated == had[attempt].truncated
            && has[attempt].run == had[attempt].run && has[attempt].attempt == had[attempt].attempt)
      && (attempt !in had ==> has[attempt].raw == [] && !has[attempt].truncated)
  {
    ThroughSnoc(streams, before, e);
  }

  /** A start gives its attempt an empty stream and leaves no older one of its
      run. Every other stream stays, unless 16 or more were left: then those
      that are interrupted go. */
  lemma StartedExactly(streams: Streams, before: seq<Event>, e: Event, attempt: Bytes)
    requires attempt != [] && Of(e, attempt) && e.kind == ModelStarted
    ensures var had, has := StreamsThrough(streams, before), StreamsThrough(streams, before + [e]);
      var others := set id | id in had && had[id].run != e.run;
      && attempt in has && has[attempt] == Stream(attempt, e.run, [], false, false)
      && (forall id :: id != attempt ==>
            (id in has <==> id in others && (|others| < 16 || !had[id].interrupted))
            && (id in has ==> has[id] == had[id]))
      && (forall id <- has :: has[id].run == e.run ==> id == attempt)
  {
    ThroughSnoc(streams, before, e);
    var had := StreamsThrough(streams, before);
    assert WithoutRun(had, e.run).Keys == set id | id in had && had[id].run != e.run;
  }

  /** Text is appended as long as the stream stays within 1 MiB. */
  lemma TextExactly(streams: Streams, before: seq<Event>, e: Event, attempt: Bytes)
    requires attempt != [] && Of(e, attempt) && e.kind == ModelText
    ensures var had, has := StreamsThrough(streams, before), StreamsThrough(streams, before + [e]);
      var raw := if attempt in had then had[attempt].raw else [];
      && attempt in has
      && has[attempt].raw == (if |raw| + |e.message| <= 0x10_0000 then raw + e.message else raw)
      && (|raw| + |e.message| > 0x10_0000 ==> has[attempt].truncated)
      && (attempt in had ==> has[attempt].interrupted == had[attempt].interrupted)
  {
    ThroughSnoc(streams, before, e);
  }

  /** While an attempt runs, its stream is truncated exactly when all its text
      together exceeds 1 MiB. */
  lemma {:induction false} TruncatedExactly(streams: Streams, events: seq<Event>, attempt: Bytes, run: Bytes)
    requires Running(streams, attempt, run) && !streams[attempt].truncated
    requires forall e <- events :: Quiet(e, attempt, run)
    requires |streams[attempt].raw| <= 0x10_0000
    ensures var after := StreamsThrough(streams, events);
      && attempt in after
      && (after[attempt].truncated <==> |streams[attempt].raw| + |TextOf(events, attempt)| > 0x10_0000)
  {
    RunningText(streams, events, attempt, run);
    if events != [] {
      var n := |events| - 1;
      assert events[n] in events && forall e <- events[..n] :: e in events;
      TruncatedExactly(streams, events[..n], attempt, run);
      RunningText(streams, events[..n], attempt, run);
      RunningStep(StreamsThrough(streams, events[..n]), events[n], attempt, run);
    }
  }

  /** Events with a purpose, events without an attempt, and events of other kinds
      change no stream; and no event of one attempt but a start changes another's. */
  lemma OthersUntouched(streams: Streams, before: seq<Event>, e: Event, attempt: Bytes)
    ensures var had, has := StreamsThrough(streams, before), StreamsThrough(streams, before + [e]);
      && (e.purpose != [] || e.attempt == [] || e.kind == Refresh || e.kind.Other? ==> has == had)
      && (e.attempt != attempt && e.kind != ModelStarted ==>
            (attempt in has <==> attempt in had) && (attempt in had ==> has[attempt] == had[attempt]))
  {
    ThroughSnoc(streams, before, e);
  }

  /** In a server: after an attempt finished, the streams have nothing of it until
      another event of it gives it a stream. */
  lemma FinishedNotShown(h: EventHub.Hub, e: Event, actions: seq<HubRuns.Action>, attempt: Bytes)
    requires attempt != [] && Of(e, attempt) && e.kind == ModelFinished
    requires forall a <- actions :: a.EventArrives? ==> !Revives(a.event, attempt)
    ensures attempt !in HubRuns.Run(HubRuns.Step(h, HubRuns.EventArrives(e)), actions).streams
  {
    hide HubRuns.Run, HubRuns.Step;
    FinishStep(h, e, attempt);
    NeverRevived(HubRuns.Step(h, HubRuns.EventArrives(e)), actions, attempt);
  }

  lemma FinishStep(h: EventHub.Hub, e: Event, attempt: Bytes)
    requires attempt != [] && Of(e, attempt) && e.kind == ModelFinished
    ensures attempt !in HubRuns.Step(h, HubRuns.EventArrives(e)).streams
  {
    hide EventHub.LastOf, EventHub.BroadcastChannels, EventHub.Remaining;
  }

  lemma {:induction false} NeverRevived(h: EventHub.Hub, actions: seq<HubRuns.Action>, attempt: Bytes)
    requires attempt !in h.streams
    requires forall a <- actions :: a.EventArrives? ==> !Revives(a.event, attempt)
    ensures attempt !in HubRuns.Run(h, actions).streams
  {
    hide HubRuns.Step;
    if actions != [] {
      var n := |actions| - 1;
      assert actions[n] in actions && forall a <- actions[..n] :: a in actions;
      NeverRevived(h, actions[..n], attempt);
      NotRevivedStep(HubRuns.Run(h, actions[..n]), actions[n], attempt);
    }
  }

  lemma NotRevivedStep(h: EventHub.Hub, a: HubRuns.Action, attempt: Bytes)
    requires attempt !in h.streams && (a.EventArrives? ==> !Revives(a.event, attempt))
    ensures attempt !in HubRuns.Step(h, a).streams
  {
    hide EventHub.LastOf, EventHub.BroadcastChannels, EventHub.Remaining, EventHub.Blank;
  }

  // ----- What is recorded and sent -----

  /** An event is recorded as it came, but for its number and generation, which
      are the next one and the current one. */
  lemma RecordedAsItCame(h: EventHub.Hub, e: Event)
    ensures var h' := HubRuns.Step(h, HubRuns.EventArrives(e));
      && |h'.history| == |h.history| + 1
      && (var r := h'.history[|h.history|];
          && r.seqNo == h.eventSeq + 1 && r.generation == h.generation
          && r.kind == e.kind && r.purpose == e.purpose && r.attempt == e.attempt && r.run == e.run
          && r.chat == e.chat && r.message == e.message)
  {
    hide EventHub.LastOf, EventHub.BroadcastChannels, EventHub.Remaining, StreamsAfter;
  }

  /** A notice carries its kind, conversation and message and nothing else. */
  lemma NoticeCarries(h: EventHub.Hub, kind: Kind, chat: Bytes, message: Bytes)
    requires kind != ModelText
    ensures var h' := HubRuns.Step(h, HubRuns.Notified(kind, chat, message));
      && h'.history == h.history + [Event(h.eventSeq + 1, h.generation, kind, [], [], [], chat, message)]
      && h'.frames == h.frames + [Event(h.eventSeq + 1, h.generation, kind, [], [], [], chat, message)]
  {
    hide EventHub.LastOf, EventHub.BroadcastChannels, EventHub.Remaining, StreamsAfter;
  }

  /** Listeners get an event as it was recorded unless its message exceeds 64 KiB;
      then they get a refresh without message, otherwise the same. */
  lemma SentAsRecorded(h: EventHub.Hub, e: Event)
    ensures var h' := HubRuns.Step(h, HubRuns.EventArrives(e));
      && |h'.frames| == |h.frames| + 1 && |h'.history| == |h.history| + 1
      && (var r, f := h'.history[|h.history|], h'.frames[|h.frames|];
          f == if |e.message| <= 0x1_0000 then r else r.(kind := Refresh, message := []))
  {
    hide EventHub.LastOf, EventHub.BroadcastChannels, EventHub.Remaining, StreamsAfter;
  }

  /** A ninth event stream is refused; any other gets an empty, open channel. */
  lemma RegisteredExactly(h: EventHub.Hub, id: nat)
    requires id !in h.channels
    ensures var h' := HubRuns.Step(h, HubRuns.Registered(id));
      if |h.listeners| >= 8 then h' == h
      else
        && h'.listeners == h.listeners + {id} && id in h'.channels
        && h'.channels[id].buffer == [] && h'.channels[id].taken == [] && !h'.channels[id].closed
        && h'.history == h.history && h'.streams == h.streams
  {}

  /** A generation of white space alone is ignored; any other restarts the numbers
      and the log, and nothing else. */
  lemma GenerationExactly(h: EventHub.Hub, g: Bytes)
    ensures var h' := HubRuns.Step(h, HubRuns.NewGeneration(g));
      if EventHub.Blank(g) then h' == h
      else
        && h'.generation == g && h'.eventSeq == 0 && h'.stateSeq == 0 && h'.eventLog == []
        && h'.streams == h.streams && h'.listeners == h.listeners && h'.channels == h.channels && h'.history == h.history
  {
    hide EventHub.Blank;
  }

  lemma BlankExamples()
    ensures EventHub.Blank([]) && EventHub.Blank(Ascii(" \t")) && EventHub.Blank([0xC2, 0xA0])
    ensures !EventHub.Blank(Ascii("g")) && !EventHub.Blank(Ascii(" g"))
  {
    assert EventHub.Blank([]) && EventHub.Blank([0xC2, 0xA0]) by { NothingAndNoBreak(); }
    hide EventHub.Blank;
    assert Ascii(" \t") == [0x20] + ([0x09] + []);
    OneRune(0x20, [0x09] + []);
    OneRune(0x09, []);
    assert Ascii("g") == [0x67] + [] && Ascii(" g") == [0x20] + ([0x67] + []);
    OneRune(0x67, []);
    OneRune(0x20, [0x67] + []);
  }

  lemma NothingAndNoBreak()
    ensures EventHub.Blank([]) && EventHub.Blank([0xC2, 0xA0])
  {
    assert Utf8.Runes([]) == [];
    assert Utf8.DecodeRune([0xC2, 0xA0]) == Utf8.Rune(0xA0, 2, true);
    assert [0xC2, 0xA0][2..] == [];
    assert Utf8.Runes([0xC2, 0xA0]) == [Utf8.Rune(0xA0, 2, true)];
  }

  lemma OneRune(c: byte, rest: Bytes)
    requires c < 128
    ensures EventHub.Blank([c] + rest) <==> EventHub.IsSpace(c) && EventHub.Blank(rest)
  {
    assert ([c] + rest)[1..] == rest;
    assert Utf8.Runes([c] + rest) == [Utf8.Rune(c, 1, true)] + Utf8.Runes(rest);
  }
}
