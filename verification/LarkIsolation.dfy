/** What a message yields depends on its own accepted fragments alone. */
module LarkIsolation {
  import opened Prelude
  import opened LarkFrame
  import opened LarkAssembler
  import opened LarkProvenance

  /** The entry of id as long as it has not expired. */
  ghost function LiveEntry(entries: Entries, id: Bytes, now: int): Option<Entry> {
    if id in entries && Live(entries[id], now) then Some(entries[id]) else None
  }

  /** The arrival belongs to id and was accepted, or was the one that pushed the
      message over the limit. */
  ghost predicate Matters(entries: Entries, a: Arrival, id: Bytes) {
    var outcome := Added(entries, a.frame, a.at).1;
    && Classify(a.frame).Part? && Classify(a.frame).id == id
    && (outcome.Rejected? ==> outcome.reason == PayloadTooLarge)
  }

  /** The arrivals of a history that matter to id, and what they were answered. */
  ghost function Own(history: seq<Arrival>, id: Bytes): seq<Arrival> {
    if history == [] then []
    else
      var n := |history| - 1;
      var earlier := Own(history[..n], id);
      if Matters(Replay(history[..n]), history[n], id) then earlier + [history[n]] else earlier
  }

  ghost function Answers(history: seq<Arrival>, id: Bytes): seq<Outcome> {
    if history == [] then []
    else
      var n := |history| - 1;
      var entries, earlier := Replay(history[..n]), Answers(history[..n], id);
      if Matters(entries, history[n], id) then earlier + [Added(entries, history[n].frame, history[n].at).1] else earlier
  }

  /** Two assemblers hold the same of id, from now on. */
  ghost predicate Agree(entries: Entries, other: Entries, id: Bytes, clock: int) {
    forall now :: clock <= now ==> LiveEntry(entries, id, now) == LiveEntry(other, id, now)
  }

  /** An arrival that does not matter to id leaves its entry as it was. */
  lemma Irrelevant(entries: Entries, a: Arrival, id: Bytes, now: int)
    requires !Matters(entries, a, id) && a.at <= now
    ensures LiveEntry(Added(entries, a.frame, a.at).0, id, now) == LiveEntry(entries, id, now)
  {
    hide Classify;
    if Classify(a.frame).Part? {
      PlacedIrrelevant(Unexpired(entries, a.at), a.frame, a.at, Classify(a.frame), id);
      assert id in Unexpired(entries, a.at) ==> Unexpired(entries, a.at)[id] == entries[id];
    }
  }

  lemma PlacedIrrelevant(live: Entries, f: Frame, now: int, r: Request, id: Bytes)
    requires r.Part? && r.index < r.sum
    requires r.id == id ==> Placed(live, f, now, r).1.Rejected? && Placed(live, f, now, r).1.reason != PayloadTooLarge
    ensures var left := Placed(live, f, now, r).0;
      (id in left <==> id in live) && (id in live ==> left[id] == live[id])
  {
    hide Store;
    match Store(EntryFor(live, f, now, r), f, r)
    case Refused(_) =>
    case Overflow =>
    case Grown(_) =>
    case Done(_) =>
  }

  /** An arrival that matters does the same in an assembler that holds the same
      of id and nothing else. */
  lemma Relevant(entries: Entries, other: Entries, a: Arrival, id: Bytes)
    requires Matters(entries, a, id) && other.Keys <= {id}
    requires LiveEntry(entries, id, a.at) == LiveEntry(other, id, a.at)
    ensures var (left, outcome) := Added(entries, a.frame, a.at);
      var (left', outcome') := Added(other, a.frame, a.at);
      && outcome == outcome' && Matters(other, a, id) && left'.Keys <= {id}
      && (id in left <==> id in left') && (id in left ==> left[id] == left'[id])
  {
    hide Classify, Store;
    var live, live' := Unexpired(entries, a.at), Unexpired(other, a.at);
    var r := Classify(a.frame);
    assert live'.Keys <= {id};
    SubsetSize(live'.Keys, {id});
    assert EntryFor(live, a.frame, a.at, r) == EntryFor(live', a.frame, a.at, r);
    PlacedAlike(live, live', a.frame, a.at, r);
  }

  lemma PlacedAlike(live: Entries, live': Entries, f: Frame, now: int, r: Request)
    requires r.Part? && r.index < r.sum && |live'| < MAX_ENTRIES
    requires (r.id in live <==> r.id in live') && (r.id in live ==> live[r.id] == live'[r.id])
    requires EntryFor(live, f, now, r) == EntryFor(live', f, now, r)
    requires Placed(live, f, now, r).1.Rejected? ==> Placed(live, f, now, r).1.reason == PayloadTooLarge
    ensures var (left, outcome) := Placed(live, f, now, r);
      var (left', outcome') := Placed(live', f, now, r);
      && outcome == outcome' && left'.Keys <= live'.Keys + {r.id}
      && (r.id in left <==> r.id in left') && (r.id in left ==> left[r.id] == left'[r.id])
  {
    hide EntryFor;
    RefusedForReason(EntryFor(live, f, now, r), f, r);
    hide Store;
    match Store(EntryFor(live, f, now, r), f, r)
    case Refused(_) =>
    case Overflow =>
    case Grown(_) =>
    case Done(_) =>
  }

  lemma RefusedForReason(e: Entry, f: Frame, r: Request)
    requires r.Part? && r.index < r.sum
    ensures Store(e, f, r).Refused? ==> Store(e, f, r).reason != PayloadTooLarge
  {}

  /** Isolation over every run with a clock that does not go back: replaying the
      arrivals that matter to id alone, without the other messages, without what
      was rejected, and without the capacity they took, answers each of them as
      before and leaves the same entry. */
  lemma {:induction false} Isolation(history: seq<Arrival>, id: Bytes, clock: int)
    requires Ordered(history) && forall a <- history :: a.at <= clock
    ensures var own := Own(history, id);
      && Own(own, id) == own && Answers(own, id) == Answers(history, id)
      && Replay(own).Keys <= {id} && Agree(Replay(history), Replay(own), id, clock)
  {
    hide Added, Matters, LiveEntry;
    if history != [] {
      var n := |history| - 1;
      var before, a := history[..n], history[n];
      Earlier(history);
      Isolation(before, id, a.at);
      var own := Own(before, id);
      assert a in history;
      if Matters(Replay(before), a, id) {
        assert (own + [a])[..|own|] == own;
        Relevant(Replay(before), Replay(own), a, id);
        SameEntryAgrees(Replay(history), Replay(own + [a]), id, clock);
      } else {
        forall now | clock <= now
          ensures LiveEntry(Replay(history), id, now) == LiveEntry(Replay(own), id, now)
        {
          Irrelevant(Replay(before), a, id, now);
        }
      }
    }
  }

  lemma Earlier(history: seq<Arrival>)
    requires Ordered(history) && history != []
    ensures var n := |history| - 1;
      Ordered(history[..n]) && forall a <- history[..n] :: a.at <= history[n].at
  {
    var n := |history| - 1;
    forall a <- history[..n] ensures a.at <= history[n].at {
      var j :| 0 <= j < n && history[..n][j] == a;
      assert history[j] == a;
    }
  }

  lemma SameEntryAgrees(entries: Entries, other: Entries, id: Bytes, clock: int)
    requires (id in entries <==> id in other) && (id in entries ==> entries[id] == other[id])
    ensures Agree(entries, other, id, clock)
  {}
}
