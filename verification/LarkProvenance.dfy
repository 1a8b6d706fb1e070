/** Where the bytes of a reassembled payload come from, and what cannot change them. */
module LarkProvenance {
  import opened Prelude
  import opened LarkFrame
  import opened LarkAssembler
  import opened LarkReassembly

  /** What the Add of an arrival answered. */
  ghost function OutcomeOf(h: seq<Arrival>, k: nat): Outcome
    requires k < |h|
  {
    Added(Replay(h[..k]), h[k].frame, h[k].at).1
  }

  /** Arrival k was accepted and brought part i of sum of message id, no earlier than since. */
  ghost predicate Brought(h: seq<Arrival>, k: nat, id: Bytes, sum: nat, i: nat, service: u64, bytes: Bytes, since: int)
    requires k < |h|
  {
    && !OutcomeOf(h, k).Rejected?
    && Classify(h[k].frame) == Part(sum, i, id)
    && h[k].frame.service == service && h[k].frame.payload == bytes
    && since <= h[k].at
  }

  ghost predicate Sourced(h: seq<Arrival>, id: Bytes, sum: nat, i: nat, service: u64, bytes: Bytes, since: int) {
    exists k :: 0 <= k < |h| && Brought(h, k, id, sum, i, service, bytes, since)
  }

  /** Every part an entry holds was brought since the entry was opened. */
  ghost predicate EntrySourced(e: Entry, id: Bytes, h: seq<Arrival>) {
    forall i :: 0 <= i < |e.parts| && e.parts[i].Some? ==>
      Sourced(h, id, |e.parts|, i, e.service, e.parts[i].value, e.at)
  }

  ghost predicate AllSourced(entries: Entries, h: seq<Arrival>, clock: int) {
    forall id <- entries :: EntrySourced(entries[id], id, h) && entries[id].at <= clock
  }

  /** A payload made of one fragment per position, all of one message, service
      and count, each brought at most a lifetime before now. */
  ghost predicate BuiltFrom(h: seq<Arrival>, payload: Bytes, id: Bytes, sum: nat, service: u64, now: int) {
    exists pieces: seq<Bytes> :: |pieces| == sum && Join(pieces) == payload
      && forall i :: 0 <= i < sum ==> Sourced(h, id, sum, i, service, pieces[i], now - LIFETIME)
  }

  lemma SourcedLater(h: seq<Arrival>, a: Arrival, id: Bytes, sum: nat, i: nat, service: u64, bytes: Bytes, since: int, earlier: int)
    requires Sourced(h, id, sum, i, service, bytes, since) && earlier <= since
    ensures Sourced(h + [a], id, sum, i, service, bytes, earlier)
  {
    hide Classify, Added, Replay;
    var k :| 0 <= k < |h| && Brought(h, k, id, sum, i, service, bytes, since);
    assert (h + [a])[k] == h[k] && (h + [a])[..k] == h[..k];
    assert Brought(h + [a], k, id, sum, i, service, bytes, earlier);
  }

  /** An entry that takes a fragment is sourced from the longer history. */
  lemma StoreSourced(e: Entry, h: seq<Arrival>, f: Frame, now: int, r: Request)
    requires r == Classify(f) && r.Part? && r.index < r.sum
    requires EntrySourced(e, r.id, h) && e.at <= now <= e.at + LIFETIME
    requires Store(e, f, r).Grown? || Store(e, f, r).Done? ==> !Added(Replay(h), f, now).1.Rejected?
    ensures var h' := h + [Arrival(f, now)];
      match Store(e, f, r)
      case Grown(e') => EntrySourced(e', r.id, h') && e'.at <= now
      case Done(payload) => BuiltFrom(h', payload, r.id, r.sum, f.service, now)
      case _ => true
  {
    hide Classify, Join, Brought, Added, Replay;
    var h' := h + [Arrival(f, now)];
    var p := Store(e, f, r);
    if p.Grown? || p.Done? {
      var parts := e.parts[r.index := Some(f.payload)];
      forall i, since | 0 <= i < |parts| && parts[i].Some? && since <= e.at
        ensures Sourced(h', r.id, |parts|, i, e.service, parts[i].value, since)
      {
        if i == r.index {
          LastBrought(h, f, now, r, since);
        } else {
          SourcedLater(h, Arrival(f, now), r.id, |parts|, i, e.service, parts[i].value, e.at, since);
        }
      }
      if p.Done? {
        var pieces := Values(parts);
        forall i | 0 <= i < r.sum
          ensures Sourced(h', r.id, r.sum, i, f.service, pieces[i], now - LIFETIME)
        {
          assert parts[i] in parts;
        }
      }
    }
  }

  lemma LastBrought(h: seq<Arrival>, f: Frame, now: int, r: Request, since: int)
    requires r == Classify(f) && r.Part? && since <= now && !Added(Replay(h), f, now).1.Rejected?
    ensures Sourced(h + [Arrival(f, now)], r.id, r.sum, r.index, f.service, f.payload, since)
  {
    hide Classify, Added, Replay;
    var h' := h + [Arrival(f, now)];
    assert h'[|h|] == Arrival(f, now) && h'[..|h|] == h;
    assert Brought(h', |h|, r.id, r.sum, r.index, f.service, f.payload, since);
  }

  lemma AllSourcedLater(entries: Entries, h: seq<Arrival>, a: Arrival, clock: int)
    requires AllSourced(entries, h, clock) && clock <= a.at
    ensures AllSourced(entries, h + [a], a.at)
  {
    hide Sourced;
    forall id <- entries
      ensures EntrySourced(entries[id], id, h + [a])
    {
      var e := entries[id];
      forall i | 0 <= i < |e.parts| && e.parts[i].Some?
        ensures Sourced(h + [a], id, |e.parts|, i, e.service, e.parts[i].value, e.at)
      {
        SourcedLater(h, a, id, |e.parts|, i, e.service, e.parts[i].value, e.at, e.at);
      }
    }
  }

  lemma AddedSourced(entries: Entries, h: seq<Arrival>, f: Frame, now: int, clock: int)
    requires AllSourced(entries, h, clock) && clock <= now && entries == Replay(h)
    ensures var h' := h + [Arrival(f, now)];
      var (entries', outcome) := Added(entries, f, now);
      && AllSourced(entries', h', now)
      && (Classify(f).Part? && outcome.Complete? ==>
            BuiltFrom(h', outcome.payload, Classify(f).id, Classify(f).sum, f.service, now))
  {
    hide Classify, Store, BuiltFrom, Sourced, EntrySourced, Replay;
    AllSourcedLater(entries, h, Arrival(f, now), clock);
    var r := Classify(f);
    if r.Part? {
      var live := Unexpired(entries, now);
      var e := EntryFor(live, f, now, r);
      if r.id in live {
        assert e == entries[r.id];
      } else {
        NothingHeld(e, r.id, h);
      }
      if !Added(entries, f, now).1.Rejected? {
        StoreSourced(e, h, f, now, r);
      }
      assert forall id <- live :: live[id] == entries[id];
    }
  }

  lemma NothingHeld(e: Entry, id: Bytes, h: seq<Arrival>)
    requires forall i :: 0 <= i < |e.parts| ==> e.parts[i].None?
    ensures EntrySourced(e, id, h)
  {}

  ghost predicate Ordered(history: seq<Arrival>) {
    forall j, k :: 0 <= j < k < |history| ==> history[j].at <= history[k].at
  }

  lemma {:induction false} ReplaySourced(history: seq<Arrival>, clock: int)
    requires Ordered(history) && (forall a <- history :: a.at <= clock)
    ensures AllSourced(Replay(history), history, clock)
  {
    if history != [] {
      var n := |history| - 1;
      var before, a := history[..n], history[n];
      assert history == before + [a];
      forall b <- before ensures b.at <= a.at {
        var j :| 0 <= j < n && before[j] == b;
        assert history[j] == b && history[n] == a;
      }
      ReplaySourced(before, a.at);
      AddedSourced(Replay(before), before, a.frame, a.at, a.at);
      assert a in history;
    }
  }

  /** Over any run with a clock that does not go back, a multi-part payload is
      put together only from fragments of one message, one service and one
      count, each of which was accepted within the last five seconds. */
  lemma CompletedFromFragments(history: seq<Arrival>, f: Frame, now: int)
    requires Ordered(history + [Arrival(f, now)])
    requires Classify(f).Part? && Added(Replay(history), f, now).1.Complete?
    ensures BuiltFrom(history + [Arrival(f, now)], Added(Replay(history), f, now).1.payload,
                      Classify(f).id, Classify(f).sum, f.service, now)
  {
    hide Classify, Added, Replay, BuiltFrom;
    var all := history + [Arrival(f, now)];
    forall a <- history ensures a.at <= now {
      var j :| 0 <= j < |history| && history[j] == a;
      assert all[j] == a && all[|history|] == Arrival(f, now);
    }
    forall j, k | 0 <= j < k < |history| ensures history[j].at <= history[k].at {
      assert all[j] == history[j] && all[k] == history[k];
    }
    ReplaySourced(history, now);
    AddedSourced(Replay(history), history, f, now, now);
  }

  /** The fragment takes a part its entry still misses and would push the entry
      over the limit: the guard of the branch that discards the entry. */
  ghost predicate Overflows(e: Entry, f: Frame, id: Bytes) {
    var r := Classify(f);
    && r.Part? && r.id == id
    && |e.parts| == r.sum && e.service == f.service && e.parts[r.index].None?
    && e.size + |f.payload| > PAYLOAD_LIMIT
  }

  /** A rejected Add discards a live entry exactly when its fragment would push
      that entry over the limit, and otherwise leaves it as it was. */
  lemma RejectedLeavesEntry(entries: Entries, f: Frame, now: int, id: Bytes)
    requires id in entries && Live(entries[id], now)
    ensures var (entries', outcome) := Added(entries, f, now);
      && (outcome.Rejected? && id !in entries' <==> Overflows(entries[id], f, id))
      && (outcome.Rejected? && id in entries' ==> entries'[id] == entries[id])
  {
    hide Classify;
    if Classify(f).Part? {
      var live := Unexpired(entries, now);
      assert live[id] == entries[id];
      Placement(live, f, now, Classify(f), id);
    }
  }

  lemma Placement(entries: Entries, f: Frame, now: int, r: Request, id: Bytes)
    requires r.Part? && r.index < r.sum && id in entries
    ensures var (entries', outcome) := Placed(entries, f, now, r);
      && (outcome.Rejected? && id !in entries' <==> r.id == id && Store(entries[id], f, r).Overflow?)
      && (outcome.Rejected? && id in entries' ==> entries'[id] == entries[id])
  {
    hide Store;
    match Store(EntryFor(entries, f, now, r), f, r)
    case Refused(_) =>
    case Overflow =>
    case Grown(_) =>
    case Done(_) =>
  }

  /** It does happen: two fragments of one message that are too long together. The
      first waits for the second, and the second discards the first. */
  lemma OverflowDiscards(base: Frame, id: Bytes, a: Bytes, b: Bytes, now: int)
    requires ValidId(id) && |a| <= PAYLOAD_LIMIT < |a| + |b|
    ensures var first, second := PieceFrame(base, id, [a, b], 0), PieceFrame(base, id, [a, b], 1);
      && id in Replay([Arrival(first, now)]) && Overflows(Replay([Arrival(first, now)])[id], second, id)
      && Added(Replay([Arrival(first, now)]), second, now).1 == Rejected(PayloadTooLarge)
      && id !in Replay([Arrival(first, now), Arrival(second, now)])
  {
    hide Classify, ValidId;
    var first, second := PieceFrame(base, id, [a, b], 0), PieceFrame(base, id, [a, b], 1);
    PieceHeaders(base, id, [a, b], 0);
    PieceHeaders(base, id, [a, b], 1);
    var one := [Arrival(first, now)];
    assert one[..0] == [];
    var empty := Entry(now, seq(2, i => None), 0, base.service);
    var parts := empty.parts[0 := Some(a)];
    assert parts[1] in parts;
    assert Replay(one) == map[id := Entry(now, parts, |a|, base.service)];
    var two := [Arrival(first, now), Arrival(second, now)];
    assert two[..1] == one;
    RejectedLeavesEntry(Replay(one), second, now, id);
  }

  lemma PieceHeaders(base: Frame, id: Bytes, pieces: seq<Bytes>, i: nat)
    requires 2 <= |pieces| <= MAX_PARTS && i < |pieces| && ValidId(id)
    ensures Classify(PieceFrame(base, id, pieces, i)) == Part(|pieces|, i, id)
  {
    hide Classify;
    HeadersMakePiece(PieceFrame(base, id, pieces, i), id, pieces, i);
  }
}
