/** Reassembly of Lark payloads that arrive in several frames. */
module LarkAssembler {
  import opened Prelude
  import opened LarkFrame
  import Decimal

  const MAX_PARTS := 64
  const MAX_ENTRIES := 16
  const PAYLOAD_LIMIT := 0x10_0000
  const LIFETIME := 5_000_000_000

  const SUM: Bytes := [115, 117, 109]
  const SEQ: Bytes := [115, 101, 113]
  const MESSAGE_ID: Bytes := [109, 101, 115, 115, 97, 103, 101, 95, 105, 100]

  datatype Reason = InvalidCount | InvalidFragment | CapacityReached | Inconsistent | Conflicting | PayloadTooLarge

  datatype Outcome = Complete(payload: Bytes) | Pending | Rejected(reason: Reason)

  /** A message being collected. A part that arrived empty is Some([]). */
  datatype Entry = Entry(at: int, parts: seq<Option<Bytes>>, size: nat, service: u64)

  type Entries = map<Bytes, Entry>

  /** What the headers of a frame say before any stored state is looked at. */
  datatype Request = Whole | Part(sum: nat, index: nat, id: Bytes) | Invalid(reason: Reason)

  function Header(f: Frame, name: Bytes): Bytes {
    if name in f.headers then f.headers[name] else []
  }

  predicate ValidId(id: Bytes) {
    1 <= |id| <= 256 && forall c <- id ::
      97 <= c <= 122 || 65 <= c <= 90 || 48 <= c <= 57 || c == 95 || c == 45 || c == 58 || c == 46
  }

  function Classify(f: Frame): (r: Request)
    ensures r.Part? ==> 2 <= r.sum <= MAX_PARTS && r.index < r.sum
  {
    var sum := if Header(f, SUM) == [] then Some(1) else Decimal.Atoi(Header(f, SUM));
    if sum.None? || sum.value < 1 || sum.value > MAX_PARTS then Invalid(InvalidCount)
    else if sum.value == 1 then Whole
    else
      var index := Decimal.Atoi(Header(f, SEQ));
      var id := Header(f, MESSAGE_ID);
      if index.None? || index.value < 0 || index.value >= sum.value || !ValidId(id) then Invalid(InvalidFragment)
      else Part(sum.value, index.value, id)
  }

  /** A header value as the number it stands for; an absent count stands for one. */
  ghost predicate Says(f: Frame, name: Bytes, n: int) {
    Decimal.Atoi(Header(f, name)) == Some(n) || (name == SUM && Header(f, name) == [] && n == 1)
  }

  /** A frame is whole exactly when its count says one, a fragment exactly when
      count, index and id all make sense, and otherwise it is refused for the
      first of them that does not. */
  lemma ClassifyExactly(f: Frame)
    ensures Classify(f) == Whole <==> Says(f, SUM, 1)
    ensures forall sum: nat, index: nat, id :: Classify(f) == Part(sum, index, id) <==>
      && 2 <= sum <= MAX_PARTS && Says(f, SUM, sum)
      && index < sum && Says(f, SEQ, index)
      && id == Header(f, MESSAGE_ID) && ValidId(id)
    ensures Classify(f) == Invalid(InvalidCount) <==> !(exists n :: 1 <= n <= MAX_PARTS && Says(f, SUM, n))
    ensures Classify(f).Invalid? ==> Classify(f).reason in {InvalidCount, InvalidFragment}
  {
    hide Decimal.Atoi, ValidId;
    EmptyIsNoNumber();
    var sum := if Header(f, SUM) == [] then Some(1) else Decimal.Atoi(Header(f, SUM));
    assert sum.Some? ==> Says(f, SUM, sum.value);
  }

  lemma EmptyIsNoNumber()
    ensures Decimal.Atoi([]) == None
  {}

  predicate Live(e: Entry, now: int) {
    now - e.at <= LIFETIME
  }

  ghost function Unexpired(entries: Entries, now: int): Entries {
    map id | id in entries && Live(entries[id], now) :: entries[id]
  }

  ghost predicate AllPresent(parts: seq<Option<Bytes>>) {
    forall p <- parts :: p.Some?
  }

  function Join(pieces: seq<Bytes>): Bytes {
    if pieces == [] then [] else Join(pieces[..|pieces| - 1]) + pieces[|pieces| - 1]
  }

  function Values(parts: seq<Option<Bytes>>): (pieces: seq<Bytes>)
    requires forall p <- parts :: p.Some?
    ensures |pieces| == |parts|
  {
    seq(|parts|, i requires 0 <= i < |parts| => parts[i].value)
  }

  /** What one fragment does to the entry it belongs to. */
  datatype Progress = Refused(reason: Reason) | Overflow | Grown(entry: Entry) | Done(payload: Bytes)

  ghost function Store(e: Entry, f: Frame, r: Request): Progress
    requires r.Part? && r.index < r.sum
  {
    if |e.parts| != r.sum || e.service != f.service then Refused(Inconsistent)
    else
      var size := if e.parts[r.index].Some? then e.size else e.size + |f.payload|;
      var parts := e.parts[r.index := Some(f.payload)];
      if e.parts[r.index].Some? && e.parts[r.index].value != f.payload then Refused(Conflicting)
      else if e.parts[r.index].None? && size > PAYLOAD_LIMIT then Overflow
      else if AllPresent(parts) then Done(Join(Values(parts)))
      else Grown(Entry(e.at, parts, size, e.service))
  }

  ghost function EntryFor(entries: Entries, f: Frame, now: int, r: Request): Entry
    requires r.Part?
  {
    if r.id in entries then entries[r.id]
    else Entry(now, seq(r.sum, i => None), 0, f.service)
  }

  lemma FreshEntryNotRefused(entries: Entries, f: Frame, now: int, r: Request)
    requires r.Part? && r.index < r.sum && r.id !in entries
    ensures !Store(EntryFor(entries, f, now, r), f, r).Refused?
  {}

  /** The effect of one fragment on the entries that are still live. */
  ghost function Placed(entries: Entries, f: Frame, now: int, r: Request): (Entries, Outcome)
    requires r.Part? && r.index < r.sum
  {
    if r.id !in entries && |entries| >= MAX_ENTRIES then (entries, Rejected(CapacityReached))
    else
      match Store(EntryFor(entries, f, now, r), f, r)
      case Refused(reason) => (entries, Rejected(reason))
      case Overflow => (entries - {r.id}, Rejected(PayloadTooLarge))
      case Grown(entry) => (entries[r.id := entry], Pending)
      case Done(payload) => (entries - {r.id}, Complete(payload))
  }

  /** The effect of Add as a function of the entries, the frame and the clock. */
  ghost function Added(entries: Entries, f: Frame, now: int): (Entries, Outcome) {
    match Classify(f)
    case Invalid(reason) => (entries, Rejected(reason))
    case Whole => (entries, Complete(f.payload))
    case Part(_, _, _) => Placed(Unexpired(entries, now), f, now, Classify(f))
  }

  class LarkAssembler {
    var entries: Entries

    constructor ()
      ensures entries == map[]
    {
      entries := map[];
    }

    method DropExpired(now: int)
      modifies this
      ensures entries == Unexpired(old(entries), now)
    {
      var left := entries.Keys;
      while left != {}
        invariant left <= entries.Keys <= old(entries).Keys
        invariant forall id <- entries :: entries[id] == old(entries)[id]
        invariant forall id <- old(entries) :: id in left || (id in entries <==> Live(old(entries)[id], now))
        decreases |left|
      {
        var id :| id in left;
        left := left - {id};
        if now - entries[id].at > LIFETIME {
          entries := entries - {id};
        }
      }
    }

    method Add(f: Frame, now: int) returns (outcome: Outcome)
      modifies this
      ensures (entries, outcome) == Added(old(entries), f, now)
    {
      var sum := Decimal.Atoi(Header(f, SUM));
      if Header(f, SUM) == [] {
        sum := Some(1);
      }
      if sum.None? || sum.value < 1 || sum.value > MAX_PARTS {
        return Rejected(InvalidCount);
      }
      if sum.value == 1 {
        return Complete(f.payload);
      }
      var index := Decimal.Atoi(Header(f, SEQ));
      var id := Header(f, MESSAGE_ID);
      if index.None? || index.value < 0 || index.value >= sum.value || !ValidId(id) {
        return Rejected(InvalidFragment);
      }
      DropExpired(now);
      outcome := Place(f, now, sum.value, index.value, id);
    }

    /** The entry is looked up or created, filled, and kept or dropped. */
    method Place(f: Frame, now: int, sum: nat, index: nat, id: Bytes) returns (outcome: Outcome)
      requires index < sum
      modifies this
      ensures (entries, outcome) == Placed(old(entries), f, now, Part(sum, index, id))
    {
      hide Store;
      ghost var live := entries;
      if id !in entries {
        if |entries| >= MAX_ENTRIES {
          return Rejected(CapacityReached);
        }
        entries := entries[id := Entry(now, seq(sum, i => None), 0, f.service)];
      }
      assert entries[id] == EntryFor(live, f, now, Part(sum, index, id));
      var progress := Fill(entries[id], f, sum, index, id);
      if id !in live {
        FreshEntryNotRefused(live, f, now, Part(sum, index, id));
      }
      match progress {
        case Refused(reason) =>
          assert entries == live;
          return Rejected(reason);
        case Overflow =>
          entries := entries - {id};
          assert entries == live - {id};
          return Rejected(PayloadTooLarge);
        case Grown(entry) =>
          entries := entries[id := entry];
          assert entries == live[id := entry];
          return Pending;
        case Done(payload) =>
          entries := entries - {id};
          assert entries == live - {id};
          return Complete(payload);
      }
    }

    /** The checks and updates on one entry. */
    method Fill(e: Entry, f: Frame, sum: nat, index: nat, ghost id: Bytes) returns (progress: Progress)
      requires index < sum
      ensures progress == Store(e, f, Part(sum, index, id))
    {
      hide Join, Values, AllPresent;
      var entry := e;
      if |entry.parts| != sum || entry.service != f.service {
        return Refused(Inconsistent);
      }
      if entry.parts[index].Some? {
        if entry.parts[index].value != f.payload {
          return Refused(Conflicting);
        }
      } else {
        entry := entry.(size := entry.size + |f.payload|);
        if entry.size > PAYLOAD_LIMIT {
          return Overflow;
        }
        entry := entry.(parts := entry.parts[index := Some(f.payload)]);
      }
      assert entry.parts == e.parts[index := Some(f.payload)];
      var outcome := Finish(entry.parts);
      progress := if outcome.Complete? then Done(outcome.payload) else Grown(entry);
    }

    /** The two loops over the parts: is one missing, and if not their concatenation. */
    method Finish(parts: seq<Option<Bytes>>) returns (outcome: Outcome)
      ensures outcome == if AllPresent(parts) then Complete(Join(Values(parts))) else Pending
    {
      for i := 0 to |parts|
        invariant forall p <- parts[..i] :: p.Some?
      {
        if parts[i].None? {
          assert parts[i] in parts;
          return Pending;
        }
        assert parts[..i + 1] == parts[..i] + [parts[i]];
      }
      assert parts[..|parts|] == parts;
      var out: Bytes := [];
      ghost var pieces := Values(parts);
      for i := 0 to |parts|
        invariant out == Join(pieces[..i])
      {
        assert pieces[..i + 1][..i] == pieces[..i];
        out := out + parts[i].value;
      }
      assert pieces[..|parts|] == pieces;
      return Complete(out);
    }
  }

  // ----- Bounds kept by every Add -----

  ghost function PresentSize(parts: seq<Option<Bytes>>): nat {
    if parts == [] then 0
    else
      var last := parts[|parts| - 1];
      PresentSize(parts[..|parts| - 1]) + (if last.Some? then |last.value| else 0)
  }

  ghost predicate EntryBounded(e: Entry) {
    && 2 <= |e.parts| <= MAX_PARTS
    && (exists i :: 0 <= i < |e.parts| && e.parts[i].Some?)
    && (exists i :: 0 <= i < |e.parts| && e.parts[i].None?)
    && e.size == PresentSize(e.parts) <= PAYLOAD_LIMIT
  }

  /** The bounds of the assembler's whole memory. */
  ghost predicate Bounded(entries: Entries) {
    |entries| <= MAX_ENTRIES && forall id <- entries :: EntryBounded(entries[id])
  }

  lemma {:induction false} PresentSizeFill(parts: seq<Option<Bytes>>, i: nat, b: Bytes)
    requires i < |parts| && parts[i].None?
    ensures PresentSize(parts[i := Some(b)]) == PresentSize(parts) + |b|
  {
    var n := |parts| - 1;
    var filled := parts[i := Some(b)];
    if i < n {
      assert filled[..n] == parts[..n][i := Some(b)];
      PresentSizeFill(parts[..n], i, b);
    } else {
      assert filled[..n] == parts[..n];
    }
  }

  lemma {:induction false} PresentSizeNone(parts: seq<Option<Bytes>>)
    requires forall p <- parts :: p.None?
    ensures PresentSize(parts) == 0
  {
    if parts != [] {
      assert parts[|parts| - 1] in parts;
      PresentSizeNone(parts[..|parts| - 1]);
    }
  }

  lemma MapSize(small: Entries, big: Entries)
    requires small.Keys <= big.Keys
    ensures |small| <= |big|
  {
    SubsetSize(small.Keys, big.Keys);
  }

  lemma UnexpiredBounded(entries: Entries, now: int)
    requires Bounded(entries)
    ensures Bounded(Unexpired(entries, now))
  {
    MapSize(Unexpired(entries, now), entries);
  }

  /** An entry, old or new, that takes a part and is not complete is bounded. */
  lemma GrownBounded(e: Entry, f: Frame, r: Request)
    requires r.Part? && r.index < r.sum && 2 <= r.sum <= MAX_PARTS
    requires e.size == PresentSize(e.parts) <= PAYLOAD_LIMIT
    ensures Store(e, f, r).Grown? ==> EntryBounded(Store(e, f, r).entry)
  {
    if Store(e, f, r).Grown? {
      var parts := e.parts[r.index := Some(f.payload)];
      if e.parts[r.index].None? {
        PresentSizeFill(e.parts, r.index, f.payload);
      } else {
        assert parts == e.parts;
      }
      assert parts[r.index].Some?;
      var p :| p in parts && p.None?;
      var i :| 0 <= i < |parts| && parts[i] == p;
    }
  }

  lemma EntryForSized(entries: Entries, f: Frame, now: int, r: Request)
    requires r.Part? && Bounded(entries)
    ensures var e := EntryFor(entries, f, now, r); e.size == PresentSize(e.parts) <= PAYLOAD_LIMIT
  {
    if r.id !in entries {
      PresentSizeNone(EntryFor(entries, f, now, r).parts);
    }
  }

  lemma PlacedBounded(entries: Entries, f: Frame, now: int, r: Request)
    requires r.Part? && r.index < r.sum && 2 <= r.sum <= MAX_PARTS
    requires Bounded(entries)
    ensures Bounded(Placed(entries, f, now, r).0)
  {
    hide Store, PresentSize, EntryBounded, EntryFor;
    var e := EntryFor(entries, f, now, r);
    MapSize(entries - {r.id}, entries);
    EntryForSized(entries, f, now, r);
    GrownBounded(e, f, r);
    if r.id in entries {
      assert entries[r.id := e].Keys == entries.Keys;
    }
  }

  /** Every Add, accepted or rejected, keeps the bounds. */
  lemma AddedBounded(entries: Entries, f: Frame, now: int)
    requires Bounded(entries)
    ensures Bounded(Added(entries, f, now).0)
  {
    UnexpiredBounded(entries, now);
    if Classify(f).Part? {
      PlacedBounded(Unexpired(entries, now), f, now, Classify(f));
    }
  }

  datatype Arrival = Arrival(frame: Frame, at: int)

  /** The entries after a sequence of Adds on a new assembler. */
  ghost function Replay(history: seq<Arrival>): Entries {
    if history == [] then map[]
    else
      var n := |history| - 1;
      Added(Replay(history[..n]), history[n].frame, history[n].at).0
  }

  lemma {:induction false} AlwaysBounded(history: seq<Arrival>)
    ensures Bounded(Replay(history)) && |Replay(history)| <= 16
    ensures forall e <- Replay(history).Values :: 2 <= |e.parts| <= 64 && e.size <= 0x10_0000
  {
    if history != [] {
      var n := |history| - 1;
      AlwaysBounded(history[..n]);
      AddedBounded(Replay(history[..n]), history[n].frame, history[n].at);
    }
  }

  /** All the bytes held in unfinished entries. */
  ghost function Buffered(entries: Entries, ids: set<Bytes>): nat
    requires ids <= entries.Keys
  {
    if ids == {} then 0
    else
      var id :| id in ids;
      PresentSize(entries[id].parts) + Buffered(entries, ids - {id})
  }

  lemma {:induction false} BufferedLimit(entries: Entries, ids: set<Bytes>)
    requires ids <= entries.Keys && Bounded(entries)
    ensures Buffered(entries, ids) <= |ids| * PAYLOAD_LIMIT
  {
    if ids != {} {
      var id :| id in ids && Buffered(entries, ids) == PresentSize(entries[id].parts) + Buffered(entries, ids - {id});
      BufferedLimit(entries, ids - {id});
      assert |ids| == |ids - {id}| + 1;
    }
  }

  /** However frames arrive, no more than 16 MiB are ever buffered. */
  lemma NeverMoreThanSixteenMiB(history: seq<Arrival>)
    ensures var entries := Replay(history); Buffered(entries, entries.Keys) <= 0x100_0000
  {
    AlwaysBounded(history);
    BufferedLimit(Replay(history), Replay(history).Keys);
  }
}
