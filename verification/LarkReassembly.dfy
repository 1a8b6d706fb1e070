/** What the codec and the assembler guarantee together, over whole runs. */
module LarkReassembly {
  import opened Prelude
  import opened LarkFrame
  import opened LarkAssembler
  import Decimal

  // ----- A payload in pieces -----

  /** f is piece i of the message id. */
  ghost predicate IsPiece(f: Frame, id: Bytes, service: u64, pieces: seq<Bytes>, i: nat)
    requires i < |pieces|
  {
    && Classify(f) == Part(|pieces|, i, id)
    && f.service == service
    && f.payload == pieces[i]
  }

  ghost predicate ArePieces(frames: seq<Frame>, id: Bytes, service: u64, pieces: seq<Bytes>) {
    && |frames| == |pieces|
    && forall i :: 0 <= i < |frames| ==> Fits(frames[i]) && IsPiece(frames[i], id, service, pieces, i)
  }

  /** The three headers a sender writes make a frame the piece it should be. */
  lemma HeadersMakePiece(f: Frame, id: Bytes, pieces: seq<Bytes>, i: nat)
    requires 2 <= |pieces| <= MAX_PARTS && i < |pieces| && ValidId(id)
    requires SUM in f.headers && f.headers[SUM] == Decimal.Itoa(|pieces|)
    requires SEQ in f.headers && f.headers[SEQ] == Decimal.Itoa(i)
    requires MESSAGE_ID in f.headers && f.headers[MESSAGE_ID] == id
    requires f.payload == pieces[i]
    ensures IsPiece(f, id, f.service, pieces, i)
  {
    Decimal.AtoiItoa(|pieces|);
    Decimal.AtoiItoa(i);
  }

  /** A frame made into piece i: its three fragment headers and its payload. */
  function PieceFrame(base: Frame, id: Bytes, pieces: seq<Bytes>, i: nat): Frame
    requires i < |pieces|
  {
    base.(headers := base.headers[SUM := Decimal.Itoa(|pieces|)][SEQ := Decimal.Itoa(i)][MESSAGE_ID := id],
          payload := pieces[i])
  }

  /** Any payload cut into 2 to 64 pieces can be framed, if each frame fits. */
  lemma FramedPieces(base: Frame, id: Bytes, pieces: seq<Bytes>)
    requires 2 <= |pieces| <= MAX_PARTS && ValidId(id)
    requires forall i :: 0 <= i < |pieces| ==> Fits(PieceFrame(base, id, pieces, i))
    ensures ArePieces(seq(|pieces|, i requires 0 <= i < |pieces| => PieceFrame(base, id, pieces, i)), id, base.service, pieces)
  {
    hide Fits, IsPiece;
    forall i | 0 <= i < |pieces|
      ensures IsPiece(PieceFrame(base, id, pieces, i), id, base.service, pieces, i)
    {
      HeadersMakePiece(PieceFrame(base, id, pieces, i), id, pieces, i);
    }
  }

  // ----- Runs over the wire -----

  datatype Message = Message(raw: Bytes, at: int)

  /** Decoding a websocket message and, if that succeeds, adding the frame. */
  ghost function Receive(entries: Entries, m: Message): (Entries, Option<Outcome>) {
    var (f, err) := Decoded(m.raw);
    if err.Some? then (entries, None)
    else
      var (entries', outcome) := Added(entries, f, m.at);
      (entries', Some(outcome))
  }

  ghost function State(entries: Entries, run: seq<Message>): Entries {
    if run == [] then entries
    else Receive(State(entries, run[..|run| - 1]), run[|run| - 1]).0
  }

  ghost function OutcomeAt(entries: Entries, run: seq<Message>, k: nat): Option<Outcome>
    requires k < |run|
  {
    Receive(State(entries, run[..k]), run[k]).1
  }

  /** A message that is not a fragment of id: malformed, whole, rejected by its
      headers, or a fragment of another message. */
  ghost predicate Foreign(m: Message, id: Bytes) {
    var (f, err) := Decoded(m.raw);
    err.None? ==> !(Classify(f).Part? && Classify(f).id == id)
  }

  /** A fragment of id that contradicts what got says is there: another count,
      another service, or other bytes for a piece already received. */
  ghost predicate Contradicts(m: Message, id: Bytes, service: u64, pieces: seq<Bytes>, got: set<nat>) {
    var (f, err) := Decoded(m.raw);
    var r := Classify(f);
    && err.None? && r.Part? && r.id == id
    && (r.sum != |pieces| || f.service != service || (r.index in got && f.payload != pieces[r.index]))
  }

  /** A message that decodes to piece i, in whatever encoding and with whatever
      numbers and other headers it comes. */
  ghost predicate Brings(m: Message, id: Bytes, service: u64, pieces: seq<Bytes>, i: nat) {
    var (f, err) := Decoded(m.raw);
    i < |pieces| && err.None? && IsPiece(f, id, service, pieces, i)
  }

  /** What Marshal writes for a piece that fits is such a message. */
  lemma EncodedBrings(frames: seq<Frame>, id: Bytes, service: u64, pieces: seq<Bytes>, i: nat, at: int)
    requires ArePieces(frames, id, service, pieces) && i < |pieces|
    ensures Brings(Message(Encoded(frames[i]), at), id, service, pieces, i)
  {
    hide Fits, IsPiece, Decoded, Encoded;
    RoundTrip(frames[i]);
  }

  /** Message k brings piece which[k], is foreign to id, or contradicts what
      came before it. */
  ghost predicate Carries(run: seq<Message>, which: seq<Option<nat>>, id: Bytes, service: u64, pieces: seq<Bytes>) {
    && |which| == |run|
    && forall k :: 0 <= k < |run| ==>
      match which[k]
      case Some(i) => Brings(run[k], id, service, pieces, i)
      case None => Foreign(run[k], id) || Contradicts(run[k], id, service, pieces, Got(which[..k]))
  }

  ghost function Got(which: seq<Option<nat>>): set<nat> {
    set k | 0 <= k < |which| && which[k].Some? :: which[k].value
  }

  ghost predicate AllGot(n: nat, got: set<nat>) {
    forall i: nat :: i < n ==> i in got
  }

  // ----- The entry follows the pieces received -----

  ghost function PartsOf(pieces: seq<Bytes>, got: set<nat>): seq<Option<Bytes>> {
    seq(|pieces|, i requires 0 <= i < |pieces| => if i in got then Some(pieces[i]) else None)
  }

  ghost predicate Tracks(entries: Entries, id: Bytes, start: int, service: u64, pieces: seq<Bytes>, got: set<nat>) {
    && id in entries
    && entries[id].at == start && entries[id].service == service
    && entries[id].parts == PartsOf(pieces, got)
  }

  lemma {:induction false} PartsFitPayload(pieces: seq<Bytes>, got: set<nat>)
    ensures PresentSize(PartsOf(pieces, got)) <= |Join(pieces)|
  {
    if pieces != [] {
      var n := |pieces| - 1;
      assert PartsOf(pieces, got)[..n] == PartsOf(pieces[..n], got);
      PartsFitPayload(pieces[..n], got);
    }
  }

  lemma PartsAfter(pieces: seq<Bytes>, got: set<nat>, i: nat)
    requires i < |pieces|
    ensures PartsOf(pieces, got)[i := Some(pieces[i])] == PartsOf(pieces, got + {i})
    ensures AllPresent(PartsOf(pieces, got + {i})) <==> AllGot(|pieces|, got + {i})
    ensures AllPresent(PartsOf(pieces, got + {i})) ==> Values(PartsOf(pieces, got + {i})) == pieces
  {
    var parts := PartsOf(pieces, got + {i});
    if AllPresent(parts) {
      forall j | 0 <= j < |pieces| ensures j in got + {i} {
        assert parts[j] in parts;
      }
    }
  }

  /** Storing one more piece completes the payload exactly when it was the last missing. */
  lemma StorePiece(e: Entry, f: Frame, id: Bytes, pieces: seq<Bytes>, got: set<nat>, i: nat)
    requires i < |pieces| && IsPiece(f, id, e.service, pieces, i) && |Join(pieces)| <= PAYLOAD_LIMIT
    requires e.parts == PartsOf(pieces, got) && e.size == PresentSize(e.parts)
    ensures var p := Store(e, f, Part(|pieces|, i, id));
      if AllGot(|pieces|, got + {i}) then p == Done(Join(pieces))
      else p.Grown? && p.entry.at == e.at && p.entry.service == e.service && p.entry.parts == PartsOf(pieces, got + {i})
  {
    hide AllPresent, Values, Join, PresentSize;
    PartsAfter(pieces, got, i);
    if i !in got {
      PresentSizeFill(e.parts, i, pieces[i]);
      PartsFitPayload(pieces, got + {i});
    }
  }

  lemma OwnMessage(entries: Entries, m: Message, id: Bytes, start: int, service: u64,
                   pieces: seq<Bytes>, got: set<nat>, i: nat)
    requires Bounded(entries) && Brings(m, id, service, pieces, i) && |Join(pieces)| <= PAYLOAD_LIMIT
    requires Tracks(entries, id, start, service, pieces, got) && m.at - start <= LIFETIME
    ensures var (entries', outcome) := Receive(entries, m);
      if AllGot(|pieces|, got + {i}) then outcome == Some(Complete(Join(pieces))) && id !in entries'
      else outcome == Some(Pending) && Tracks(entries', id, start, service, pieces, got + {i})
  {
    hide Decoded, Classify, Store, PresentSize, Join, PartsOf;
    var f := Decoded(m.raw).0;
    var live := Unexpired(entries, m.at);
    assert live[id] == entries[id] && EntryBounded(entries[id]);
    assert EntryFor(live, f, m.at, Part(|pieces|, i, id)) == entries[id];
    StorePiece(entries[id], f, id, pieces, got, i);
  }

  lemma FirstMessage(entries: Entries, m: Message, id: Bytes, service: u64, pieces: seq<Bytes>, i: nat)
    requires Bounded(entries) && Brings(m, id, service, pieces, i) && |Join(pieces)| <= PAYLOAD_LIMIT
    requires id !in Unexpired(entries, m.at) && |Unexpired(entries, m.at)| < MAX_ENTRIES
    ensures var (entries', outcome) := Receive(entries, m);
      outcome == Some(Pending) && Tracks(entries', id, m.at, service, pieces, {i})
  {
    hide Decoded, Classify, Store, PresentSize, Join;
    var f := Decoded(m.raw).0;
    PieceCount(f, id, service, pieces, i);
    var live := Unexpired(entries, m.at);
    var e := EntryFor(live, f, m.at, Part(|pieces|, i, id));
    PresentSizeNone(e.parts);
    assert e.parts == PartsOf(pieces, {});
    StorePiece(e, f, id, pieces, {}, i);
    assert {} + {i} == {i};
    OneIsNotAll(|pieces|, i);
  }

  lemma OneIsNotAll(n: nat, i: nat)
    requires n >= 2
    ensures !AllGot(n, {i})
  {
    var other: nat := if i == 0 then 1 else 0;
    var one: set<nat> := {i};
    assert AllGot(n, one) ==> other in one;
  }

  lemma PieceCount(f: Frame, id: Bytes, service: u64, pieces: seq<Bytes>, i: nat)
    requires i < |pieces| && IsPiece(f, id, service, pieces, i)
    ensures 2 <= |pieces| <= MAX_PARTS
  {}

  lemma BringsCount(m: Message, id: Bytes, service: u64, pieces: seq<Bytes>, i: nat)
    requires Brings(m, id, service, pieces, i)
    ensures |pieces| >= 2
  {
    hide Decoded;
    PieceCount(Decoded(m.raw).0, id, service, pieces, i);
  }

  lemma PlacedElsewhere(entries: Entries, f: Frame, now: int, r: Request, id: Bytes)
    requires r.Part? && r.index < r.sum && r.id != id && id in entries
    ensures id in Placed(entries, f, now, r).0 && Placed(entries, f, now, r).0[id] == entries[id]
  {
    hide Store, EntryFor;
    match Store(EntryFor(entries, f, now, r), f, r)
    case Refused(_) =>
    case Overflow =>
    case Grown(_) =>
    case Done(_) =>
  }

  /** No other message, whatever it does, touches a live entry. */
  lemma ForeignMessage(entries: Entries, m: Message, id: Bytes)
    requires Foreign(m, id) && id in entries && Live(entries[id], m.at)
    ensures id in Receive(entries, m).0 && Receive(entries, m).0[id] == entries[id]
  {
    hide Decoded, Classify, Store;
    var f := Decoded(m.raw).0;
    if Decoded(m.raw).1.None? && Classify(f).Part? {
      assert Unexpired(entries, m.at)[id] == entries[id];
      PlacedElsewhere(Unexpired(entries, m.at), f, m.at, Classify(f), id);
    }
  }

  /** A fragment that contradicts an entry is rejected and leaves it as it was. */
  lemma ContradictingMessage(entries: Entries, m: Message, id: Bytes, start: int, service: u64,
                             pieces: seq<Bytes>, got: set<nat>)
    requires Contradicts(m, id, service, pieces, got)
    requires Tracks(entries, id, start, service, pieces, got) && m.at - start <= LIFETIME
    ensures var (entries', outcome) := Receive(entries, m);
      && outcome.Some? && outcome.value.Rejected?
      && Tracks(entries', id, start, service, pieces, got)
  {
    hide Decoded, Classify, Join, Values, AllPresent;
    var f := Decoded(m.raw).0;
    var r := Classify(f);
    var live := Unexpired(entries, m.at);
    assert live[id] == entries[id];
    assert Store(entries[id], f, r).Refused?;
  }

  lemma ReceiveBounded(entries: Entries, m: Message)
    requires Bounded(entries)
    ensures Bounded(Receive(entries, m).0)
  {
    if Decoded(m.raw).1.None? {
      AddedBounded(entries, Decoded(m.raw).0, m.at);
    }
  }

  lemma GotSnoc(which: seq<Option<nat>>, k: nat)
    requires k < |which|
    ensures Got(which[..k + 1]) == Got(which[..k]) + (if which[k].Some? then {which[k].value} else {})
  {
    var with, before := which[..k + 1], which[..k];
    forall i | i in Got(with) ensures i in Got(before) || which[k] == Some(i) {
      var j :| 0 <= j < k + 1 && with[j] == Some(i);
      if j < k { assert before[j] == Some(i); }
    }
    forall i | i in Got(before) ensures i in Got(with) {
      var j :| 0 <= j < k && before[j] == Some(i);
      assert with[j] == Some(i);
    }
    if which[k].Some? { assert with[k] == which[k]; }
  }

  lemma FirstGot(which: seq<Option<nat>>)
    requires which != [] && which[0].Some?
    ensures Got(which[..1]) == {which[0].value}
  {
    assert which[..1][0] == which[0];
  }

  ghost predicate Refused(outcome: Option<Outcome>) {
    outcome.Some? && outcome.value.Rejected?
  }

  /** The premises of reassembly: the run starts with a piece while there is
      room, every message arrives within the lifetime of the entry, and only
      the last one brings the last missing piece. */
  ghost predicate Delivery(entries: Entries, run: seq<Message>, which: seq<Option<nat>>,
                           id: Bytes, service: u64, pieces: seq<Bytes>) {
    && Bounded(entries) && run != [] && |Join(pieces)| <= PAYLOAD_LIMIT
    && Carries(run, which, id, service, pieces) && which[0].Some?
    && id !in Unexpired(entries, run[0].at) && |Unexpired(entries, run[0].at)| < MAX_ENTRIES
    && forall k :: 0 <= k < |run| ==> run[k].at - run[0].at <= LIFETIME
  }

  lemma {:induction false} Collecting(entries: Entries, run: seq<Message>, which: seq<Option<nat>>,
                                      id: Bytes, service: u64, pieces: seq<Bytes>, k: nat)
    requires Delivery(entries, run, which, id, service, pieces)
    requires 1 <= k <= |run| && !(AllGot(|pieces|, Got(which[..k])))
    ensures Bounded(State(entries, run[..k]))
    ensures Tracks(State(entries, run[..k]), id, run[0].at, service, pieces, Got(which[..k]))
    ensures which[k - 1].Some? ==> OutcomeAt(entries, run, k - 1) == Some(Pending)
    ensures which[k - 1].None? && !Foreign(run[k - 1], id) ==> Refused(OutcomeAt(entries, run, k - 1))
  {
    hide Receive, Bounded, Foreign, Contradicts, Tracks, PartsOf, Brings, Refused;
    var before := run[..k - 1];
    assert run[..k][..k - 1] == before;
    assert run[..k] == before + [run[k - 1]];
    var s := State(entries, before);
    GotSnoc(which, k - 1);
    var m := run[k - 1];
    if k == 1 {
      assert before == [] && which[..0] == [];
      assert Got(which[..0]) == {};
      FirstMessage(entries, m, id, service, pieces, which[0].value);
      assert {} + {which[0].value} == {which[0].value};
      ReceiveBounded(entries, m);
    } else {
      Collecting(entries, run, which, id, service, pieces, k - 1);
      ReceiveBounded(s, m);
      match which[k - 1] {
        case Some(i) =>
          OwnMessage(s, m, id, run[0].at, service, pieces, Got(which[..k - 1]), i);
        case None =>
          assert Got(which[..k]) == Got(which[..k - 1]);
          HarmlessTracks(s, m, id, run[0].at, service, pieces, Got(which[..k - 1]));
      }
    }
  }

  /** What is foreign or contradicts leaves the entry tracking what it tracked. */
  lemma HarmlessTracks(entries: Entries, m: Message, id: Bytes, start: int, service: u64, pieces: seq<Bytes>, got: set<nat>)
    requires Foreign(m, id) || Contradicts(m, id, service, pieces, got)
    requires Tracks(entries, id, start, service, pieces, got) && m.at - start <= LIFETIME
    ensures Tracks(Receive(entries, m).0, id, start, service, pieces, got)
    ensures !Foreign(m, id) ==> Refused(Receive(entries, m).1)
  {
    hide Receive, Foreign, Contradicts, Tracks;
    if Foreign(m, id) {
      ForeignTracks(entries, m, id, start, service, pieces, got);
    } else {
      ContradictingMessage(entries, m, id, start, service, pieces, got);
    }
  }

  lemma ForeignTracks(entries: Entries, m: Message, id: Bytes, start: int, service: u64, pieces: seq<Bytes>, got: set<nat>)
    requires Foreign(m, id) && Tracks(entries, id, start, service, pieces, got) && m.at - start <= LIFETIME
    ensures Tracks(Receive(entries, m).0, id, start, service, pieces, got)
  {
    hide Receive, Foreign;
    ForeignMessage(entries, m, id);
  }

  /** End to end: messages that bring the pieces, in any order with repeats, and
      interleaved with any other traffic and with fragments of the same message
      that contradict it, give exactly one complete payload, on the message that
      brings the last missing piece, and it is the original; what contradicts it
      is rejected. */
  lemma Reassembly(entries: Entries, run: seq<Message>, which: seq<Option<nat>>,
                   id: Bytes, service: u64, pieces: seq<Bytes>)
    requires Delivery(entries, run, which, id, service, pieces)
    requires AllGot(|pieces|, Got(which)) && !(AllGot(|pieces|, Got(which[..|run| - 1])))
    ensures OutcomeAt(entries, run, |run| - 1) == Some(Complete(Join(pieces)))
    ensures id !in State(entries, run)
    ensures forall k :: 0 <= k < |run| - 1 && which[k].Some? ==> OutcomeAt(entries, run, k) == Some(Pending)
    ensures forall k :: 0 <= k < |run| && which[k].None? && !Foreign(run[k], id) ==> Refused(OutcomeAt(entries, run, k))
  {
    hide Receive, Bounded, Tracks, PartsOf, Brings, OutcomeAt, Foreign, Contradicts, Refused;
    var n := |run| - 1;
    assert which[..|run|] == which;
    GotSnoc(which, n);
    forall k | 0 <= k < n
      ensures which[k].Some? ==> OutcomeAt(entries, run, k) == Some(Pending)
      ensures which[k].None? && !Foreign(run[k], id) ==> Refused(OutcomeAt(entries, run, k))
    {
      GotMonotone(which, k + 1, n);
      Collecting(entries, run, which, id, service, pieces, k + 1);
    }
    LastMessage(entries, run, which, id, service, pieces);
  }

  lemma LastMessage(entries: Entries, run: seq<Message>, which: seq<Option<nat>>,
                    id: Bytes, service: u64, pieces: seq<Bytes>)
    requires Delivery(entries, run, which, id, service, pieces)
    requires AllGot(|pieces|, Got(which)) && !(AllGot(|pieces|, Got(which[..|run| - 1])))
    ensures OutcomeAt(entries, run, |run| - 1) == Some(Complete(Join(pieces)))
    ensures id !in State(entries, run)
  {
    hide Receive, Bounded, Tracks, PartsOf, Brings;
    var n := |run| - 1;
    assert which[..|run|] == which;
    GotSnoc(which, n);
    FirstGot(which);
    BringsCount(run[0], id, service, pieces, which[0].value);
    OneIsNotAll(|pieces|, which[0].value);
    assert n > 0;
    Collecting(entries, run, which, id, service, pieces, n);
    assert which[n].Some?;
    OwnMessage(State(entries, run[..n]), run[n], id, run[0].at, service, pieces,
               Got(which[..n]), which[n].value);
  }

  lemma GotMonotone(which: seq<Option<nat>>, j: nat, k: nat)
    requires j <= k <= |which|
    ensures Got(which[..j]) <= Got(which[..k])
  {
    forall i | i in Got(which[..j]) ensures i in Got(which[..k]) {
      var p :| 0 <= p < j && which[..j][p] == Some(i);
      assert which[..k][p] == Some(i);
    }
  }
}
