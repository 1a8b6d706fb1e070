/** The fragments of a payload as a sender names them: by the headers "sum",
    "seq" and "message_id" with printed numbers. */
module LarkNames {
  import opened Prelude
  import opened LarkFrame
  import opened LarkAssembler
  import opened LarkReassembly
  import Decimal

  /** The three headers say that this is part index of sum of the message id. */
  ghost predicate Named(f: Frame, sum: nat, index: nat, id: Bytes) {
    var count, position, message := Ascii("sum"), Ascii("seq"), Ascii("message_id");
    && count in f.headers && f.headers[count] == Decimal.Itoa(sum)
    && position in f.headers && f.headers[position] == Decimal.Itoa(index)
    && message in f.headers && f.headers[message] == id
  }

  predicate Between(low: char, c: byte, high: char) {
    low as int <= c <= high as int
  }

  /** One to 256 letters, digits and the four signs allowed. */
  lemma ValidIdExactly(id: Bytes)
    ensures ValidId(id) <==>
      && 1 <= |id| <= 256
      && forall c <- id ::
           || Between('a', c, 'z') || Between('A', c, 'Z') || Between('0', c, '9')
           || c == '_' as int || c == '-' as int || c == ':' as int || c == '.' as int
  {}

  lemma NamesMatch()
    ensures SUM == Ascii("sum") && SEQ == Ascii("seq") && MESSAGE_ID == Ascii("message_id")
  {}

  lemma NamedIsPart(f: Frame, sum: nat, index: nat, id: Bytes)
    requires Named(f, sum, index, id) && 2 <= sum <= 64 && index < sum && ValidId(id)
    ensures Classify(f) == Part(sum, index, id)
  {
    hide Decimal.Atoi, Decimal.Itoa, ValidId, Ascii;
    NamesMatch();
    Decimal.AtoiItoa(sum);
    Decimal.AtoiItoa(index);
  }

  /** A frame without a count, or with a count of one, is a whole payload. */
  lemma WholeFrame(entries: Entries, f: Frame, now: int)
    requires Ascii("sum") in f.headers ==> f.headers[Ascii("sum")] in {Ascii(""), Ascii("1")}
    ensures Added(entries, f, now) == (entries, Complete(f.payload))
  {
    hide Decimal.Atoi;
    NamesMatch();
    Decimal.AtoiItoa(1);
    assert Ascii("1") == Decimal.Itoa(1) && Ascii("") == [];
  }

  /** A count outside 1 to 64 is refused as such; a part index not below the count
      or an id that is not valid, as a fragment. Nothing else changes. */
  lemma RefusedFrame(entries: Entries, f: Frame, now: int, sum: nat, index: nat, id: Bytes)
    requires Named(f, sum, index, id) && sum != 1
    ensures sum == 0 || sum > 64 ==> Added(entries, f, now) == (entries, Rejected(InvalidCount))
    ensures 2 <= sum <= 64 && (index >= sum || !ValidId(id)) ==>
      Added(entries, f, now) == (entries, Rejected(InvalidFragment))
  {
    hide Decimal.Atoi, Decimal.Itoa, ValidId, Ascii;
    NamesMatch();
    Decimal.AtoiItoa(sum);
    Decimal.AtoiItoa(index);
  }

  // ----- The first fragment of a message -----

  /** The messages whose first fragment came at most five seconds ago. */
  ghost function Open(entries: Entries, now: int): set<Bytes> {
    set id | id in entries && now - entries[id].at <= 5_000_000_000
  }

  lemma OpenIsUnexpired(entries: Entries, now: int)
    ensures Unexpired(entries, now).Keys == Open(entries, now)
    ensures forall id <- Open(entries, now) :: Unexpired(entries, now)[id] == entries[id]
  {}

  /** The first fragment of a message is kept as its part of a new entry while
      fewer than 16 messages are open, and refused otherwise; either way the other
      open messages stay and the rest go. */
  lemma FirstFragment(entries: Entries, f: Frame, now: int, sum: nat, index: nat, id: Bytes)
    requires Named(f, sum, index, id) && 2 <= sum <= 64 && index < sum && ValidId(id)
    requires id !in Open(entries, now) && |f.payload| <= 0x10_0000
    ensures var (entries', outcome) := Added(entries, f, now);
      var open := Open(entries, now);
      && (forall other <- open :: other in entries' && entries'[other] == entries[other])
      && if |open| < 16 then
           && outcome == Pending && entries'.Keys == open + {id}
           && entries'[id].at == now && entries'[id].service == f.service && entries'[id].size == |f.payload|
           && |entries'[id].parts| == sum
           && forall i :: 0 <= i < sum ==> entries'[id].parts[i] == if i == index then Some(f.payload) else None
         else
           outcome == Rejected(CapacityReached) && entries'.Keys == open
  {
    hide Classify, ValidId, Named, Open;
    NamedIsPart(f, sum, index, id);
    OpenIsUnexpired(entries, now);
    var live, r := Unexpired(entries, now), Part(sum, index, id);
    var e := EntryFor(live, f, now, r);
    var parts := e.parts[index := Some(f.payload)];
    var other := if index == 0 then 1 else 0;
    assert parts[other] in parts;
    assert Store(e, f, r) == Grown(Entry(now, parts, |f.payload|, f.service));
  }

  /** A further fragment of an open message: refused when its count or service is
      another, or when its part is there with other bytes; refused together with
      all the message has when it makes it longer than 1 MiB; and otherwise kept,
      which completes the message exactly when no other part is missing. */
  lemma NextFragment(entries: Entries, f: Frame, now: int, sum: nat, index: nat, id: Bytes)
    requires Named(f, sum, index, id) && 2 <= sum <= 64 && index < sum && ValidId(id)
    requires id in Open(entries, now)
    ensures var (entries', outcome) := Added(entries, f, now);
      var e := entries[id];
      if |e.parts| != sum || e.service != f.service then
        outcome == Rejected(Inconsistent) && id in entries' && entries'[id] == e
      else if e.parts[index].Some? && e.parts[index].value != f.payload then
        outcome == Rejected(Conflicting) && id in entries' && entries'[id] == e
      else if e.parts[index].None? && e.size + |f.payload| > 0x10_0000 then
        outcome == Rejected(PayloadTooLarge) && id !in entries'
      else if exists i :: 0 <= i < sum && i != index && e.parts[i].None? then
        && outcome == Pending && id in entries' && entries'[id].at == e.at && entries'[id].service == e.service
        && entries'[id].parts == e.parts[index := Some(f.payload)]
      else outcome.Complete? && id !in entries'
  {
    hide Classify, ValidId, Named, Open, Join, Values;
    NamedIsPart(f, sum, index, id);
    OpenIsUnexpired(entries, now);
    var live, e, r := Unexpired(entries, now), entries[id], Part(sum, index, id);
    assert EntryFor(live, f, now, r) == e;
    if |e.parts| == sum {
      MissingExactly(e.parts, index, f.payload);
    }
    hide AllPresent;
  }

  lemma MissingExactly(parts: seq<Option<Bytes>>, index: nat, b: Bytes)
    requires index < |parts|
    ensures AllPresent(parts[index := Some(b)]) <==> !(exists i :: 0 <= i < |parts| && i != index && parts[i].None?)
  {
    var filled := parts[index := Some(b)];
    if i :| 0 <= i < |parts| && i != index && parts[i].None? {
      assert filled[i] in filled;
    }
  }

  // ----- End to end -----

  /** Where a payload of n bytes is cut. */
  ghost predicate Cuts(cuts: seq<nat>, n: nat) {
    && |cuts| >= 2 && cuts[0] == 0 && cuts[|cuts| - 1] == n
    && forall i, j :: 0 <= i < j < |cuts| ==> cuts[i] <= cuts[j]
  }

  function PiecesOf(payload: Bytes, cuts: seq<nat>): (pieces: seq<Bytes>)
    requires Cuts(cuts, |payload|)
    ensures |pieces| == |cuts| - 1
  {
    seq(|cuts| - 1, i requires 0 <= i < |cuts| - 1 => payload[cuts[i]..cuts[i + 1]])
  }

  lemma {:induction false} JoinedUpTo(payload: Bytes, cuts: seq<nat>, k: nat)
    requires Cuts(cuts, |payload|) && k < |cuts|
    ensures Join(PiecesOf(payload, cuts)[..k]) == payload[..cuts[k]]
  {
    if k > 0 {
      var pieces := PiecesOf(payload, cuts);
      assert pieces[..k][..k - 1] == pieces[..k - 1];
      JoinedUpTo(payload, cuts, k - 1);
      assert payload[..cuts[k]] == payload[..cuts[k - 1]] + payload[cuts[k - 1]..cuts[k]];
    }
  }

  /** Joining the pieces of a payload gives it back. */
  lemma JoinUndoesCutting(payload: Bytes, cuts: seq<nat>)
    requires Cuts(cuts, |payload|)
    ensures Join(PiecesOf(payload, cuts)) == payload
  {
    var n := |cuts| - 1;
    JoinedUpTo(payload, cuts, n);
    assert PiecesOf(payload, cuts)[..n] == PiecesOf(payload, cuts);
    assert payload[..|payload|] == payload;
  }

  /** The frame for part i: base with the three headers and the part. */
  function FrameFor(base: Frame, id: Bytes, pieces: seq<Bytes>, i: nat): Frame
    requires i < |pieces|
  {
    base.(headers := base.headers[Ascii("sum") := Decimal.Itoa(|pieces|)][Ascii("seq") := Decimal.Itoa(i)][Ascii("message_id") := id],
          payload := pieces[i])
  }

  /** The messages that carry the parts named by order, at the times given. */
  ghost function Sent(base: Frame, id: Bytes, pieces: seq<Bytes>, order: seq<nat>, at: seq<int>): seq<Message>
    requires |order| == |at| && forall k :: 0 <= k < |order| ==> order[k] < |pieces|
  {
    seq(|order|, k requires 0 <= k < |order| => Message(Encoded(FrameFor(base, id, pieces, order[k])), at[k]))
  }

  ghost predicate AllSent(n: nat, order: seq<nat>) {
    forall i: nat :: i < n ==> i in order
  }

  lemma FrameForBrings(base: Frame, id: Bytes, pieces: seq<Bytes>, i: nat, at: int)
    requires 2 <= |pieces| <= 64 && i < |pieces| && ValidId(id)
    requires Fits(FrameFor(base, id, pieces, i))
    ensures Brings(Message(Encoded(FrameFor(base, id, pieces, i)), at), id, base.service, pieces, i)
  {
    hide Decoded, Encoded, Fits, ValidId, Classify, Decimal.Itoa;
    var f := FrameFor(base, id, pieces, i);
    RoundTrip(f);
    assert Ascii("sum")[1] != Ascii("seq")[1] && |Ascii("message_id")| != |Ascii("seq")|;
    assert Named(f, |pieces|, i, id);
    hide Ascii;
    NamedIsPart(f, |pieces|, i, id);
  }

  /** End to end, for a new assembler: cut a payload of at most 1 MiB into 2 to 64
      parts, send their frames in any order and with repeats within five seconds;
      every message is pending until the last missing part arrives, and that one
      is answered with the payload. */
  lemma NamedReassembly(base: Frame, id: Bytes, payload: Bytes, cuts: seq<nat>, order: seq<nat>, at: seq<int>)
    requires ValidId(id) && |payload| <= 0x10_0000 && Cuts(cuts, |payload|) && 3 <= |cuts| <= 65
    requires var pieces := PiecesOf(payload, cuts);
      forall i :: 0 <= i < |pieces| ==> Fits(FrameFor(base, id, pieces, i))
    requires |order| == |at| && order != [] && forall k :: 0 <= k < |order| ==> order[k] < |cuts| - 1
    requires forall k :: 0 <= k < |at| ==> at[k] - at[0] <= 5_000_000_000
    requires AllSent(|cuts| - 1, order) && !AllSent(|cuts| - 1, order[..|order| - 1])
    ensures var run := Sent(base, id, PiecesOf(payload, cuts), order, at);
      && (forall k :: 0 <= k < |run| - 1 ==> OutcomeAt(map[], run, k) == Some(Pending))
      && OutcomeAt(map[], run, |run| - 1) == Some(Complete(payload))
  {
    hide Fits, Encoded, Brings, OutcomeAt, Join, FrameFor, ValidId, Cuts;
    var pieces := PiecesOf(payload, cuts);
    var run := Sent(base, id, pieces, order, at);
    var which := seq(|order|, k requires 0 <= k < |order| => Some(order[k]));
    JoinUndoesCutting(payload, cuts);
    forall k | 0 <= k < |run| ensures Brings(run[k], id, base.service, pieces, order[k]) {
      FrameForBrings(base, id, pieces, order[k], at[k]);
    }
    GotIs(order, which);
    GotIs(order[..|order| - 1], which[..|order| - 1]);
    assert Unexpired(map[], run[0].at) == map[];
    assert Delivery(map[], run, which, id, base.service, pieces);
    Reassembly(map[], run, which, id, base.service, pieces);
  }

  lemma GotIs(order: seq<nat>, which: seq<Option<nat>>)
    requires |which| == |order| && forall k :: 0 <= k < |order| ==> which[k] == Some(order[k])
    ensures forall i :: i in Got(which) <==> i in order
  {
    forall i | i in order ensures i in Got(which) {
      var k :| 0 <= k < |order| && order[k] == i;
      assert which[k].Some?;
    }
  }
}
