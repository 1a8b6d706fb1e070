/** Cutting a reply into Telegram messages of at most 4000 UTF-16 units. */
module TelegramText {
  import opened Prelude
  import opened Utf8
  import Utf16

  const SPLIT_LIMIT := 4000

  function Concat(parts: seq<Bytes>): Bytes {
    if parts == [] then [] else Concat(parts[..|parts| - 1]) + parts[|parts| - 1]
  }

  function Flatten(chunks: seq<seq<Rune>>): seq<Rune> {
    if chunks == [] then [] else chunks[0] + Flatten(chunks[1..])
  }

  function RunesOf(parts: seq<Bytes>): (chunks: seq<seq<Rune>>)
    ensures |chunks| == |parts|
  {
    seq(|parts|, i requires 0 <= i < |parts| => Runes(parts[i]))
  }

  ghost predicate WithinLimit(chunks: seq<seq<Rune>>) {
    forall c <- chunks :: 1 <= Units(c) <= SPLIT_LIMIT
  }

  /** No chunk but the last could have taken one code point more. */
  ghost predicate Maximal(chunks: seq<seq<Rune>>) {
    && (forall k :: 0 <= k < |chunks| ==> chunks[k] != [])
    && forall k :: 0 <= k < |chunks| - 1 ==> Units(chunks[k]) + RuneUnits(chunks[k + 1][0]) > SPLIT_LIMIT
  }

  /** A split of text that concatenates back to it and cuts no code point. */
  ghost predicate Splits(parts: seq<Bytes>, text: Bytes) {
    Concat(parts) == text && Flatten(RunesOf(parts)) == Runes(text)
  }

  lemma {:induction false} FlattenSnoc(chunks: seq<seq<Rune>>, c: seq<Rune>)
    ensures Flatten(chunks + [c]) == Flatten(chunks) + c
  {
    if chunks == [] {
      assert chunks + [c] == [c] && [c][1..] == [];
      assert Flatten([c]) == c + [];
    } else {
      assert (chunks + [c])[1..] == chunks[1..] + [c];
      FlattenSnoc(chunks[1..], c);
    }
  }

  /** The parts stand one after the other in what they concatenate to. */
  lemma {:induction false} PartsInOrder(parts: seq<Bytes>, k: nat)
    requires k < |parts|
    ensures Concat(parts[..k]) + parts[k] == Concat(parts[..k + 1]) <= Concat(parts)
  {
    assert parts[..k + 1][..k] == parts[..k];
    if k + 1 == |parts| {
      assert parts[..k + 1] == parts;
    } else {
      var n := |parts| - 1;
      PartsInOrder(parts[..n], k);
      assert parts[..n][..k + 1] == parts[..k + 1] && parts[..n][..k] == parts[..k] && parts[..n][k] == parts[k];
    }
  }

  lemma AddPart(parts: seq<Bytes>, part: Bytes)
    ensures Concat(parts + [part]) == Concat(parts) + part
    ensures RunesOf(parts + [part]) == RunesOf(parts) + [Runes(part)]
    ensures Flatten(RunesOf(parts + [part])) == Flatten(RunesOf(parts)) + Runes(part)
  {
    assert (parts + [part])[..|parts|] == parts;
    FlattenSnoc(RunesOf(parts), Runes(part));
  }

  /** What the loop keeps: text before start is split into full parts, and the
      part being filled ends at a code point. */
  ghost predicate Filling(text: Bytes, parts: seq<Bytes>, start: nat, units: nat, index: nat) {
    && start <= index <= |text| && (start < index || (index == 0 && parts == []))
    && Concat(parts) == text[..start] && Runes(text) == Flatten(RunesOf(parts)) + Runes(text[start..])
    && Boundary(text[start..], index - start)
    && units == Units(Runes(text[start..index])) <= SPLIT_LIMIT
    && WithinLimit(RunesOf(parts)) && Maximal(RunesOf(parts))
    && (parts != [] ==>
          && start < index && Runes(text[start..index]) != []
          && Units(Runes(parts[|parts| - 1])) + RuneUnits(Runes(text[start..index])[0]) > SPLIT_LIMIT)
  }

  /** The next code point still fits. */
  lemma Extend(text: Bytes, parts: seq<Bytes>, start: nat, units: nat, index: nat)
    requires Filling(text, parts, start, units, index) && index < |text|
    requires units + RuneUnits(DecodeRune(text[index..])) <= SPLIT_LIMIT
    ensures var r := DecodeRune(text[index..]);
      index + r.width <= |text| && Filling(text, parts, start, units + RuneUnits(r), index + r.width)
  {
    hide DecodeRune, Runes, WithinLimit, Maximal, Flatten, Concat, Boundary;
    var s, i := text[start..], index - start;
    assert s[i..] == text[index..];
    var r := DecodeRune(text[index..]);
    NextBoundary(s, i);
    NextRune(s, i);
    assert s[..i] == text[start..index] && s[..i + r.width] == text[start..index + r.width];
    UnitsConcat(Runes(text[start..index]), [r]);
    assert Units([r]) == RuneUnits(r) + Units([r][1..]);
  }

  /** The next code point does not fit: the part is closed before it. */
  lemma Cut(text: Bytes, parts: seq<Bytes>, start: nat, units: nat, index: nat)
    requires Filling(text, parts, start, units, index) && index < |text|
    requires units + RuneUnits(DecodeRune(text[index..])) > SPLIT_LIMIT
    ensures var r := DecodeRune(text[index..]);
      && index + r.width <= |text|
      && Filling(text, parts + [text[start..index]], index, RuneUnits(r), index + r.width)
  {
    hide DecodeRune, Flatten, Concat, Boundary;
    var part, r := text[start..index], DecodeRune(text[index..]);
    CutBefore(text, parts, start, units, index);
    FirstRune(text[index..]);
    assert text[index..][..r.width] == text[index..index + r.width];
    ClosePart(parts, part, r, units);
    assert text[..start] + part == text[..index];
    AddPart(parts, part);
  }

  lemma CutBefore(text: Bytes, parts: seq<Bytes>, start: nat, units: nat, index: nat)
    requires Filling(text, parts, start, units, index) && index < |text|
    requires units + RuneUnits(DecodeRune(text[index..])) > SPLIT_LIMIT
    ensures start < index && Runes(text[start..]) == Runes(text[start..index]) + Runes(text[index..])
    ensures units >= 1
  {
    hide DecodeRune, WithinLimit, Maximal, Flatten, Concat;
    var s := text[start..];
    BoundaryRunes(s, index - start);
    assert s[..index - start] == text[start..index] && s[index - start..] == text[index..];
    assert start == index ==> units == 0 by {
      assert text[start..start] == [];
    }
    UnitsPositive(Runes(text[start..index]));
    assert Runes(text[start..index]) != [];
  }

  lemma FirstRune(s: Bytes)
    requires s != []
    ensures var r := DecodeRune(s);
      && Boundary(s, r.width) && Runes(s[..r.width]) == [r] && Units([r]) == RuneUnits(r)
  {
    hide DecodeRune;
    assert Boundary(s, 0) && s[0..] == s && s[..0] == [];
    NextBoundary(s, 0);
    NextRune(s, 0);
    assert [] + [DecodeRune(s)] == [DecodeRune(s)];
    assert [DecodeRune(s)][1..] == [];
  }

  lemma ClosePart(parts: seq<Bytes>, part: Bytes, r: Rune, units: nat)
    requires WithinLimit(RunesOf(parts)) && Maximal(RunesOf(parts))
    requires 1 <= units == Units(Runes(part)) <= SPLIT_LIMIT && units + RuneUnits(r) > SPLIT_LIMIT
    requires parts != [] ==> Runes(part) != [] && Units(Runes(parts[|parts| - 1])) + RuneUnits(Runes(part)[0]) > SPLIT_LIMIT
    ensures WithinLimit(RunesOf(parts + [part])) && Maximal(RunesOf(parts + [part]))
  {
    hide Units, Runes;
    assert Runes(part) != [] by { NotEmpty(Runes(part)); }
    var chunks := RunesOf(parts + [part]);
    assert chunks == RunesOf(parts) + [Runes(part)];
    forall k | 0 <= k < |chunks| - 1 ensures Units(chunks[k]) + RuneUnits(chunks[k + 1][0]) > SPLIT_LIMIT {
      if k < |parts| - 1 {
        assert chunks[k] == RunesOf(parts)[k] && chunks[k + 1] == RunesOf(parts)[k + 1];
      }
    }
  }

  lemma NotEmpty(rs: seq<Rune>)
    requires Units(rs) >= 1
    ensures rs != []
  {}

  /** Every part has 1 to 4000 UTF-16 code units. */
  ghost predicate Limited(parts: seq<Bytes>) {
    forall p <- parts :: 1 <= |Utf16.CodeUnits(p)| <= 4000
  }

  /** Part k could not have taken the first code point of the next one. */
  ghost predicate NoRoom(parts: seq<Bytes>, k: nat)
    requires k + 1 < |parts|
  {
    var next := parts[k + 1];
    next != [] && |Utf16.CodeUnits(parts[k])| + |Utf16.Encode(DecodeRune(next).code)| > 4000
  }

  ghost predicate Full(parts: seq<Bytes>) {
    && (forall k :: 0 <= k < |parts| ==> parts[k] != [])
    && forall k :: 0 <= k < |parts| - 1 ==> NoRoom(parts, k)
  }

  lemma LimitedInRunes(parts: seq<Bytes>)
    ensures Limited(parts) <==> WithinLimit(RunesOf(parts))
  {
    hide Units, Utf16.CodeUnits, Runes;
    forall k | 0 <= k < |parts|
      ensures RunesOf(parts)[k] == Runes(parts[k]) && parts[k] in parts && RunesOf(parts)[k] in RunesOf(parts)
      ensures |Utf16.CodeUnits(parts[k])| == Units(RunesOf(parts)[k])
    {
      Utf16.CodeUnitsCount(parts[k]);
    }
  }

  lemma FullInRunes(parts: seq<Bytes>)
    ensures Full(parts) <==> Maximal(RunesOf(parts))
  {
    hide Units, Utf16.CodeUnits, Runes, NoRoom;
    var chunks := RunesOf(parts);
    forall k | 0 <= k < |parts| ensures parts[k] != [] <==> chunks[k] != [] {
      FirstUnits(parts[k]);
    }
    if Full(parts) {
      forall k | 0 <= k < |chunks| - 1 ensures Units(chunks[k]) + RuneUnits(chunks[k + 1][0]) > SPLIT_LIMIT {
        assert NoRoom(parts, k);
        RoomInRunes(parts, k);
      }
    }
    if Maximal(chunks) {
      forall k | 0 <= k < |parts| - 1 ensures NoRoom(parts, k) {
        assert chunks[k] == Runes(parts[k]) && chunks[k + 1] == Runes(parts[k + 1]);
        RoomInRunes(parts, k);
      }
    }
  }

  lemma RoomInRunes(parts: seq<Bytes>, k: nat)
    requires k + 1 < |parts| && parts[k + 1] != []
    ensures Runes(parts[k + 1]) != []
    ensures NoRoom(parts, k) <==> Units(Runes(parts[k])) + RuneUnits(Runes(parts[k + 1])[0]) > SPLIT_LIMIT
  {
    hide Units, Utf16.CodeUnits, Runes, Utf16.Encode, RuneUnits;
    Utf16.CodeUnitsCount(parts[k]);
    FirstUnits(parts[k + 1]);
  }

  lemma InCodeUnits(parts: seq<Bytes>)
    ensures Limited(parts) <==> WithinLimit(RunesOf(parts))
    ensures Full(parts) <==> Maximal(RunesOf(parts))
  {
    LimitedInRunes(parts);
    FullInRunes(parts);
  }

  lemma FirstUnits(p: Bytes)
    ensures p == [] <==> Runes(p) == []
    ensures p != [] ==> |Utf16.Encode(DecodeRune(p).code)| == RuneUnits(Runes(p)[0])
  {
    hide DecodeRune;
  }

  method SplitTelegramText(text: Bytes) returns (parts: seq<Bytes>)
    ensures Splits(parts, text) && Limited(parts) && Full(parts)
  {
    hide DecodeRune, Runes, Boundary, Units, Filling, Flatten, WithinLimit, Maximal, Limited, Full;
    if text == [] {
      Nothing();
      InCodeUnits([]);
      return [];
    }
    parts := [];
    var start: nat, units: nat, index: nat := 0, 0, 0;
    Begin(text);
    while index < |text|
      invariant Filling(text, parts, start, units, index) && index <= |text|
      decreases |text| - index
    {
      assert start <= index by { FillingOrder(text, parts, start, units, index); }
      var r := DecodeRune(text[index..]);
      var n := RuneUnits(r);
      if units + n > SPLIT_LIMIT {
        Cut(text, parts, start, units, index);
        parts := parts + [text[start..index]];
        start := index;
        units := 0;
      } else {
        Extend(text, parts, start, units, index);
      }
      units := units + n;
      index := index + r.width;
    }
    FillingOrder(text, parts, start, units, index);
    Finish(text, parts, start, units);
    parts := parts + [text[start..]];
    InCodeUnits(parts);
  }

  lemma Nothing()
    ensures Splits([], []) && WithinLimit(RunesOf([])) && Maximal(RunesOf([]))
  {}

  lemma Begin(text: Bytes)
    ensures Filling(text, [], 0, 0, 0)
  {
    assert text[0..] == text && text[..0] == [] && text[0..0] == [];
    assert RunesOf([]) == [];
  }

  lemma FillingOrder(text: Bytes, parts: seq<Bytes>, start: nat, units: nat, index: nat)
    requires Filling(text, parts, start, units, index)
    ensures start <= index <= |text|
  {}

  lemma Finish(text: Bytes, parts: seq<Bytes>, start: nat, units: nat)
    requires text != [] && start <= |text| && Filling(text, parts, start, units, |text|)
    ensures var all := parts + [text[start..]];
      Splits(all, text) && WithinLimit(RunesOf(all)) && Maximal(RunesOf(all))
  {
    hide DecodeRune, Flatten, Boundary, Units, WithinLimit, Maximal;
    var part := text[start..];
    assert text[start..|text|] == part && text[..start] + part == text;
    AddPart(parts, part);
    UnitsPositive(Runes(part));
    assert Runes(part) != [];
    LastPart(parts, part, units);
  }

  lemma LastPart(parts: seq<Bytes>, part: Bytes, units: nat)
    requires WithinLimit(RunesOf(parts)) && Maximal(RunesOf(parts))
    requires 1 <= units == Units(Runes(part)) <= SPLIT_LIMIT && Runes(part) != []
    requires parts != [] ==> Units(Runes(parts[|parts| - 1])) + RuneUnits(Runes(part)[0]) > SPLIT_LIMIT
    ensures WithinLimit(RunesOf(parts + [part])) && Maximal(RunesOf(parts + [part]))
  {
    hide Units, Runes;
    var chunks := RunesOf(parts + [part]);
    assert chunks == RunesOf(parts) + [Runes(part)];
    forall k | 0 <= k < |chunks| - 1 ensures Units(chunks[k]) + RuneUnits(chunks[k + 1][0]) > SPLIT_LIMIT {
      if k < |parts| - 1 {
        assert chunks[k] == RunesOf(parts)[k] && chunks[k + 1] == RunesOf(parts)[k + 1];
      }
    }
  }

  // ----- Fewest parts -----

  lemma FlattenNotEmpty(chunks: seq<seq<Rune>>)
    requires Maximal(chunks) && chunks != []
    ensures Flatten(chunks) != []
  {
    assert |Flatten(chunks)| >= |chunks[0]| > 0;
  }

  lemma LongerPrefix(a: seq<Rune>, b: seq<Rune>, c: seq<Rune>, d: seq<Rune>)
    requires a + b == c + d && |a| <= |c|
    ensures c == a + c[|a|..] && b == c[|a|..] + d
  {
    assert a == (a + b)[..|a|] && c[..|a|] == (c + d)[..|a|];
    assert b == (a + b)[|a|..] && c[|a|..] + d == (c + d)[|a|..];
  }

  /** If other chunks cover what is left of a chunk and then all of the maximal
      ones, there are at least as many of them as maximal ones. */
  lemma {:induction false} Outnumbers(maximal: seq<seq<Rune>>, others: seq<seq<Rune>>, left: seq<Rune>)
    requires Maximal(maximal) && WithinLimit(others)
    requires Flatten(others) == left + Flatten(maximal)
    ensures |maximal| <= |others|
    decreases |others|
  {
    if others == [] {
      assert left + Flatten(maximal) == [];
      if maximal != [] { FlattenNotEmpty(maximal); }
    } else if maximal != [] {
      var first, rest := others[0], others[1..];
      assert forall c <- rest :: c in others;
      if |first| <= |left| {
        LongerPrefix(first, Flatten(rest), left, Flatten(maximal));
        Outnumbers(maximal, rest, left[|first|..]);
      } else {
        var taken := first[|left|..];
        TakesAtMostOne(maximal, others, left);
        MaximalTail(maximal);
        Outnumbers(maximal[1..], rest, maximal[0][|taken|..]);
      }
    }
  }

  lemma MaximalTail(chunks: seq<seq<Rune>>)
    requires Maximal(chunks) && chunks != []
    ensures Maximal(chunks[1..])
  {
    var tail := chunks[1..];
    assert forall k :: 0 <= k < |tail| ==> tail[k] == chunks[k + 1];
  }

  lemma TakesAtMostOne(maximal: seq<seq<Rune>>, others: seq<seq<Rune>>, left: seq<Rune>)
    requires Maximal(maximal) && WithinLimit(others) && maximal != [] && others != []
    requires Flatten(others) == left + Flatten(maximal) && |others[0]| > |left|
    ensures var taken := others[0][|left|..];
      && |taken| <= |maximal[0]| && maximal[0] == taken + maximal[0][|taken|..]
      && Flatten(others[1..]) == maximal[0][|taken|..] + Flatten(maximal[1..])
  {
    hide Maximal, WithinLimit, Units;
    var first, rest := others[0], Flatten(others[1..]);
    var taken := first[|left|..];
    LongerPrefix(left, Flatten(maximal), first, rest);
    assert Flatten(maximal) == taken + rest;
    assert taken == Flatten(maximal)[..|taken|];
    assert |taken| <= |maximal[0]| by {
      UnitsConcat(left, taken);
      LimitOf(others);
      if |taken| > |maximal[0]| { TooMany(maximal, taken); }
    }
    LongerPrefix(taken, rest, maximal[0], Flatten(maximal[1..]));
  }

  lemma LimitOf(chunks: seq<seq<Rune>>)
    requires WithinLimit(chunks) && chunks != []
    ensures Units(chunks[0]) <= SPLIT_LIMIT
  {}

  lemma TooMany(maximal: seq<seq<Rune>>, taken: seq<Rune>)
    requires Maximal(maximal) && maximal != [] && |maximal[0]| < |taken| <= |Flatten(maximal)|
    requires taken == Flatten(maximal)[..|taken|]
    ensures Units(taken) > SPLIT_LIMIT
  {
    hide Units;
    var n := |maximal[0]|;
    assert Flatten(maximal) == maximal[0] + Flatten(maximal[1..]);
    assert maximal[1..] != [] by {
      assert Flatten([]) == [] && Flatten(maximal[1..]) != [];
    }
    var next := maximal[1];
    assert Flatten(maximal[1..]) == next + Flatten(maximal[1..][1..]);
    assert taken[..n] == maximal[0] && taken[n] == next[0];
    assert taken == maximal[0] + ([next[0]] + taken[n + 1..]);
    UnitsConcat(maximal[0], [next[0]] + taken[n + 1..]);
    UnitsConcat([next[0]], taken[n + 1..]);
    UnitsOne(next[0]);
  }

  lemma UnitsOne(r: Rune)
    ensures Units([r]) == RuneUnits(r)
  {
    assert Units([r][1..]) == 0;
  }

  /** No other way of cutting the text between code points, within the limit,
      has fewer parts. */
  lemma SplitIsMinimal(text: Bytes, parts: seq<Bytes>, others: seq<Bytes>)
    requires Splits(parts, text) && Full(parts)
    requires Splits(others, text) && Limited(others)
    ensures |parts| <= |others|
  {
    hide Runes, Units, Maximal, WithinLimit, Limited, Full;
    InCodeUnits(parts);
    InCodeUnits(others);
    assert [] + Flatten(RunesOf(parts)) == Flatten(RunesOf(parts));
    Outnumbers(RunesOf(parts), RunesOf(others), []);
  }

  // ----- Every part can be sent -----

  ghost predicate Sendable(text: Bytes, maxUnits: nat) {
    ValidUtf8(text) && 1 <= |Utf16.CodeUnits(text)| <= maxUnits
  }

  method ValidTelegramText(text: Bytes, maxUnits: nat) returns (ok: bool)
    ensures ok <==> Sendable(text, maxUnits)
  {
    hide DecodeRune, Utf16.CodeUnits;
    Utf16.CodeUnitsCount(text);
    if !ValidUtf8(text) {
      return false;
    }
    var units, index := 0, 0;
    while index < |text|
      invariant index <= |text|
      invariant units + Units(Runes(text[index..])) == Units(Runes(text))
      decreases |text| - index
    {
      var r := DecodeRune(text[index..]);
      assert text[index..][r.width..] == text[index + r.width..];
      assert Runes(text[index..])[1..] == Runes(text[index + r.width..]);
      units := units + RuneUnits(r);
      index := index + r.width;
    }
    return units > 0 && units <= maxUnits;
  }

  lemma {:induction false} ChunkInFlatten(chunks: seq<seq<Rune>>, k: nat)
    requires k < |chunks|
    ensures forall r <- chunks[k] :: r in Flatten(chunks)
  {
    if k > 0 {
      ChunkInFlatten(chunks[1..], k - 1);
    }
  }

  /** Every part of a valid text passes the check made before sending. */
  lemma PartsAreSendable(text: Bytes, parts: seq<Bytes>, k: nat)
    requires Splits(parts, text) && Limited(parts) && ValidUtf8(text) && k < |parts|
    ensures Sendable(parts[k], 4096)
  {
    hide Runes, Utf16.CodeUnits;
    assert parts[k] in parts;
    ChunkInFlatten(RunesOf(parts), k);
    assert RunesOf(parts)[k] == Runes(parts[k]) && RunesOf(parts)[k] in RunesOf(parts);
  }
}
