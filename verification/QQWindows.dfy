/** Passive-reply windows of the QQ channel, shared by webhook and sender. */
module QQWindows {
  import opened Prelude

  const WINDOW_LIMIT := 512
  const REPLY_LIMIT := 5
  const LIFETIME := 120_000_000_000

  /** A window: when it was opened, how many replies it has issued, and, only
      observing, which window of the run it is. */
  datatype Window = Window(at: int, count: nat, instance: nat)

  datatype Reply = Reply(number: nat, at: int)

  /** The map behind the mutex; keys, openedAt and issued observe every window
      ever opened: for which message, when, and the replies issued in it. */
  datatype State = State(windows: map<Bytes, Window>, keys: seq<Bytes>, openedAt: seq<int>, issued: seq<seq<Reply>>)

  predicate Expired(w: Window, now: int) {
    now - w.at > LIFETIME
  }

  ghost function Kept(windows: map<Bytes, Window>, now: int): map<Bytes, Window> {
    map key | key in windows && !Expired(windows[key], now) :: windows[key]
  }

  predicate CanReply(s: State, key: Bytes, now: int) {
    key in s.windows && !Expired(s.windows[key], now) && s.windows[key].count < REPLY_LIMIT
  }

  ghost function AfterReply(s: State, key: Bytes, now: int): State
    requires key in s.windows && s.windows[key].instance < |s.issued|
  {
    var w := s.windows[key];
    s.(windows := s.windows[key := w.(count := w.count + 1)],
       issued := s.issued[w.instance := s.issued[w.instance] + [Reply(w.count + 1, now)]])
  }

  ghost function AfterWebhook(s: State, key: Bytes, now: int): State {
    var kept := Kept(s.windows, now);
    if |kept| >= WINDOW_LIMIT || key in kept then s.(windows := kept)
    else State(kept[key := Window(now, 0, |s.openedAt|)], s.keys + [key], s.openedAt + [now], s.issued + [[]])
  }

  class Windows {
    var windows: map<Bytes, Window>
    ghost var keys: seq<Bytes>
    ghost var issued: seq<seq<Reply>>
    ghost var openedAt: seq<int>
    var instances: nat

    ghost function View(): State
      reads this
    {
      State(windows, keys, openedAt, issued)
    }

    constructor ()
      ensures View() == State(map[], [], [], []) && instances == 0
    {
      windows, keys, openedAt, issued, instances := map[], [], [], [], 0;
    }

    /** The sender's critical section: the number of the reply to send, if any. */
    method NextReply(key: Bytes, now: int) returns (number: Option<nat>)
      requires key in windows ==> windows[key].instance < |issued|
      modifies this
      ensures number.Some? <==> CanReply(old(View()), key, now)
      ensures number.Some? ==> number.value == old(windows)[key].count + 1
      ensures View() == if number.Some? then AfterReply(old(View()), key, now) else old(View())
      ensures instances == old(instances)
    {
      if key !in windows || now - windows[key].at > LIFETIME || windows[key].count >= REPLY_LIMIT {
        return None;
      }
      var w := windows[key];
      w := w.(count := w.count + 1);
      windows := windows[key := w];
      issued := issued[w.instance := issued[w.instance] + [Reply(w.count, now)]];
      return Some(w.count);
    }

    method DropExpired(now: int)
      modifies this`windows
      ensures windows == Kept(old(windows), now)
    {
      var left := windows.Keys;
      while left != {}
        invariant left <= windows.Keys <= old(windows).Keys
        invariant forall key <- windows :: windows[key] == old(windows)[key]
        invariant forall key <- old(windows) :: key in left || (key in windows <==> !Expired(old(windows)[key], now))
        decreases |left|
      {
        var key :| key in left;
        left := left - {key};
        if now - windows[key].at > LIFETIME {
          windows := windows - {key};
        }
      }
    }

    /** The webhook's critical section: open a window for a new message. */
    method Webhook(key: Bytes, now: int) returns (ok: bool)
      requires instances == |openedAt|
      modifies this
      ensures ok <==> |Kept(old(windows), now)| < WINDOW_LIMIT
      ensures View() == AfterWebhook(old(View()), key, now) && instances == |openedAt|
    {
      DropExpired(now);
      if |windows| >= WINDOW_LIMIT {
        return false;
      }
      if key !in windows {
        windows := windows[key := Window(now, 0, instances)];
        instances := instances + 1;
        keys := keys + [key];
        openedAt := openedAt + [now];
        issued := issued + [[]];
      }
      return true;
    }
  }

  // ----- Over all interleavings of webhook and sender -----

  datatype Action = Send(key: Bytes, now: int) | Receive(key: Bytes, now: int)

  /** Replies numbered 1, 2, ..., at most five, none later than the lifetime. */
  ghost predicate WellIssued(replies: seq<Reply>, at: int) {
    && |replies| <= REPLY_LIMIT
    && forall k :: 0 <= k < |replies| ==> replies[k].number == k + 1 && replies[k].at - at <= LIFETIME
  }

  ghost predicate Inv(s: State) {
    && |s.windows| <= WINDOW_LIMIT && |s.openedAt| == |s.issued| == |s.keys|
    && (forall i :: 0 <= i < |s.issued| ==> WellIssued(s.issued[i], s.openedAt[i]))
    && (forall key <- s.windows :: var w := s.windows[key];
          w.instance < |s.issued| && s.keys[w.instance] == key && s.openedAt[w.instance] == w.at && |s.issued[w.instance]| == w.count)
    && (forall j, k :: j in s.windows && k in s.windows && s.windows[j].instance == s.windows[k].instance ==> j == k)
  }

  ghost function Step(s: State, a: Action): State {
    match a
    case Send(key, now) =>
      if CanReply(s, key, now) && s.windows[key].instance < |s.issued| then AfterReply(s, key, now) else s
    case Receive(key, now) => AfterWebhook(s, key, now)
  }

  ghost function Run(actions: seq<Action>): State {
    if actions == [] then State(map[], [], [], []) else Step(Run(actions[..|actions| - 1]), actions[|actions| - 1])
  }

  lemma OneMoreReply(replies: seq<Reply>, at: int, now: int)
    requires WellIssued(replies, at) && |replies| < REPLY_LIMIT && now - at <= LIFETIME
    ensures WellIssued(replies + [Reply(|replies| + 1, now)], at)
  {}

  lemma NotExpired(w: Window, now: int)
    requires !Expired(w, now)
    ensures now - w.at <= LIFETIME
  {}

  lemma SendInv(s: State, key: Bytes, now: int)
    requires Inv(s) && CanReply(s, key, now)
    ensures Inv(AfterReply(s, key, now))
  {
    hide WellIssued, Expired;
    var w := s.windows[key];
    assert now - w.at <= LIFETIME by { NotExpired(w, now); }
    OneMoreReply(s.issued[w.instance], s.openedAt[w.instance], now);
    assert AfterReply(s, key, now).windows.Keys == s.windows.Keys;
  }

  lemma ReceiveInv(s: State, key: Bytes, now: int)
    requires Inv(s)
    ensures Inv(AfterWebhook(s, key, now))
  {
    hide WellIssued;
    var kept := Kept(s.windows, now);
    SubsetSize(kept.Keys, s.windows.Keys);
    NothingIssued(now);
  }

  lemma NothingIssued(at: int)
    ensures WellIssued([], at)
  {}

  /** Never more than 512 windows; and in each window ever opened the replies are
      numbered 1 to k with k at most 5, all within 120 seconds of its opening. */
  lemma {:induction false} AlwaysWithinWindow(actions: seq<Action>)
    ensures var s := Run(actions);
      && |s.windows| <= 512 && |s.openedAt| == |s.issued|
      && (forall i :: 0 <= i < |s.issued| ==> WellIssued(s.issued[i], s.openedAt[i]))
      && Inv(s)
  {
    hide Step, WellIssued;
    if actions != [] {
      var n := |actions| - 1;
      AlwaysWithinWindow(actions[..n]);
      StepInv(Run(actions[..n]), actions[n]);
    }
  }

  lemma StepInv(s: State, a: Action)
    requires Inv(s)
    ensures Inv(Step(s, a))
  {
    hide Inv, AfterReply, AfterWebhook;
    match a
    case Send(key, now) => if CanReply(s, key, now) && s.windows[key].instance < |s.issued| { SendInv(s, key, now); }
    case Receive(key, now) => ReceiveInv(s, key, now);
  }

  // ----- The same number twice for one message -----

  ghost predicate Ordered(actions: seq<Action>) {
    forall j, k :: 0 <= j < k < |actions| ==> actions[j].now <= actions[k].now
  }

  /** Window i issued this number for this message. */
  ghost predicate Issues(s: State, i: nat, key: Bytes, number: nat) {
    i < |s.keys| && i < |s.issued| && s.keys[i] == key && exists r <- s.issued[i] :: r.number == number
  }

  ghost predicate IssuedTwice(s: State, key: Bytes, number: nat) {
    exists i, j :: 0 <= i < j && Issues(s, i, key, number) && Issues(s, j, key, number)
  }

  /** Window i of this message issued at least n replies. */
  ghost predicate Replied(s: State, i: nat, key: Bytes, n: nat) {
    i < |s.keys| && i < |s.issued| && s.keys[i] == key && |s.issued[i]| >= n
  }

  lemma IssuesExactly(s: State, i: nat, key: Bytes, number: nat)
    requires Inv(s)
    ensures Issues(s, i, key, number) <==> number >= 1 && Replied(s, i, key, number)
  {
    if number >= 1 && Replied(s, i, key, number) {
      assert WellIssued(s.issued[i], s.openedAt[i]);
      assert s.issued[i][number - 1] in s.issued[i];
    }
    if Issues(s, i, key, number) {
      assert WellIssued(s.issued[i], s.openedAt[i]);
      var r :| r in s.issued[i] && r.number == number;
      var k :| 0 <= k < |s.issued[i]| && s.issued[i][k] == r;
    }
  }

  /** Every window but the one in the map has expired, and windows of one message
      were opened more than a lifetime apart. */
  ghost predicate Apart(s: State, clock: int) {
    && |s.keys| == |s.openedAt|
    && (forall i :: 0 <= i < |s.keys| ==>
          (s.keys[i] in s.windows && s.windows[s.keys[i]].instance == i) || clock - s.openedAt[i] > 120_000_000_000)
    && (forall i, j :: 0 <= i < j < |s.keys| && s.keys[i] == s.keys[j] ==> s.openedAt[j] - s.openedAt[i] > 120_000_000_000)
  }

  lemma ApartStep(s: State, a: Action, clock: int)
    requires Inv(s) && Apart(s, clock) && clock <= a.now
    ensures Apart(Step(s, a), a.now)
  {
    hide WellIssued, Kept;
    assert Linked(s);
    match a
    case Send(key, now) =>
    case Receive(key, now) =>
      hide AfterWebhook, Inv, Apart;
      ApartReceive(s, key, now, clock);
  }

  /** The window in the map for a message is one of those opened for it. */
  ghost predicate Linked(s: State) {
    && |s.keys| == |s.openedAt|
    && forall key <- s.windows :: var w := s.windows[key];
         w.instance < |s.keys| && s.keys[w.instance] == key && s.openedAt[w.instance] == w.at
  }

  lemma ApartReceive(s: State, key: Bytes, now: int, clock: int)
    requires Linked(s) && Apart(s, clock) && clock <= now
    ensures Apart(AfterWebhook(s, key, now), now)
  {
    var s', kept := AfterWebhook(s, key, now), Kept(s.windows, now);
    forall i | 0 <= i < |s.keys|
      ensures (s.keys[i] in kept && kept[s.keys[i]].instance == i) || now - s.openedAt[i] > 120_000_000_000
    {
      if s.keys[i] in s.windows && s.windows[s.keys[i]].instance == i {
        assert s.openedAt[i] == s.windows[s.keys[i]].at;
      }
    }
    if s'.keys != s.keys {
      ApartOpened(s, kept, key, now);
    }
  }

  lemma ApartOpened(s: State, kept: map<Bytes, Window>, key: Bytes, now: int)
    requires |s.keys| == |s.openedAt| && key !in kept
    requires forall i :: 0 <= i < |s.keys| ==>
      (s.keys[i] in kept && kept[s.keys[i]].instance == i) || now - s.openedAt[i] > 120_000_000_000
    requires forall i, j :: 0 <= i < j < |s.keys| && s.keys[i] == s.keys[j] ==> s.openedAt[j] - s.openedAt[i] > 120_000_000_000
    ensures Apart(State(kept[key := Window(now, 0, |s.openedAt|)], s.keys + [key], s.openedAt + [now], s.issued + [[]]), now)
  {}

  lemma {:induction false} AlwaysApart(actions: seq<Action>, clock: int)
    requires Ordered(actions) && forall a <- actions :: a.now <= clock
    ensures Inv(Run(actions)) && Apart(Run(actions), clock)
  {
    hide Inv, Apart, Step;
    AlwaysWithinWindow(actions);
    if actions == [] {
      NothingApart(clock);
    } else {
      var n := |actions| - 1;
      var before, a := actions[..n], actions[n];
      forall b <- before ensures b.now <= a.now {
        var j :| 0 <= j < n && before[j] == b;
        assert actions[j] == b;
      }
      AlwaysApart(before, a.now);
      ApartStep(Run(before), a, a.now);
      assert a in actions;
      ApartLater(Run(actions), a.now, clock);
    }
  }

  lemma NothingApart(clock: int)
    ensures Apart(State(map[], [], [], []), clock)
  {}

  lemma ApartLater(s: State, clock: int, later: int)
    requires Apart(s, clock) && clock <= later
    ensures Apart(s, later)
  {}

  /** Over all interleavings under a clock that does not go back, a number is
      issued twice for one message exactly when the message was received again
      more than 120 seconds after a window for it was opened, and both windows
      issued that many replies. In particular some number is issued twice exactly
      when two of its windows replied at all. */
  lemma IssuedTwiceExactly(actions: seq<Action>, key: Bytes, number: nat)
    requires Ordered(actions) && number >= 1
    ensures var s := Run(actions);
      && |s.keys| == |s.openedAt|
      && (IssuedTwice(s, key, number) <==>
            exists i, j :: 0 <= i < j && Replied(s, i, key, number) && Replied(s, j, key, number)
              && s.openedAt[j] - s.openedAt[i] > 120_000_000_000)
      && (IssuedTwice(s, key, number) ==> IssuedTwice(s, key, 1))
  {
    hide Run, Inv, Replied, Issues;
    var clock := if actions == [] then 0 else actions[|actions| - 1].now;
    forall a <- actions ensures a.now <= clock {
      var j :| 0 <= j < |actions| && actions[j] == a;
    }
    AlwaysApart(actions, clock);
    var s := Run(actions);
    forall i: nat, n: nat | n == 1 || n == number
      ensures Issues(s, i, key, n) <==> n >= 1 && Replied(s, i, key, n)
      ensures Replied(s, i, key, number) ==> Replied(s, i, key, 1) && i < |s.keys| && s.keys[i] == key
    {
      IssuesExactly(s, i, key, n);
      FewerReplied(s, i, key, number);
    }
  }

  lemma FewerReplied(s: State, i: nat, key: Bytes, n: nat)
    requires n >= 1
    ensures Replied(s, i, key, n) ==> Replied(s, i, key, 1) && i < |s.keys| && s.keys[i] == key
  {}

  lemma OpenAndReply(s: State, key: Bytes, now: int)
    requires Kept(s.windows, now) == map[] && |s.issued| == |s.openedAt|
    ensures Step(Step(s, Receive(key, now)), Send(key, now)) ==
      State(map[key := Window(now, 1, |s.issued|)], s.keys + [key], s.openedAt + [now], s.issued + [[Reply(1, now)]])
  {
    hide Kept;
    var waiting := Step(s, Receive(key, now));
    assert waiting == AfterWebhook(s, key, now);
    assert waiting.windows == map[key := Window(now, 0, |s.issued|)];
    assert waiting.issued[|s.issued|] == [] && [] + [Reply(1, now)] == [Reply(1, now)];
  }

  /** It happens: a message received again after its window expired is answered
      with number one a second time. */
  lemma ReceivedAgain(key: Bytes)
    ensures var late := 120_000_000_001;
      IssuedTwice(Run([Receive(key, 0), Send(key, 0), Receive(key, late), Send(key, late)]), key, 1)
  {
    hide Step, Issues;
    var late := 120_000_000_001;
    var actions := [Receive(key, 0), Send(key, 0), Receive(key, late), Send(key, late)];
    var first := [Receive(key, 0), Send(key, 0)];
    var none: seq<Action> := [];
    assert first == none + [Receive(key, 0)] + [Send(key, 0)];
    assert actions == first + [Receive(key, late)] + [Send(key, late)];
    TwoSteps(none, Receive(key, 0), Send(key, 0));
    TwoSteps(first, Receive(key, late), Send(key, late));
    OpenAndReply(Run(none), key, 0);
    var s2 := Run(first);
    assert s2.keys == [key] && s2.openedAt == [0] && s2.issued == [[Reply(1, 0)]];
    OpenAndReply(s2, key, late);
    var s4 := Run(actions);
    assert s4.issued == [[Reply(1, 0)]] + [[Reply(1, late)]] && s4.keys == [key] + [key];
    OneIssued(s4, 0, key, Reply(1, 0));
    OneIssued(s4, 1, key, Reply(1, late));
  }

  lemma TwoSteps(actions: seq<Action>, a: Action, b: Action)
    ensures Run(actions + [a] + [b]) == Step(Step(Run(actions), a), b)
  {
    hide Step;
    assert (actions + [a] + [b])[..|actions| + 1] == actions + [a];
    assert (actions + [a])[..|actions|] == actions;
  }

  lemma OneIssued(s: State, i: nat, key: Bytes, r: Reply)
    requires i < |s.keys| && i < |s.issued| && s.keys[i] == key && s.issued[i] == [r]
    ensures Issues(s, i, key, r.number)
  {}

  // ----- What the sender and the webhook see -----

  /** A reply is numbered exactly while its window is at most 120 seconds old and
      has fewer than five, and then with the next number; otherwise nothing changes. */
  lemma SendExactly(s: State, key: Bytes, now: int)
    requires Inv(s)
    ensures var s' := Step(s, Send(key, now));
      if key in s.windows && now - s.windows[key].at <= 120_000_000_000 && s.windows[key].count <= 4 then
        var w := s.windows[key];
        && s'.windows == s.windows[key := w.(count := w.count + 1)]
        && s'.issued == s.issued[w.instance := s.issued[w.instance] + [Reply(w.count + 1, now)]]
      else s' == s
  {
    hide WellIssued;
  }

  /** A message first drops every window older than 120 seconds. If 512 are left it
      is refused; a window it has stays as it is; otherwise it gets a new one. */
  lemma ReceiveExactly(s: State, key: Bytes, now: int)
    ensures var s' := Step(s, Receive(key, now));
      var young := set k | k in s.windows && now - s.windows[k].at <= 120_000_000_000;
      && (forall k <- young :: k in s'.windows && s'.windows[k] == s.windows[k])
      && if |young| >= 512 || key in young then s'.windows.Keys == young && s'.openedAt == s.openedAt
         else
           && s'.windows.Keys == young + {key} && s'.openedAt == s.openedAt + [now]
           && s'.windows[key].at == now && s'.windows[key].count == 0
  {
    assert Kept(s.windows, now).Keys == set k | k in s.windows && now - s.windows[k].at <= 120_000_000_000;
  }

  function Sends(key: Bytes, now: int, n: nat): seq<Action> {
    if n == 0 then [] else Sends(key, now, n - 1) + [Send(key, now)]
  }

  /** A message that was received can be answered five times and not a sixth. */
  lemma {:induction false} FiveReplies(key: Bytes, now: int, n: nat)
    ensures var s := Run([Receive(key, now)] + Sends(key, now, n));
      && key in s.windows && s.windows[key].at == now && s.windows[key].instance == 0
      && s.windows[key].count == (if n <= 5 then n else 5)
      && |s.issued| == 1 && |s.issued[0]| == (if n <= 5 then n else 5) && WellIssued(s.issued[0], now)
  {
    hide WellIssued, Step;
    var first := [Receive(key, now)];
    AlwaysWithinWindow(first + Sends(key, now, n));
    if n == 0 {
      assert first + [] == first && first[..0] == [];
      FirstWindow(key, now);
    } else {
      var before := first + Sends(key, now, n - 1);
      assert first + Sends(key, now, n) == before + [Send(key, now)];
      assert (before + [Send(key, now)])[..|before|] == before;
      FiveReplies(key, now, n - 1);
      AlwaysWithinWindow(before);
      SendExactly(Run(before), key, now);
    }
  }

  lemma FirstWindow(key: Bytes, now: int)
    ensures Step(State(map[], [], [], []), Receive(key, now)) == State(map[key := Window(now, 0, 0)], [key], [now], [[]])
  {
    assert Kept(map[], now) == map[];
  }
}
