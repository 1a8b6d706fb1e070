/** Header keys in the order of Go's string comparison, byte by byte. */
module KeyOrder {
  import opened Prelude

  predicate Less(a: Bytes, b: Bytes) {
    if b == [] then false
    else if a == [] then true
    else if a[0] != b[0] then a[0] < b[0]
    else Less(a[1..], b[1..])
  }

  lemma {:induction false} LessTrichotomy(a: Bytes, b: Bytes)
    ensures a == b || Less(a, b) || Less(b, a)
    ensures !(Less(a, b) && Less(b, a)) && !(Less(a, b) && a == b)
  {
    if a != [] && b != [] {
      LessTrichotomy(a[1..], b[1..]);
      assert a == [a[0]] + a[1..] && b == [b[0]] + b[1..];
    }
  }

  /** a comes before b exactly when it is a proper prefix of b or has the smaller
      byte where they first differ. */
  lemma {:induction false} LessExactly(a: Bytes, b: Bytes)
    ensures Less(a, b) <==>
      exists k :: 0 <= k <= |a| && k < |b| && a[..k] == b[..k] && (k == |a| || a[k] < b[k])
  {
    if a == [] || b == [] || a[0] != b[0] {
      if b != [] {
        assert a[..0] == b[..0];
      }
      forall k | 0 < k <= |a| && k < |b| && a[..k] == b[..k] ensures a[0] == b[0] {
        assert a[..k][0] == b[..k][0];
      }
    } else {
      LessExactly(a[1..], b[1..]);
      forall k | 0 <= k <= |a[1..]| && k < |b[1..]| && a[1..][..k] == b[1..][..k]
        ensures a[..k + 1] == b[..k + 1]
      {
        assert a[..k + 1] == [a[0]] + a[1..][..k] && b[..k + 1] == [b[0]] + b[1..][..k];
      }
      forall k | 0 < k <= |a| && k < |b| && a[..k] == b[..k]
        ensures a[1..][..k - 1] == b[1..][..k - 1]
      {
        assert a[1..][..k - 1] == a[..k][1..] && b[1..][..k - 1] == b[..k][1..];
      }
      if Less(a, b) {
        var k :| 0 <= k <= |a[1..]| && k < |b[1..]| && a[1..][..k] == b[1..][..k] && (k == |a[1..]| || a[1..][k] < b[1..][k]);
        assert a[..k + 1] == b[..k + 1] && (k + 1 == |a| || a[k + 1] < b[k + 1]);
      }
      if k :| 0 <= k <= |a| && k < |b| && a[..k] == b[..k] && (k == |a| || a[k] < b[k]) {
        assert k > 0;
        assert a[1..][..k - 1] == b[1..][..k - 1] && (k - 1 == |a[1..]| || a[1..][k - 1] < b[1..][k - 1]);
      }
    }
  }

  lemma {:induction false} LessTransitive(a: Bytes, b: Bytes, c: Bytes)
    requires Less(a, b) && Less(b, c)
    ensures Less(a, c)
  {
    if a != [] && b != [] && c != [] && a[0] == b[0] == c[0] {
      LessTransitive(a[1..], b[1..], c[1..]);
    }
  }

  ghost predicate NoDuplicates(keys: seq<Bytes>) {
    forall i, j :: 0 <= i < j < |keys| ==> keys[i] != keys[j]
  }

  ghost predicate Ascending(keys: seq<Bytes>) {
    forall i, j :: 0 <= i < j < |keys| ==> Less(keys[i], keys[j])
  }

  ghost function ElementsOf(keys: seq<Bytes>): set<Bytes> {
    set k | k in keys
  }

  ghost predicate Least(k: Bytes, s: set<Bytes>) {
    k in s && forall j <- s :: j == k || Less(k, j)
  }

  lemma {:induction false} LeastExists(s: set<Bytes>)
    requires s != {}
    ensures exists k :: Least(k, s)
  {
    hide Less;
    var x :| x in s;
    var rest := s - {x};
    if rest == {} {
      assert s == {x};
      assert Least(x, s);
    } else {
      LeastExists(rest);
      var k :| Least(k, rest);
      LessTrichotomy(x, k);
      if Less(x, k) {
        forall j <- s ensures j == x || Less(x, j) {
          if j != x && j != k { LessTransitive(x, k, j); }
        }
        assert Least(x, s);
      } else {
        assert Least(k, s);
      }
    }
  }

  /** A set of keys in ascending order. */
  ghost function SortedKeys(s: set<Bytes>): (keys: seq<Bytes>)
    ensures ElementsOf(keys) == s
  {
    if s == {} then []
    else
      LeastExists(s);
      var k :| Least(k, s);
      var rest := SortedKeys(s - {k});
      assert ElementsOf([k] + rest) == s by {
        assert forall j :: j in [k] + rest <==> j == k || j in rest;
        assert forall j :: j in rest <==> j in ElementsOf(rest);
      }
      [k] + rest
  }

  lemma {:induction false} SortedKeysFacts(s: set<Bytes>)
    ensures var keys := SortedKeys(s);
      && Ascending(keys) && NoDuplicates(keys) && |keys| == |s|
      && (forall k :: k in keys <==> k in s)
  {
    var keys := SortedKeys(s);
    assert forall k :: k in keys <==> k in ElementsOf(keys);
    if s != {} {
      var k := keys[0];
      var rest := keys[1..];
      assert rest == SortedKeys(s - {k});
      SortedKeysFacts(s - {k});
      forall i, j | 0 <= i < j < |keys| ensures Less(keys[i], keys[j]) {
        if i == 0 {
          assert keys[j] == rest[j - 1] && keys[j] in rest;
        } else {
          assert keys[i] == rest[i - 1] && keys[j] == rest[j - 1];
        }
      }
      AscendingNoDuplicates(keys);
    }
  }

  lemma AscendingNoDuplicates(keys: seq<Bytes>)
    requires Ascending(keys)
    ensures NoDuplicates(keys)
  {
    forall i, j | 0 <= i < j < |keys| ensures keys[i] != keys[j] {
      LessTrichotomy(keys[i], keys[j]);
    }
  }

  /** There is only one ascending list of a given set of keys. */
  lemma {:induction false} SortedIsUnique(keys: seq<Bytes>, s: set<Bytes>)
    requires Ascending(keys) && ElementsOf(keys) == s
    ensures keys == SortedKeys(s)
  {
    assert forall k :: k in keys <==> k in s;
    SortedKeysFacts(s);
    var sorted := SortedKeys(s);
    if keys == [] {
      assert s == {};
    } else {
      assert keys[0] in s;
      var k := sorted[0];
      assert k in s && k in keys;
      if k != keys[0] {
        var i :| 0 <= i < |keys| && keys[i] == k;
        assert Less(keys[0], k);
        var j :| 0 <= j < |sorted| && sorted[j] == keys[0];
        assert Less(k, keys[0]);
        LessTrichotomy(k, keys[0]);
      }
      AscendingNoDuplicates(keys);
      assert keys == [k] + keys[1..];
      forall j ensures j in ElementsOf(keys[1..]) <==> j in s - {k} {
        if j in keys[1..] {
          var i :| 0 <= i < |keys[1..]| && keys[1..][i] == j;
          assert keys[i + 1] == j && keys[0] == k;
          assert j in keys;
        }
        if j in s && j != k { assert j in keys; }
      }
      assert ElementsOf(keys[1..]) == s - {k};
      SortedIsUnique(keys[1..], s - {k});
      assert sorted[1..] == SortedKeys(s - {k});
    }
  }

  /** Sorting for Marshal: insertion, one key at a time. */
  method Sort(keys: seq<Bytes>) returns (sorted: seq<Bytes>)
    requires NoDuplicates(keys)
    ensures Ascending(sorted) && ElementsOf(sorted) == ElementsOf(keys)
  {
    sorted := [];
    for n := 0 to |keys|
      invariant Ascending(sorted) && ElementsOf(sorted) == ElementsOf(keys[..n])
    {
      var k := keys[n];
      assert forall j :: j in sorted <==> j in ElementsOf(sorted);
      assert k !in sorted;
      var at := 0;
      while at < |sorted| && Less(sorted[at], k)
        invariant 0 <= at <= |sorted|
        invariant forall i :: 0 <= i < at ==> Less(sorted[i], k)
      {
        at := at + 1;
      }
      InsertAscending(sorted, k, at);
      ghost var before := sorted;
      sorted := sorted[..at] + [k] + sorted[at..];
      assert keys[..n + 1] == keys[..n] + [k];
      assert forall j :: j in sorted <==> j == k || j in before by {
        assert before == before[..at] + before[at..];
      }
      assert forall j :: j in keys[..n + 1] <==> j == k || j in keys[..n];
      assert forall j :: j in before <==> j in ElementsOf(before);
      assert forall j :: j in keys[..n] <==> j in ElementsOf(keys[..n]);
    }
    assert keys[..|keys|] == keys;
  }

  /** The keys of a map, ranged over in any order and then sorted. */
  method CollectKeys(all: set<Bytes>) returns (keys: seq<Bytes>)
    ensures keys == SortedKeys(all)
  {
    keys := [];
    var left := all;
    while left != {}
      invariant left <= all
      invariant ElementsOf(keys) == all - left
      invariant NoDuplicates(keys)
      decreases |left|
    {
      var k :| k in left;
      assert forall j :: j in keys <==> j in ElementsOf(keys);
      assert ElementsOf(keys + [k]) == ElementsOf(keys) + {k};
      keys := keys + [k];
      left := left - {k};
    }
    keys := Sort(keys);
    SortedIsUnique(keys, all);
  }

  lemma InsertAscending(keys: seq<Bytes>, k: Bytes, at: nat)
    requires Ascending(keys) && k !in keys && at <= |keys|
    requires forall i :: 0 <= i < at ==> Less(keys[i], k)
    requires at < |keys| ==> !Less(keys[at], k)
    ensures Ascending(keys[..at] + [k] + keys[at..])
  {
    var all := keys[..at] + [k] + keys[at..];
    forall i | at <= i < |keys| ensures Less(k, keys[i]) {
      LessTrichotomy(keys[at], k);
      if i > at { LessTransitive(k, keys[at], keys[i]); }
    }
    forall i, j | 0 <= i < j < |all| ensures Less(all[i], all[j]) {
      assert all[i] == if i < at then keys[i] else if i == at then k else keys[i - 1];
      assert all[j] == if j < at then keys[j] else if j == at then k else keys[j - 1];
    }
  }
}
