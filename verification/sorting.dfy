/** Ordering and grouping of a list by an integer key, largest key first.
    The planner orders its entries by depth this way and then groups them
    by depth. */
module Sorting {

  /** Non-increasing key order. */
  predicate Descending<T>(s: seq<T>, key: T -> int)
  {
    forall i, j :: 0 <= i < j < |s| ==> key(s[i]) >= key(s[j])
  }

  /** No element's key exceeds `b`. */
  predicate Bounded<T>(s: seq<T>, key: T -> int, b: int)
  {
    forall i :: 0 <= i < |s| ==> key(s[i]) <= b
  }

  lemma PrependLargest<T>(h: T, t: seq<T>, key: T -> int)
    requires Descending(t, key) && Bounded(t, key, key(h))
    ensures Descending([h] + t, key)
  {
    var r := [h] + t;
    forall i, j | 0 <= i < j < |r| ensures key(r[i]) >= key(r[j]) {
      assert r[j] == t[j - 1];
      if i > 0 {
        assert r[i] == t[i - 1];
      }
    }
  }

  /** Places `x` after every element whose key is at least as large, so
      equal keys keep their order. */
  function Insert<T>(s: seq<T>, x: T, key: T -> int): seq<T>
  {
    if |s| == 0 then [x]
    else if key(s[0]) >= key(x) then [s[0]] + Insert(s[1..], x, key)
    else [x] + s
  }

  lemma {:induction false} InsertBounded<T>(s: seq<T>, x: T, key: T -> int, b: int)
    requires Bounded(s, key, b) && key(x) <= b
    ensures Bounded(Insert(s, x, key), key, b)
  {
    if |s| > 0 && key(s[0]) >= key(x) {
      InsertBounded(s[1..], x, key, b);
      var r := Insert(s[1..], x, key);
      assert forall i :: 1 <= i < |r| + 1 ==> ([s[0]] + r)[i] == r[i - 1];
    }
  }

  lemma {:induction false} InsertSorted<T>(s: seq<T>, x: T, key: T -> int)
    requires Descending(s, key)
    ensures Descending(Insert(s, x, key), key)
  {
    if |s| > 0 {
      if key(s[0]) >= key(x) {
        assert Descending(s[1..], key);
        assert Bounded(s[1..], key, key(s[0]));
        InsertSorted(s[1..], x, key);
        InsertBounded(s[1..], x, key, key(s[0]));
        PrependLargest(s[0], Insert(s[1..], x, key), key);
      } else {
        PrependLargest(x, s, key);
      }
    }
  }

  lemma {:induction false} InsertPermutes<T>(s: seq<T>, x: T, key: T -> int)
    ensures multiset(Insert(s, x, key)) == multiset(s) + multiset{x}
  {
    if |s| > 0 && key(s[0]) >= key(x) {
      InsertPermutes(s[1..], x, key);
      assert s == [s[0]] + s[1..];
    }
  }

  /** A stable insertion sort, largest key first. */
  function SortDescending<T>(s: seq<T>, key: T -> int): (r: seq<T>)
    ensures Descending(r, key)
    ensures multiset(r) == multiset(s)
  {
    if |s| == 0 then []
    else
      var front := s[..|s| - 1];
      var sorted := SortDescending(front, key);
      InsertSorted(sorted, s[|s| - 1], key);
      InsertPermutes(sorted, s[|s| - 1], key);
      assert s == front + [s[|s| - 1]];
      Insert(sorted, s[|s| - 1], key)
  }

  /** Two elements already in key order stay as they are. */
  lemma SortTwo<T>(a: T, b: T, key: T -> int)
    requires key(a) >= key(b)
    ensures SortDescending([a, b], key) == [a, b]
  {
    assert [a, b][..1] == [a];
    assert SortDescending([a], key) == [a] by {
      assert [a][..0] == [];
    }
    assert Insert([a], b, key) == [a] + Insert([], b, key);
  }

  /** A run of elements sharing one key. */
  datatype Group<T> = Group(key: int, items: seq<T>)

  function Flatten<T>(gs: seq<Group<T>>): seq<T>
  {
    if |gs| == 0 then [] else gs[0].items + Flatten(gs[1..])
  }

  lemma FlattenCons<T>(g: Group<T>, rest: seq<Group<T>>)
    ensures Flatten([g] + rest) == g.items + Flatten(rest)
  {
    assert ([g] + rest)[1..] == rest;
  }

  /** Length of the leading run of elements with the first element's key. */
  function RunLength<T>(s: seq<T>, key: T -> int): (n: nat)
    requires |s| > 0
    ensures 1 <= n <= |s|
    ensures forall i :: 0 <= i < n ==> key(s[i]) == key(s[0])
    ensures n < |s| ==> key(s[n]) != key(s[0])
  {
    if |s| == 1 || key(s[1]) != key(s[0]) then 1
    else
      var m := RunLength(s[1..], key);
      assert forall i :: 1 <= i < m + 1 ==> s[i] == s[1..][i - 1];
      m + 1
  }

  /** Every element has key `k`. */
  predicate AllKeyed<T>(items: seq<T>, key: T -> int, k: int)
  {
    forall i :: 0 <= i < |items| ==> key(items[i]) == k
  }

  /** Every group is non-empty and holds elements of its own key only. */
  predicate Uniform<T>(gs: seq<Group<T>>, key: T -> int)
  {
    forall g :: 0 <= g < |gs| ==> |gs[g].items| > 0 && AllKeyed(gs[g].items, key, gs[g].key)
  }

  /** Group keys strictly decrease. */
  predicate StrictlyDescending<T>(gs: seq<Group<T>>)
  {
    forall i, j :: 0 <= i < j < |gs| ==> gs[i].key > gs[j].key
  }

  lemma PrependGroup<T>(g: Group<T>, rest: seq<Group<T>>, key: T -> int)
    requires Uniform(rest, key) && StrictlyDescending(rest)
    requires |g.items| > 0 && AllKeyed(g.items, key, g.key)
    requires |rest| > 0 ==> rest[0].key < g.key
    ensures Uniform([g] + rest, key) && StrictlyDescending([g] + rest)
  {
    var gs := [g] + rest;
    forall i, j | 0 <= i < j < |gs| ensures gs[i].key > gs[j].key {
      assert gs[j] == rest[j - 1];
      if i > 0 {
        assert gs[i] == rest[i - 1];
      }
    }
    forall k | 0 <= k < |gs| ensures |gs[k].items| > 0 && AllKeyed(gs[k].items, key, gs[k].key) {
      if k > 0 {
        assert gs[k] == rest[k - 1];
      }
    }
  }

  /** What remains after the leading run is still ordered, and starts
      below the run's key. */
  lemma DescendingDrop<T>(s: seq<T>, n: nat, key: T -> int)
    requires Descending(s, key) && 0 < n <= |s|
    requires n < |s| ==> key(s[n]) != key(s[0])
    ensures Descending(s[n..], key)
    ensures n < |s| ==> key(s[n..][0]) < key(s[0])
  {
    forall i, j | 0 <= i < j < |s[n..]| ensures key(s[n..][i]) >= key(s[n..][j]) {
      assert s[n..][i] == s[n + i] && s[n..][j] == s[n + j];
    }
  }

  /** The leading run of `s`, as a group, in front of the groups of the
      remainder gives the groups of `s`. */
  lemma PrependRun<T>(s: seq<T>, n: nat, key: T -> int, rest: seq<Group<T>>)
    requires 0 < n <= |s|
    requires forall i :: 0 <= i < n ==> key(s[i]) == key(s[0])
    requires Flatten(rest) == s[n..] && Uniform(rest, key) && StrictlyDescending(rest)
    requires |rest| > 0 ==> rest[0].key < key(s[0])
    ensures var gs := [Group(key(s[0]), s[..n])] + rest;
      Flatten(gs) == s && Uniform(gs, key) && StrictlyDescending(gs)
  {
    var g := Group(key(s[0]), s[..n]);
    assert AllKeyed(g.items, key, g.key);
    PrependGroup(g, rest, key);
    FlattenCons(g, rest);
    SplitAt(s, n);
  }

  lemma SplitAt<T>(s: seq<T>, n: nat)
    requires n <= |s|
    ensures s[..n] + s[n..] == s
  {
  }

  /** A key-ordered list cut into its runs of equal keys: the groups, in
      order, give back the list; each holds one key; keys strictly fall. */
  function GroupRuns<T>(s: seq<T>, key: T -> int): (gs: seq<Group<T>>)
    requires Descending(s, key)
    ensures Flatten(gs) == s
    ensures Uniform(gs, key) && StrictlyDescending(gs)
    ensures |gs| > 0 ==> gs[0].key == key(s[0])
    decreases |s|
  {
    if |s| == 0 then []
    else
      var n := RunLength(s, key);
      var k := key(s[0]);
      DescendingDrop(s, n, key);
      var rest := GroupRuns(s[n..], key);
      PrependRun(s, n, key, rest);
      [Group(k, s[..n])] + rest
  }
}
