/** The transitive-closure engine: indexes every record under its parent's
    version-sensitive key, then repeatedly copies grandchildren into their
    grandparents' lists (at most ten passes) and finally attaches each
    record's list as its `children`. */
module Closure {
  import opened Types
  import opened Alerts

  /** An entry of a child list: an annotated record and its depth below the
      list's owner. Two entries are "the same" when their records are equal,
      whatever their depths. */
  datatype Entry = Entry(node: Annotated, depth: int)

  /** The children map: its keys in insertion order and their lists. */
  datatype ChildMap = ChildMap(keys: seq<string>, lists: map<string, seq<Entry>>)

  /** A record as the engine returns it: non-root records have depth 1, and a
      record whose key indexes a list carries that list as `children`. */
  datatype Linked = Linked(node: Annotated, depth: Option<int>, children: Option<seq<Entry>>)

  /** The key a record is indexed under: its own key for a root record, its
      parent's key otherwise. */
  function GroupKey(n: Annotated): string
  {
    match n.rec.parent
    case None => NodeKey(n.rec.coord)
    case Some(p) => NodeKey(p)
  }

  /** The key of the list a record's own children would be in. */
  function OwnKey(n: Annotated): string
  {
    NodeKey(n.rec.coord)
  }

  ghost predicate WellFormed(m: ChildMap)
  {
    && (forall i, j :: 0 <= i < j < |m.keys| ==> m.keys[i] != m.keys[j])
    && (forall k :: k in m.lists <==> k in m.keys)
  }

  /** The records of `s`, depths ignored. */
  function NodesOf(s: seq<Entry>): set<Annotated>
  {
    set e | e in s :: e.node
  }

  /** The first-level children of key `k`: every non-root record whose
      parent has key `k`, at depth 1, in tree order. */
  function FirstChildren(tree: seq<Annotated>, k: string): seq<Entry>
  {
    if |tree| == 0 then []
    else
      var n := tree[|tree| - 1];
      FirstChildren(tree[..|tree| - 1], k) + (if n.rec.parent.Some? && GroupKey(n) == k then [Entry(n, 1)] else [])
  }

  /** Registers one record: creates its group's list if missing and, for a
      non-root record, appends it at depth 1. */
  function Register(m: ChildMap, n: Annotated): ChildMap
  {
    var k := GroupKey(n);
    var m1 := if k in m.lists then m else ChildMap(m.keys + [k], m.lists[k := []]);
    if n.rec.parent.None? then m1 else m1.(lists := m1.lists[k := m1.lists[k] + [Entry(n, 1)]])
  }

  lemma RegisterEffect(m: ChildMap, n: Annotated)
    requires WellFormed(m)
    ensures var r := Register(m, n);
      var k := GroupKey(n);
      && WellFormed(r)
      && r.lists.Keys == m.lists.Keys + {k}
      && (forall k' :: k' in m.lists && k' != k ==> r.lists[k'] == m.lists[k'])
      && r.lists[k] == (if k in m.lists then m.lists[k] else []) + (if n.rec.parent.Some? then [Entry(n, 1)] else [])
  {
    var k := GroupKey(n);
    if k !in m.lists {
      var r := Register(m, n);
      forall i, j | 0 <= i < j < |r.keys| ensures r.keys[i] != r.keys[j] {
        if j == |m.keys| {
          assert r.keys[i] == m.keys[i] && r.keys[i] in m.lists;
        } else {
          assert r.keys[i] == m.keys[i] && r.keys[j] == m.keys[j];
        }
      }
      var none: seq<Entry> := [];
      assert none + [] == none;
    } else {
      assert m.lists[k] + [] == m.lists[k];
    }
  }

  /** The keys the records are indexed under. */
  function Groups(tree: seq<Annotated>): set<string>
  {
    if |tree| == 0 then {} else Groups(tree[..|tree| - 1]) + {GroupKey(tree[|tree| - 1])}
  }

  lemma {:induction false} GroupsMembers(tree: seq<Annotated>)
    ensures forall k :: k in Groups(tree) <==> exists n :: n in tree && GroupKey(n) == k
  {
    if |tree| > 0 {
      GroupsMembers(tree[..|tree| - 1]);
      assert forall x :: x in tree <==> x in tree[..|tree| - 1] || x == tree[|tree| - 1];
    }
  }

  lemma {:induction false} EveryRecordGrouped(tree: seq<Annotated>)
    ensures forall i :: 0 <= i < |tree| ==> GroupKey(tree[i]) in Groups(tree)
  {
    if |tree| > 0 {
      var front := tree[..|tree| - 1];
      EveryRecordGrouped(front);
      assert forall i :: 0 <= i < |front| ==> tree[i] == front[i];
    }
  }

  /** The position of the first record indexed under `k`. */
  function FirstIndex(tree: seq<Annotated>, k: string): (i: nat)
    requires k in Groups(tree)
    ensures i < |tree| && GroupKey(tree[i]) == k
    ensures forall j :: 0 <= j < i ==> GroupKey(tree[j]) != k
  {
    var front := tree[..|tree| - 1];
    if k in Groups(front) then
      var i := FirstIndex(front, k);
      assert forall j :: 0 <= j <= i ==> tree[j] == front[j];
      i
    else
      EveryRecordGrouped(front);
      assert forall j :: 0 <= j < |front| ==> tree[j] == front[j];
      |tree| - 1
  }

  /** The keys are listed in the order their first record occurs. */
  ghost predicate InsertionOrdered(tree: seq<Annotated>, keys: seq<string>)
    requires forall i :: 0 <= i < |keys| ==> keys[i] in Groups(tree)
  {
    forall i, j :: 0 <= i < j < |keys| ==> FirstIndex(tree, keys[i]) < FirstIndex(tree, keys[j])
  }

  /** The first-level map, built over the records in order: one list per
      group, holding that group's first-level children. */
  function FirstLevel(tree: seq<Annotated>): (m: ChildMap)
    ensures WellFormed(m)
    ensures m.lists.Keys == Groups(tree)
    ensures forall k :: k in m.lists ==> m.lists[k] == FirstChildren(tree, k)
  {
    if |tree| == 0 then ChildMap([], map[])
    else
      var front := tree[..|tree| - 1];
      var n := tree[|tree| - 1];
      var m0 := FirstLevel(front);
      var m := Register(m0, n);
      RegisterEffect(m0, n);
      assert forall k :: k !in m0.lists ==> FirstChildren(front, k) == [] by {
        forall k | k !in m0.lists ensures FirstChildren(front, k) == [] {
          NoGroupNoChildren(front, k);
        }
      }
      m
  }

  /** The first-level map lists its keys in the order their first record
      occurs in the tree. */
  lemma {:induction false} FirstLevelOrdered(tree: seq<Annotated>)
    ensures InsertionOrdered(tree, FirstLevel(tree).keys)
  {
    if |tree| > 0 {
      FirstLevelOrdered(tree[..|tree| - 1]);
      RegisterOrdered(tree, FirstLevel(tree[..|tree| - 1]));
    }
  }

  /** Registering the next record keeps the keys in insertion order. */
  lemma RegisterOrdered(tree: seq<Annotated>, m0: ChildMap)
    requires |tree| > 0
    requires WellFormed(m0) && m0.lists.Keys == Groups(tree[..|tree| - 1])
    requires forall i :: 0 <= i < |m0.keys| ==> m0.keys[i] in Groups(tree[..|tree| - 1])
    requires InsertionOrdered(tree[..|tree| - 1], m0.keys)
    ensures var m := Register(m0, tree[|tree| - 1]);
      && (forall i :: 0 <= i < |m.keys| ==> m.keys[i] in Groups(tree))
      && InsertionOrdered(tree, m.keys)
  {
    var front := tree[..|tree| - 1];
    var k := GroupKey(tree[|tree| - 1]);
    var m := Register(m0, tree[|tree| - 1]);
    assert Groups(tree) == Groups(front) + {k};
    var keys := m.keys;
    assert keys == if k in m0.lists then m0.keys else m0.keys + [k];
    forall i, j | 0 <= i < j < |keys| ensures FirstIndex(tree, keys[i]) < FirstIndex(tree, keys[j]) {
      assert keys[i] == m0.keys[i];
      FirstIndexExtend(tree, keys[i]);
      if j < |m0.keys| {
        assert keys[j] == m0.keys[j];
        FirstIndexExtend(tree, keys[j]);
      } else {
        assert keys[j] == k && k !in Groups(front);
      }
    }
  }

  /** Adding a record does not move the first occurrence of an earlier key. */
  lemma FirstIndexExtend(tree: seq<Annotated>, k: string)
    requires |tree| > 0 && k in Groups(tree[..|tree| - 1])
    ensures k in Groups(tree)
    ensures FirstIndex(tree, k) == FirstIndex(tree[..|tree| - 1], k) < |tree| - 1
  {
  }

  lemma {:induction false} NoGroupNoChildren(tree: seq<Annotated>, k: string)
    requires k !in Groups(tree)
    ensures FirstChildren(tree, k) == []
  {
    if |tree| > 0 {
      NoGroupNoChildren(tree[..|tree| - 1], k);
    }
  }

  // ---------------------------------------------------------------------
  // Invariants of the closure loop

  /** `b` is `a` with lists that have only grown at their ends. */
  ghost predicate Extends(a: ChildMap, b: ChildMap)
  {
    && b.keys == a.keys
    && b.lists.Keys == a.lists.Keys
    && forall k :: k in a.lists ==> a.lists[k] <= b.lists[k]
  }

  /** Entry `j` of list `k` equals no earlier entry when depths are ignored. */
  ghost predicate FreshAt(s: seq<Entry>, j: int)
    requires 0 <= j < |s|
  {
    s[j].node !in NodesOf(s[..j])
  }

  /** Entry `j` of list `k` is a copy, one level deeper, of an entry of the
      list of an earlier child of `k`. */
  ghost predicate DerivedAt(m: ChildMap, k: string, j: int)
    requires k in m.lists && 0 <= j < |m.lists[k]|
  {
    exists i, c :: 0 <= i < j && CopiedFrom(m, k, j, i, c)
  }

  ghost predicate CopiedFrom(m: ChildMap, k: string, j: int, i: int, c: int)
    requires k in m.lists && 0 <= i < j < |m.lists[k]|
  {
    var ck := OwnKey(m.lists[k][i].node);
    && ck in m.lists
    && 0 <= c < |m.lists[ck]|
    && m.lists[ck][c].node == m.lists[k][j].node
    && m.lists[k][j].depth == m.lists[ck][c].depth + 1
  }

  /** Every entry appended since `base` is fresh in its list and derived. */
  ghost predicate AppendRule(base: ChildMap, m: ChildMap)
  {
    forall k, j :: k in m.lists && k in base.lists && |base.lists[k]| <= j < |m.lists[k]| ==>
      FreshAt(m.lists[k], j) && DerivedAt(m, k, j)
  }

  /** Every entry holds a record of `u` at depth at least 1. */
  ghost predicate Inside(m: ChildMap, u: set<Annotated>)
  {
    forall k, e :: k in m.lists && e in m.lists[k] ==> e.node in u && e.depth >= 1
  }

  /** Child `i` of list `k` contributes nothing new: every entry of its own
      list already occurs in list `k`, depths ignored. */
  ghost predicate ClosedAt(m: ChildMap, k: string, i: int)
    requires k in m.lists && 0 <= i < |m.lists[k]|
  {
    var ck := OwnKey(m.lists[k][i].node);
    ck in m.lists ==> forall e :: e in m.lists[ck] ==> e.node in NodesOf(m.lists[k])
  }

  ghost predicate ClosedKey(m: ChildMap, k: string)
    requires k in m.lists
  {
    forall i :: 0 <= i < |m.lists[k]| ==> ClosedAt(m, k, i)
  }

  /** Closed under composition: for every list P, every child C of P and
      every entry E of C's own list, E occurs in P's list up to depth. */
  ghost predicate Closed(m: ChildMap)
  {
    forall k :: k in m.lists ==> ClosedKey(m, k)
  }

  // ---------------------------------------------------------------------
  // Lemmas about growing lists

  lemma NodesAppend(s: seq<Entry>, e: Entry)
    ensures NodesOf(s + [e]) == NodesOf(s) + {e.node}
  {
    assert forall x :: x in s + [e] <==> x in s || x == e;
  }

  lemma NodesPrefix(s: seq<Entry>, t: seq<Entry>)
    requires s <= t
    ensures NodesOf(s) <= NodesOf(t)
  {
    forall x | x in NodesOf(s) ensures x in NodesOf(t) {
      var e :| e in s && e.node == x;
      var j :| 0 <= j < |s| && s[j] == e;
      assert t[j] == e;
    }
  }

  lemma {:induction false} SubsetCard<T>(a: set<T>, b: set<T>)
    requires a <= b
    ensures |a| <= |b|
    decreases |a|
  {
    if a != {} {
      var x :| x in a;
      SubsetCard(a - {x}, b - {x});
    }
  }

  /** Freshness and derivation of an existing entry survive growth. */
  lemma ExtendsKeepsEntry(m1: ChildMap, m2: ChildMap, k: string, j: int)
    requires Extends(m1, m2) && k in m1.lists && 0 <= j < |m1.lists[k]|
    ensures m2.lists[k][j] == m1.lists[k][j] && m2.lists[k][..j] == m1.lists[k][..j]
    ensures FreshAt(m1.lists[k], j) ==> FreshAt(m2.lists[k], j)
    ensures DerivedAt(m1, k, j) ==> DerivedAt(m2, k, j)
  {
    if DerivedAt(m1, k, j) {
      var i, c :| 0 <= i < j && CopiedFrom(m1, k, j, i, c);
      var ck := OwnKey(m1.lists[k][i].node);
      assert m2.lists[k][i] == m1.lists[k][i];
      assert m2.lists[ck][c] == m1.lists[ck][c];
      assert CopiedFrom(m2, k, j, i, c);
    }
  }

  /** Appending a fresh copy, one level deeper, of entry `c` of the list of
      child `i` keeps every invariant. */
  /** The map with entry `e` appended to list `pk`. */
  function Appended(m: ChildMap, pk: string, e: Entry): ChildMap
    requires pk in m.lists
  {
    m.(lists := m.lists[pk := m.lists[pk] + [e]])
  }

  lemma AppendShape(m: ChildMap, pk: string, e: Entry, u: set<Annotated>)
    requires WellFormed(m) && Inside(m, u) && pk in m.lists && e.node in u && e.depth >= 1
    ensures WellFormed(Appended(m, pk, e)) && Extends(m, Appended(m, pk, e)) && Inside(Appended(m, pk, e), u)
  {
    var m' := Appended(m, pk, e);
    assert forall k, x :: k in m'.lists && x in m'.lists[k] ==> (k != pk && x in m.lists[k]) || x in m.lists[pk] || x == e;
  }

  lemma AppendRuleKept(base: ChildMap, m: ChildMap, pk: string, i: int, ck: string, c: int)
    requires Extends(base, m) && AppendRule(base, m)
    requires pk in m.lists && 0 <= i < |m.lists[pk]| && ck == OwnKey(m.lists[pk][i].node)
    requires ck in m.lists && ck != pk && 0 <= c < |m.lists[ck]|
    requires m.lists[ck][c].node !in NodesOf(m.lists[pk])
    ensures var m' := Appended(m, pk, Entry(m.lists[ck][c].node, m.lists[ck][c].depth + 1));
      Extends(base, m') && AppendRule(base, m')
  {
    var e := Entry(m.lists[ck][c].node, m.lists[ck][c].depth + 1);
    var m' := Appended(m, pk, e);
    var jn := |m.lists[pk]|;
    assert Extends(m, m');
    assert m'.lists[pk][..jn] == m.lists[pk];
    assert CopiedFrom(m', pk, jn, i, c);
    forall k, j | k in m'.lists && k in base.lists && |base.lists[k]| <= j < |m'.lists[k]|
      ensures FreshAt(m'.lists[k], j) && DerivedAt(m', k, j)
    {
      if k != pk || j < jn {
        ExtendsKeepsEntry(m, m', k, j);
      }
    }
  }

  /** Everything appending a fresh grandchild entry keeps or changes. */
  lemma AppendFacts(base: ChildMap, m: ChildMap, pk: string, i: int, ck: string, c: int, u: set<Annotated>)
    requires WellFormed(m) && Extends(base, m) && AppendRule(base, m) && Inside(m, u)
    requires pk in m.lists && 0 <= i < |m.lists[pk]| && ck == OwnKey(m.lists[pk][i].node)
    requires ck in m.lists && ck != pk && 0 <= c < |m.lists[ck]|
    requires m.lists[ck][c].node !in NodesOf(m.lists[pk])
    ensures var m' := Appended(m, pk, Entry(m.lists[ck][c].node, m.lists[ck][c].depth + 1));
      && WellFormed(m') && Extends(m, m') && Extends(base, m') && AppendRule(base, m') && Inside(m', u)
      && (forall k :: k in m.lists && k != pk ==> m'.lists[k] == m.lists[k])
      && NodesOf(m.lists[pk]) <= NodesOf(m'.lists[pk])
      && m.lists[ck][c].node in NodesOf(m'.lists[pk])
      && |NodesOf(m'.lists[pk])| > |NodesOf(m.lists[pk])|
  {
    var e := Entry(m.lists[ck][c].node, m.lists[ck][c].depth + 1);
    assert m.lists[ck][c] in m.lists[ck];
    AppendShape(m, pk, e, u);
    AppendRuleKept(base, m, pk, i, ck, c);
    NodesAppend(m.lists[pk], e);
  }

  // ---------------------------------------------------------------------
  // The fixed-point loop

  /** `Array.prototype.some` over a child list, depths ignored. */
  function Contains(s: seq<Entry>, n: Annotated): (b: bool)
    ensures b <==> n in NodesOf(s)
  {
    if |s| == 0 then false
    else if s[0].node == n then true
    else
      assert forall x :: x in s <==> x == s[0] || x in s[1..];
      Contains(s[1..], n)
  }

  /** Copying one grandchild: entry `c` of list `ck` is appended
      to list `pk`, one level deeper, exactly when list `pk` does not hold
      its record yet. */
  method CopyEntry(m: ChildMap, pk: string, ck: string, c: int) returns (m': ChildMap, appended: bool)
    requires pk in m.lists && ck in m.lists && 0 <= c < |m.lists[ck]|
    ensures appended <==> m.lists[ck][c].node !in NodesOf(m.lists[pk])
    ensures m' == if appended then Appended(m, pk, Entry(m.lists[ck][c].node, m.lists[ck][c].depth + 1)) else m
  {
    var c2 := m.lists[ck][c];
    if Contains(m.lists[pk], c2.node) {
      m', appended := m, false;
    } else {
      m' := Appended(m, pk, Entry(c2.node, c2.depth + 1));
      appended := true;
    }
  }

  /** Copies into list `pk` every entry of the own list of its child `i`
      that list `pk` does not already hold, depths ignored. */
  method ExpandChild(m: ChildMap, pk: string, i: int, ghost base: ChildMap, ghost u: set<Annotated>)
    returns (m': ChildMap, added: bool)
    requires WellFormed(m) && Extends(base, m) && AppendRule(base, m) && Inside(m, u)
    requires pk in m.lists && 0 <= i < |m.lists[pk]|
    ensures WellFormed(m') && Extends(m, m') && Extends(base, m') && AppendRule(base, m') && Inside(m', u)
    ensures forall k :: k in m.lists && k != pk ==> m'.lists[k] == m.lists[k]
    ensures !added ==> m' == m && ClosedAt(m, pk, i)
    ensures added ==> |NodesOf(m'.lists[pk])| > |NodesOf(m.lists[pk])|
  {
    m' := m;
    added := false;
    var ck := OwnKey(m.lists[pk][i].node);
    if ck in m.lists {
      var kids := m.lists[ck];
      var j := 0;
      while j < |kids|
        invariant 0 <= j <= |kids|
        invariant WellFormed(m') && Extends(m, m') && Extends(base, m') && AppendRule(base, m') && Inside(m', u)
        invariant forall k :: k in m.lists && k != pk ==> m'.lists[k] == m.lists[k]
        invariant kids <= m'.lists[ck]
        invariant forall jj :: 0 <= jj < j ==> kids[jj].node in NodesOf(m'.lists[pk])
        invariant !added ==> m' == m
        invariant added ==> |NodesOf(m'.lists[pk])| > |NodesOf(m.lists[pk])|
      {
        ghost var before := m';
        assert before.lists[pk][i] == m.lists[pk][i];
        assert kids[j] == before.lists[ck][j];
        var a;
        m', a := CopyEntry(m', pk, ck, j);
        if a {
          assert ck != pk by {
            assert kids[j] in before.lists[ck];
          }
          AppendFacts(base, before, pk, i, ck, j, u);
          NodesPrefix(m.lists[pk], before.lists[pk]);
          SubsetCard(NodesOf(m.lists[pk]), NodesOf(before.lists[pk]));
        }
        added := added || a;
        j := j + 1;
      }
      if !added {
        forall x | x in m.lists[ck] ensures x.node in NodesOf(m.lists[pk]) {
          var jj :| 0 <= jj < |kids| && kids[jj] == x;
        }
      }
    }
  }

  /** Walks the live list `pk`, index by index, while it grows. */
  method ExpandKey(m: ChildMap, pk: string, ghost base: ChildMap, ghost u: set<Annotated>)
    returns (m': ChildMap, added: bool)
    requires WellFormed(m) && Extends(base, m) && AppendRule(base, m) && Inside(m, u)
    requires pk in m.lists
    ensures WellFormed(m') && Extends(m, m') && Extends(base, m') && AppendRule(base, m') && Inside(m', u)
    ensures !added ==> m' == m && ClosedKey(m, pk)
  {
    m' := m;
    added := false;
    var i := 0;
    SubsetCard(NodesOf(m'.lists[pk]), u);
    while i < |m'.lists[pk]|
      invariant WellFormed(m') && Extends(m, m') && Extends(base, m') && AppendRule(base, m') && Inside(m', u)
      invariant 0 <= i <= |m'.lists[pk]|
      invariant |NodesOf(m'.lists[pk])| <= |u|
      invariant !added ==> m' == m && forall ii :: 0 <= ii < i ==> ClosedAt(m, pk, ii)
      decreases |u| - |NodesOf(m'.lists[pk])|, |m'.lists[pk]| - i
    {
      var a;
      m', a := ExpandChild(m', pk, i, base, u);
      SubsetCard(NodesOf(m'.lists[pk]), u);
      added := added || a;
      i := i + 1;
    }
  }

  /** One pass over every key, in insertion order. */
  method Pass(m: ChildMap, ghost base: ChildMap, ghost u: set<Annotated>)
    returns (m': ChildMap, added: bool)
    requires WellFormed(m) && Extends(base, m) && AppendRule(base, m) && Inside(m, u)
    ensures WellFormed(m') && Extends(m, m') && Extends(base, m') && AppendRule(base, m') && Inside(m', u)
    ensures !added ==> m' == m && Closed(m)
  {
    m' := m;
    added := false;
    var ki := 0;
    while ki < |m.keys|
      invariant 0 <= ki <= |m.keys|
      invariant WellFormed(m') && Extends(m, m') && Extends(base, m') && AppendRule(base, m') && Inside(m', u)
      invariant !added ==> m' == m && forall kk :: 0 <= kk < ki ==> ClosedKey(m, m.keys[kk])
    {
      var a;
      m', a := ExpandKey(m', m.keys[ki], base, u);
      added := added || a;
      ki := ki + 1;
    }
    if !added {
      forall k | k in m.lists ensures ClosedKey(m, k) {
        var kk :| 0 <= kk < |m.keys| && m.keys[kk] == k;
      }
    }
  }

  /** The pass limit. */
  const MaxPasses: nat := 10

  /** Every record held by a list of `m`. */
  ghost function AllNodes(m: ChildMap): set<Annotated>
  {
    set k, e | k in m.lists && e in m.lists[k] :: e.node
  }

  /** Repeats passes until one adds nothing, running at most ten. */
  method Close(m0: ChildMap) returns (m: ChildMap, passes: nat, converged: bool)
    requires WellFormed(m0)
    requires forall k, e :: k in m0.lists && e in m0.lists[k] ==> e.depth >= 1
    ensures WellFormed(m) && Extends(m0, m) && AppendRule(m0, m) && Inside(m, AllNodes(m0))
    ensures 1 <= passes <= MaxPasses
    ensures converged ==> Closed(m)
    ensures !converged ==> passes == MaxPasses
  {
    ghost var u := AllNodes(m0);
    m := m0;
    passes := 0;
    converged := false;
    var hasChildren := true;
    var loopCount := 0;
    while hasChildren
      invariant 0 <= loopCount <= MaxPasses && passes == loopCount
      invariant loopCount == 0 ==> hasChildren
      invariant WellFormed(m) && Extends(m0, m) && AppendRule(m0, m) && Inside(m, u)
      invariant !hasChildren ==> converged && Closed(m)
      invariant hasChildren ==> !converged
      decreases MaxPasses - loopCount
    {
      hasChildren := false;
      loopCount := loopCount + 1;
      if loopCount > MaxPasses {
        break;
      }
      passes := passes + 1;
      var added;
      m, added := Pass(m, m0, u);
      hasChildren := added;
      converged := !added;
    }
  }

  /** Attaches the final lists: every non-root record gets depth 1, and a
      record whose own key indexes a list gets that list as `children`. */
  function Attach(tree: seq<Annotated>, m: ChildMap): (r: seq<Linked>)
    ensures |r| == |tree|
    ensures forall i :: 0 <= i < |r| ==> r[i].node == tree[i]
    ensures forall i :: 0 <= i < |r| ==> (r[i].children.Some? <==> OwnKey(tree[i]) in m.lists)
  {
    seq(|tree|, i requires 0 <= i < |tree| =>
      Linked(tree[i],
             if tree[i].rec.parent.None? then None else Some(1),
             if OwnKey(tree[i]) in m.lists then Some(m.lists[OwnKey(tree[i])]) else None))
  }

  /** When every list holds non-root records of the tree, so does every
      attached children list. */
  lemma AttachShape(tree: seq<Annotated>, m: ChildMap)
    requires ListsFrom(m, tree)
    ensures var r := Attach(tree, m);
      forall i :: 0 <= i < |r| && r[i].children.Some? ==>
        forall e :: e in r[i].children.value ==> e.node in tree && e.node.rec.parent.Some? && e.depth >= 1
  {
  }

  /** The whole engine: first-level map, at most ten passes, attach. The
      final map and whether the last pass added nothing are returned beside
      the records. */
  method MapChildrenToParents(tree: seq<Annotated>) returns (r: seq<Linked>, m: ChildMap, passes: nat, converged: bool)
    ensures |r| == |tree|
    ensures forall i :: 0 <= i < |r| ==>
      && r[i].node == tree[i]
      && r[i].depth == (if tree[i].rec.parent.None? then None else Some(1))
    ensures forall i :: 0 <= i < |r| ==>
      (r[i].children.Some? <==> OwnKey(tree[i]) in Groups(tree))
    ensures forall i :: 0 <= i < |r| && r[i].children.Some? ==>
      && OwnKey(tree[i]) in m.lists
      && r[i].children.value == m.lists[OwnKey(tree[i])]
      && FirstChildren(tree, OwnKey(tree[i])) <= r[i].children.value
    ensures forall i :: 0 <= i < |r| && tree[i].rec.parent.None? ==> r[i].children.Some?
    ensures forall i :: 0 <= i < |r| && r[i].children.Some? ==>
      forall e :: e in r[i].children.value ==> e.node in tree && e.node.rec.parent.Some? && e.depth >= 1
    ensures WellFormed(m) && Extends(FirstLevel(tree), m) && AppendRule(FirstLevel(tree), m)
    ensures 1 <= passes <= MaxPasses
    ensures converged ==> Closed(m)
    ensures !converged ==> passes == MaxPasses
  {
    m, passes, converged := CloseFirstLevel(tree);
    r := Attach(tree, m);
    AttachShape(tree, m);
    EveryRecordGrouped(tree);
  }

  /** The first-level map of `tree`, closed. Every list holds non-root
      records of the tree, and every record's group has a list. */
  method CloseFirstLevel(tree: seq<Annotated>) returns (m: ChildMap, passes: nat, converged: bool)
    ensures WellFormed(m) && Extends(FirstLevel(tree), m) && AppendRule(FirstLevel(tree), m)
    ensures ListsFrom(m, tree)
    ensures 1 <= passes <= MaxPasses
    ensures converged ==> Closed(m)
    ensures !converged ==> passes == MaxPasses
  {
    var m0 := FirstLevel(tree);
    FirstLevelShape(tree, m0);
    m, passes, converged := Close(m0);
    InsideShape(m0, m, tree);
  }

  /** Every list of `m` holds non-root records of `tree` at depth 1 or more. */
  ghost predicate ListsFrom(m: ChildMap, tree: seq<Annotated>)
  {
    forall k, e :: k in m.lists && e in m.lists[k] ==> e.node in tree && e.node.rec.parent.Some? && e.depth >= 1
  }

  lemma FirstLevelShape(tree: seq<Annotated>, m0: ChildMap)
    requires forall k :: k in m0.lists ==> m0.lists[k] == FirstChildren(tree, k)
    ensures ListsFrom(m0, tree)
  {
    forall k, e | k in m0.lists && e in m0.lists[k] ensures e.depth >= 1 && e.node in tree && e.node.rec.parent.Some? {
      FirstChildrenShape(tree, k);
      assert e in FirstChildren(tree, k);
    }
  }

  /** Closing only copies records already in the first-level map. */
  lemma InsideShape(m0: ChildMap, m: ChildMap, tree: seq<Annotated>)
    requires Inside(m, AllNodes(m0))
    requires ListsFrom(m0, tree)
    ensures ListsFrom(m, tree)
  {
    forall k, e | k in m.lists && e in m.lists[k] ensures e.node in tree && e.node.rec.parent.Some? && e.depth >= 1 {
      assert e.node in AllNodes(m0);
      var k0, e0 :| k0 in m0.lists && e0 in m0.lists[k0] && e0.node == e.node;
    }
  }

  /** A first-level entry is a non-root record of the tree, indexed under
      `k`, at depth 1. */
  lemma {:induction false} FirstChildrenShape(tree: seq<Annotated>, k: string)
    ensures forall e :: e in FirstChildren(tree, k) ==>
      e.depth == 1 && e.node in tree && e.node.rec.parent.Some? && GroupKey(e.node) == k
  {
    if |tree| > 0 {
      var front := tree[..|tree| - 1];
      FirstChildrenShape(front, k);
      assert forall n :: n in front ==> n in tree;
    }
  }
}
