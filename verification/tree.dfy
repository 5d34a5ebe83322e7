/** The package-graph walker: flattens the resolved-package map into a
    pre-order list of records, starting from one package, together with the
    indented listing of the same walk. */
module Tree {
  import opened Types

  /** One entry of the resolved map: the package, its relationship and scope,
      and the package URLs it declares as dependencies. */
  datatype Package = Package(coord: Coord, relationship: Relationship, scope: Scope, dependencies: seq<Coord>)

  /** The resolved map of one manifest, keyed by package-URL string. */
  type Resolved = map<string, Package>

  /** One line of the indented listing: indentation and the printed fields. */
  datatype TreeLine = TreeLine(indent: nat, coord: Coord, relationship: Relationship, scope: Scope)

  /** One flattened record; `parent` is None for the record of a walk's root. */
  datatype TreeRecord = TreeRecord(coord: Coord, relationship: Relationship, scope: Scope, parent: Option<Coord>)

  /** The result of a walk: the listing and the records, line for line. */
  datatype Walk = Walk(lines: seq<TreeLine>, records: seq<TreeRecord>)

  /** The key a dependency is looked up under:
      `pkg:type/namespace/name@version?type=qualifier`. */
  function LookupKey(c: Coord): string
  {
    "pkg:" + c.kind + "/" + c.namespace + "/" + c.name + "@" + c.version + "?type=" + c.qualifierType
  }

  function LineOf(p: Package, indent: nat): TreeLine
  {
    TreeLine(indent, p.coord, p.relationship, p.scope)
  }

  function RecordOf(p: Package, parent: Option<Coord>): TreeRecord
  {
    TreeRecord(p.coord, p.relationship, p.scope, parent)
  }

  /** The walker has no cycle guard: it terminates only when every declared
      dependency present in the map sits strictly lower in some ranking. */
  ghost predicate Ranked(resolved: Resolved, rank: map<string, nat>)
  {
    && resolved.Keys <= rank.Keys
    && forall k, d :: k in resolved && d in resolved[k].dependencies && LookupKey(d) in resolved ==>
         rank[LookupKey(d)] < rank[k]
  }

  /** Listing and records describe the same packages, position by position. */
  ghost predicate Aligned(w: Walk)
  {
    && |w.lines| == |w.records|
    && forall j :: 0 <= j < |w.records| ==>
         && w.lines[j].coord == w.records[j].coord
         && w.lines[j].relationship == w.records[j].relationship
         && w.lines[j].scope == w.records[j].scope
  }

  /** Record `j` either hangs off the walk's `outer` parent at indentation
      `base`, or its parent is an EARLIER record, two columns further out. */
  ghost predicate NestedAt(w: Walk, j: int, outer: Option<Coord>, base: nat)
    requires Aligned(w) && 0 <= j < |w.records|
  {
    || (w.records[j].parent == outer && w.lines[j].indent == base)
    || exists i :: 0 <= i < j && w.records[j].parent == Some(w.records[i].coord) && w.lines[j].indent == w.lines[i].indent + 2
  }

  /** Pre-order shape: every record's parent occurs before it. */
  ghost predicate Nested(w: Walk, outer: Option<Coord>, base: nat)
    requires Aligned(w)
  {
    forall j :: 0 <= j < |w.records| ==> NestedAt(w, j, outer, base)
  }

  /** The record is the record of some package of the resolved map. */
  ghost predicate FromResolved(resolved: Resolved, r: TreeRecord)
  {
    exists k :: k in resolved && resolved[k].coord == r.coord
      && resolved[k].relationship == r.relationship && resolved[k].scope == r.scope
  }

  /** `child` is the record, hung under `r`, of a dependency that the package
      recorded by `r` declares and that the map resolves. */
  ghost predicate DeclaredChild(resolved: Resolved, r: TreeRecord, child: TreeRecord)
  {
    exists k, d :: k in resolved && RecordOf(resolved[k], r.parent) == r && d in resolved[k].dependencies
      && LookupKey(d) in resolved && child == RecordOf(resolved[LookupKey(d)], Some(r.coord))
  }

  /** The record, hung under `parent`, of a dependency among `deps` that the
      map resolves. */
  ghost predicate DeclaredIn(resolved: Resolved, deps: seq<Coord>, parent: Option<Coord>, r: TreeRecord)
  {
    exists d :: d in deps && LookupKey(d) in resolved && r == RecordOf(resolved[LookupKey(d)], parent)
  }

  /** Record `j` is a declared dependency of an EARLIER record, listed two
      columns further in. */
  ghost predicate UnderEarlier(resolved: Resolved, w: Walk, j: int)
    requires Aligned(w) && 0 <= j < |w.records|
  {
    exists i :: 0 <= i < j && w.lines[j].indent == w.lines[i].indent + 2
      && DeclaredChild(resolved, w.records[i], w.records[j])
  }

  /** Every record of `w` is either one of `deps`, at indentation `base`
      under `outer`, or a declared dependency of an earlier record. */
  ghost predicate Derived(resolved: Resolved, w: Walk, deps: seq<Coord>, outer: Option<Coord>, base: nat)
    requires Aligned(w)
  {
    forall j :: 0 <= j < |w.records| ==> DerivedAt(resolved, w, deps, outer, base, j)
  }

  ghost predicate DerivedAt(resolved: Resolved, w: Walk, deps: seq<Coord>, outer: Option<Coord>, base: nat, j: int)
    requires Aligned(w) && 0 <= j < |w.records|
  {
    (w.lines[j].indent == base && DeclaredIn(resolved, deps, outer, w.records[j])) || UnderEarlier(resolved, w, j)
  }

  ghost function Measure(resolved: Resolved, rank: map<string, nat>, key: string): nat
  {
    if key in resolved && key in rank then rank[key] + 1 else 0
  }

  /** Walks the package stored under `key`: its own line and record first,
      then the walks of its declared dependencies in order, each two columns
      further in and with this package as parent. A key missing from the map
      contributes nothing. */
  function BuildTree(resolved: Resolved, ghost rank: map<string, nat>, key: string, indent: nat, parent: Option<Coord>): (w: Walk)
    requires Ranked(resolved, rank)
    ensures Aligned(w)
    ensures key !in resolved <==> w.records == []
    ensures key in resolved ==>
      && w.records[0] == RecordOf(resolved[key], parent)
      && w.lines[0] == LineOf(resolved[key], indent)
    ensures Nested(w, parent, indent)
    ensures forall j :: 0 < j < |w.records| ==> w.records[j].parent.Some?
    ensures forall j :: 0 <= j < |w.records| ==> w.lines[j].indent >= indent
    ensures forall j :: 0 <= j < |w.records| ==> FromResolved(resolved, w.records[j])
    ensures forall j :: 0 < j < |w.records| ==> UnderEarlier(resolved, w, j)
    ensures key in resolved ==> forall d :: d in resolved[key].dependencies && LookupKey(d) in resolved ==>
      RecordOf(resolved[LookupKey(d)], Some(resolved[key].coord)) in w.records
    decreases Measure(resolved, rank, key), 1, 0
  {
    if key !in resolved then Walk([], [])
    else
      var p := resolved[key];
      var kids := BuildChildren(resolved, rank, rank[key] + 1, p.dependencies, indent + 2, p.coord);
      var w := Walk([LineOf(p, indent)] + kids.lines, [RecordOf(p, parent)] + kids.records);
      assert FromResolved(resolved, w.records[0]);
      PrependNested(LineOf(p, indent), RecordOf(p, parent), kids, parent, indent);
      PrependDerived(resolved, key, indent, parent, kids);
      w
  }

  /** The walks of `deps` in order, concatenated; every record hangs off
      `parent` (directly or through an earlier record). */
  function BuildChildren(resolved: Resolved, ghost rank: map<string, nat>, ghost bound: nat,
                         deps: seq<Coord>, indent: nat, parent: Coord): (w: Walk)
    requires Ranked(resolved, rank)
    requires bound > 0
    requires forall d :: d in deps && LookupKey(d) in resolved ==> rank[LookupKey(d)] + 1 < bound
    ensures Aligned(w)
    ensures Nested(w, Some(parent), indent)
    ensures forall j :: 0 <= j < |w.records| ==> w.records[j].parent.Some?
    ensures forall j :: 0 <= j < |w.records| ==> w.lines[j].indent >= indent
    ensures forall j :: 0 <= j < |w.records| ==> FromResolved(resolved, w.records[j])
    ensures Derived(resolved, w, deps, Some(parent), indent)
    ensures forall d :: d in deps && LookupKey(d) in resolved ==> RecordOf(resolved[LookupKey(d)], Some(parent)) in w.records
    decreases bound, 0, |deps|
  {
    if |deps| == 0 then Walk([], [])
    else
      var first := BuildTree(resolved, rank, LookupKey(deps[0]), indent, Some(parent));
      var rest := BuildChildren(resolved, rank, bound, deps[1..], indent, parent);
      ConcatNested(first, rest, Some(parent), indent);
      FirstDerived(resolved, deps, parent, indent, first);
      ConcatDerived(resolved, first, rest, deps, Some(parent), indent);
      assert forall d :: d in deps ==> d == deps[0] || d in deps[1..];
      Walk(first.lines + rest.lines, first.records + rest.records)
  }

  /** The walk of the first declared dependency is derived from the list. */
  lemma FirstDerived(resolved: Resolved, deps: seq<Coord>, parent: Coord, indent: nat, first: Walk)
    requires |deps| > 0 && Aligned(first)
    requires LookupKey(deps[0]) !in resolved <==> first.records == []
    requires LookupKey(deps[0]) in resolved ==>
      && first.records[0] == RecordOf(resolved[LookupKey(deps[0])], Some(parent))
      && first.lines[0] == LineOf(resolved[LookupKey(deps[0])], indent)
    requires forall j :: 0 < j < |first.records| ==> UnderEarlier(resolved, first, j)
    ensures Derived(resolved, first, deps, Some(parent), indent)
  {
    if |first.records| > 0 {
      assert DeclaredIn(resolved, deps, Some(parent), first.records[0]) by {
        assert deps[0] in deps;
      }
    }
  }

  /** Record `j` of `b` keeps its derivation at position `|a| + j` of the
      concatenation. */
  lemma ShiftUnder(resolved: Resolved, a: Walk, b: Walk, j: int)
    requires Aligned(a) && Aligned(b) && 0 <= j < |b.records| && UnderEarlier(resolved, b, j)
    ensures Aligned(Walk(a.lines + b.lines, a.records + b.records))
    ensures UnderEarlier(resolved, Walk(a.lines + b.lines, a.records + b.records), |a.records| + j)
  {
    var w := Walk(a.lines + b.lines, a.records + b.records);
    var n := |a.records|;
    var i :| 0 <= i < j && b.lines[j].indent == b.lines[i].indent + 2 && DeclaredChild(resolved, b.records[i], b.records[j]);
    assert w.records[n + i] == b.records[i] && w.lines[n + i] == b.lines[i];
    assert w.records[n + j] == b.records[j] && w.lines[n + j] == b.lines[j];
  }

  /** Record `j` of `a` keeps its derivation in the concatenation. */
  lemma KeepUnder(resolved: Resolved, a: Walk, b: Walk, j: int)
    requires Aligned(a) && Aligned(b) && 0 <= j < |a.records| && UnderEarlier(resolved, a, j)
    ensures Aligned(Walk(a.lines + b.lines, a.records + b.records))
    ensures UnderEarlier(resolved, Walk(a.lines + b.lines, a.records + b.records), j)
  {
    var w := Walk(a.lines + b.lines, a.records + b.records);
    var i :| 0 <= i < j && a.lines[j].indent == a.lines[i].indent + 2 && DeclaredChild(resolved, a.records[i], a.records[j]);
    assert w.records[i] == a.records[i] && w.lines[i] == a.lines[i];
    assert w.records[j] == a.records[j] && w.lines[j] == a.lines[j];
  }

  /** Concatenating the walk of the first dependency with the walks of the
      rest keeps every record derived from the whole list. */
  lemma ConcatDerived(resolved: Resolved, a: Walk, b: Walk, deps: seq<Coord>, outer: Option<Coord>, base: nat)
    requires |deps| > 0 && Aligned(a) && Aligned(b)
    requires Derived(resolved, a, deps, outer, base) && Derived(resolved, b, deps[1..], outer, base)
    ensures Aligned(Walk(a.lines + b.lines, a.records + b.records))
    ensures Derived(resolved, Walk(a.lines + b.lines, a.records + b.records), deps, outer, base)
  {
    var w := Walk(a.lines + b.lines, a.records + b.records);
    forall j | 0 <= j < |w.records| ensures DerivedAt(resolved, w, deps, outer, base, j) {
      if j < |a.records| {
        assert DerivedAt(resolved, a, deps, outer, base, j);
        KeepDerivedAt(resolved, a, b, deps, outer, base, j);
      } else {
        assert DerivedAt(resolved, b, deps[1..], outer, base, j - |a.records|);
        ShiftDerivedAt(resolved, a, b, deps, outer, base, j - |a.records|);
      }
    }
  }

  lemma KeepDerivedAt(resolved: Resolved, a: Walk, b: Walk, deps: seq<Coord>, outer: Option<Coord>, base: nat, j: int)
    requires Aligned(a) && Aligned(b) && 0 <= j < |a.records| && DerivedAt(resolved, a, deps, outer, base, j)
    ensures Aligned(Walk(a.lines + b.lines, a.records + b.records))
    ensures DerivedAt(resolved, Walk(a.lines + b.lines, a.records + b.records), deps, outer, base, j)
  {
    var w := Walk(a.lines + b.lines, a.records + b.records);
    assert w.records[j] == a.records[j] && w.lines[j] == a.lines[j];
    if UnderEarlier(resolved, a, j) {
      KeepUnder(resolved, a, b, j);
    }
  }

  lemma ShiftDerivedAt(resolved: Resolved, a: Walk, b: Walk, deps: seq<Coord>, outer: Option<Coord>, base: nat, j: int)
    requires |deps| > 0 && Aligned(a) && Aligned(b) && 0 <= j < |b.records|
    requires DerivedAt(resolved, b, deps[1..], outer, base, j)
    ensures Aligned(Walk(a.lines + b.lines, a.records + b.records))
    ensures DerivedAt(resolved, Walk(a.lines + b.lines, a.records + b.records), deps, outer, base, |a.records| + j)
  {
    var w := Walk(a.lines + b.lines, a.records + b.records);
    var n := |a.records|;
    assert w.records[n + j] == b.records[j] && w.lines[n + j] == b.lines[j];
    if UnderEarlier(resolved, b, j) {
      ShiftUnder(resolved, a, b, j);
    } else {
      var d :| d in deps[1..] && LookupKey(d) in resolved && b.records[j] == RecordOf(resolved[LookupKey(d)], outer);
      assert d in deps;
    }
  }

  /** Putting a package's record before the walks of its dependencies makes
      every later record a declared dependency of an earlier one. */
  lemma PrependDerived(resolved: Resolved, key: string, indent: nat, parent: Option<Coord>, kids: Walk)
    requires key in resolved && Aligned(kids)
    requires Derived(resolved, kids, resolved[key].dependencies, Some(resolved[key].coord), indent + 2)
    ensures var p := resolved[key];
      var w := Walk([LineOf(p, indent)] + kids.lines, [RecordOf(p, parent)] + kids.records);
      Aligned(w) && forall j :: 0 < j < |w.records| ==> UnderEarlier(resolved, w, j)
  {
    var p := resolved[key];
    var w := Walk([LineOf(p, indent)] + kids.lines, [RecordOf(p, parent)] + kids.records);
    forall j | 0 < j < |w.records| ensures UnderEarlier(resolved, w, j) {
      assert DerivedAt(resolved, kids, p.dependencies, Some(p.coord), indent + 2, j - 1);
      PrependAt(resolved, key, indent, parent, kids, j - 1);
    }
  }

  lemma PrependAt(resolved: Resolved, key: string, indent: nat, parent: Option<Coord>, kids: Walk, j: int)
    requires key in resolved && Aligned(kids) && 0 <= j < |kids.records|
    requires DerivedAt(resolved, kids, resolved[key].dependencies, Some(resolved[key].coord), indent + 2, j)
    ensures var p := resolved[key];
      var w := Walk([LineOf(p, indent)] + kids.lines, [RecordOf(p, parent)] + kids.records);
      Aligned(w) && UnderEarlier(resolved, w, j + 1)
  {
    var p := resolved[key];
    var head := Walk([LineOf(p, indent)], [RecordOf(p, parent)]);
    var w := Walk(head.lines + kids.lines, head.records + kids.records);
    if UnderEarlier(resolved, kids, j) {
      ShiftUnder(resolved, head, kids, j);
    } else {
      var d :| d in p.dependencies && LookupKey(d) in resolved
        && kids.records[j] == RecordOf(resolved[LookupKey(d)], Some(p.coord));
      assert w.records[0] == RecordOf(p, parent) && w.lines[0] == LineOf(p, indent);
      assert w.records[j + 1] == kids.records[j] && w.lines[j + 1] == kids.lines[j];
      assert DeclaredChild(resolved, w.records[0], w.records[j + 1]);
    }
  }

  /** Putting a root line before a walk that hangs off that root keeps the
      pre-order shape. */
  lemma PrependNested(l: TreeLine, r: TreeRecord, kids: Walk, outer: Option<Coord>, base: nat)
    requires Aligned(kids) && Nested(kids, Some(r.coord), base + 2)
    requires l.coord == r.coord && l.relationship == r.relationship && l.scope == r.scope
    requires r.parent == outer && l.indent == base
    ensures Aligned(Walk([l] + kids.lines, [r] + kids.records))
    ensures Nested(Walk([l] + kids.lines, [r] + kids.records), outer, base)
  {
    var w := Walk([l] + kids.lines, [r] + kids.records);
    forall j | 0 <= j < |w.records|
      ensures NestedAt(w, j, outer, base)
    {
      if j > 0 {
        assert w.records[j] == kids.records[j - 1] && w.lines[j] == kids.lines[j - 1];
        assert NestedAt(kids, j - 1, Some(r.coord), base + 2);
        if kids.records[j - 1].parent == Some(r.coord) && kids.lines[j - 1].indent == base + 2 {
          assert w.records[0] == r;
        } else {
          var i :| 0 <= i < j - 1 && kids.records[j - 1].parent == Some(kids.records[i].coord)
            && kids.lines[j - 1].indent == kids.lines[i].indent + 2;
          assert w.records[i + 1] == kids.records[i] && w.lines[i + 1] == kids.lines[i];
        }
      }
    }
  }

  /** Concatenating two walks that hang off the same parent keeps the
      pre-order shape. */
  lemma ConcatNested(a: Walk, b: Walk, outer: Option<Coord>, base: nat)
    requires Aligned(a) && Aligned(b) && Nested(a, outer, base) && Nested(b, outer, base)
    ensures Aligned(Walk(a.lines + b.lines, a.records + b.records))
    ensures Nested(Walk(a.lines + b.lines, a.records + b.records), outer, base)
  {
    var w := Walk(a.lines + b.lines, a.records + b.records);
    forall j | 0 <= j < |w.records|
      ensures NestedAt(w, j, outer, base)
    {
      if j < |a.records| {
        assert w.records[j] == a.records[j] && w.lines[j] == a.lines[j];
        assert NestedAt(a, j, outer, base);
        if !(a.records[j].parent == outer && a.lines[j].indent == base) {
          var i :| 0 <= i < j && a.records[j].parent == Some(a.records[i].coord)
            && a.lines[j].indent == a.lines[i].indent + 2;
          assert w.records[i] == a.records[i] && w.lines[i] == a.lines[i];
        }
      } else {
        var n := |a.records|;
        assert w.records[j] == b.records[j - n] && w.lines[j] == b.lines[j - n];
        assert NestedAt(b, j - n, outer, base);
        if !(b.records[j - n].parent == outer && b.lines[j - n].indent == base) {
          var i :| 0 <= i < j - n && b.records[j - n].parent == Some(b.records[i].coord)
            && b.lines[j - n].indent == b.lines[i].indent + 2;
          assert w.records[i + n] == b.records[i] && w.lines[i + n] == b.lines[i];
        }
      }
    }
  }

  /** A declared dependency whose key is missing from the map adds neither a
      line nor a record. */
  lemma MissingDependencySkipped(resolved: Resolved, rank: map<string, nat>, bound: nat,
                                 d: Coord, deps: seq<Coord>, indent: nat, parent: Coord)
    requires Ranked(resolved, rank) && bound > 0
    requires forall e :: e in deps && LookupKey(e) in resolved ==> rank[LookupKey(e)] + 1 < bound
    requires LookupKey(d) !in resolved
    ensures BuildChildren(resolved, rank, bound, [d] + deps, indent, parent)
         == BuildChildren(resolved, rank, bound, deps, indent, parent)
  {
    assert ([d] + deps)[1..] == deps;
  }

  // ---------------------------------------------------------------------
  // Completeness and size of the walk

  /** Records `j + 1 .. i` all sit further in than record `j`: they belong
      to the block listed under it. */
  ghost predicate InBlock(w: Walk, j: int, i: int)
    requires Aligned(w) && 0 <= j < i < |w.records|
  {
    forall t :: j < t <= i ==> w.lines[t].indent > w.lines[j].indent
  }

  /** `c` is listed after record `j`, two columns further in, inside the
      block under `j`. */
  ghost predicate ListedUnder(w: Walk, j: int, c: TreeRecord)
    requires Aligned(w) && 0 <= j < |w.records|
  {
    exists i :: j < i < |w.records| && w.records[i] == c
      && w.lines[i].indent == w.lines[j].indent + 2 && InBlock(w, j, i)
  }

  /** Record `j` is the record of the package under `k`, and every resolved
      dependency that package declares is listed under it. */
  ghost predicate CoveredBy(resolved: Resolved, w: Walk, j: int, k: string)
    requires Aligned(w) && 0 <= j < |w.records|
  {
    && k in resolved && RecordOf(resolved[k], w.records[j].parent) == w.records[j]
    && forall d :: d in resolved[k].dependencies && LookupKey(d) in resolved ==>
         ListedUnder(w, j, RecordOf(resolved[LookupKey(d)], Some(w.records[j].coord)))
  }

  /** Every record is followed, inside its own block, by the records of all
      resolved dependencies of its package. */
  ghost predicate Complete(resolved: Resolved, w: Walk)
    requires Aligned(w)
  {
    forall j :: 0 <= j < |w.records| ==> CompleteAt(resolved, w, j)
  }

  ghost predicate CompleteAt(resolved: Resolved, w: Walk, j: int)
    requires Aligned(w) && 0 <= j < |w.records|
  {
    exists k :: CoveredBy(resolved, w, j, k)
  }

  lemma KeepListed(a: Walk, b: Walk, j: int, c: TreeRecord)
    requires Aligned(a) && Aligned(b) && 0 <= j < |a.records| && ListedUnder(a, j, c)
    ensures Aligned(Walk(a.lines + b.lines, a.records + b.records))
    ensures ListedUnder(Walk(a.lines + b.lines, a.records + b.records), j, c)
  {
    var w := Walk(a.lines + b.lines, a.records + b.records);
    var i :| j < i < |a.records| && a.records[i] == c
      && a.lines[i].indent == a.lines[j].indent + 2 && InBlock(a, j, i);
    assert w.records[i] == a.records[i] && w.lines[i] == a.lines[i] && w.lines[j] == a.lines[j];
    forall t | j < t <= i ensures w.lines[t].indent > w.lines[j].indent {
      assert w.lines[t] == a.lines[t];
    }
  }

  lemma ShiftListed(a: Walk, b: Walk, j: int, c: TreeRecord)
    requires Aligned(a) && Aligned(b) && 0 <= j < |b.records| && ListedUnder(b, j, c)
    ensures Aligned(Walk(a.lines + b.lines, a.records + b.records))
    ensures ListedUnder(Walk(a.lines + b.lines, a.records + b.records), |a.records| + j, c)
  {
    var w := Walk(a.lines + b.lines, a.records + b.records);
    var n := |a.records|;
    var i :| j < i < |b.records| && b.records[i] == c
      && b.lines[i].indent == b.lines[j].indent + 2 && InBlock(b, j, i);
    var ind := seq(|w.lines|, t requires 0 <= t < |w.lines| => w.lines[t].indent);
    assert forall t :: n <= t < |w.lines| ==> ind[t] == b.lines[t - n].indent;
    assert w.records[n + i] == b.records[i];
    assert forall t :: n + j < t <= n + i ==> ind[t] > ind[n + j];
  }

  lemma KeepCovered(resolved: Resolved, a: Walk, b: Walk, j: int, k: string)
    requires Aligned(a) && Aligned(b) && 0 <= j < |a.records| && CoveredBy(resolved, a, j, k)
    ensures Aligned(Walk(a.lines + b.lines, a.records + b.records))
    ensures CoveredBy(resolved, Walk(a.lines + b.lines, a.records + b.records), j, k)
  {
    var w := Walk(a.lines + b.lines, a.records + b.records);
    assert w.records[j] == a.records[j];
    forall d | d in resolved[k].dependencies && LookupKey(d) in resolved
      ensures ListedUnder(w, j, RecordOf(resolved[LookupKey(d)], Some(w.records[j].coord)))
    {
      KeepListed(a, b, j, RecordOf(resolved[LookupKey(d)], Some(a.records[j].coord)));
    }
  }

  lemma ShiftCovered(resolved: Resolved, a: Walk, b: Walk, j: int, k: string)
    requires Aligned(a) && Aligned(b) && 0 <= j < |b.records| && CoveredBy(resolved, b, j, k)
    ensures Aligned(Walk(a.lines + b.lines, a.records + b.records))
    ensures CoveredBy(resolved, Walk(a.lines + b.lines, a.records + b.records), |a.records| + j, k)
  {
    var w := Walk(a.lines + b.lines, a.records + b.records);
    var n := |a.records|;
    assert w.records[n + j] == b.records[j];
    forall d | d in resolved[k].dependencies && LookupKey(d) in resolved
      ensures ListedUnder(w, n + j, RecordOf(resolved[LookupKey(d)], Some(w.records[n + j].coord)))
    {
      ShiftListed(a, b, j, RecordOf(resolved[LookupKey(d)], Some(b.records[j].coord)));
    }
  }

  lemma ConcatComplete(resolved: Resolved, a: Walk, b: Walk)
    requires Aligned(a) && Aligned(b) && Complete(resolved, a) && Complete(resolved, b)
    ensures Aligned(Walk(a.lines + b.lines, a.records + b.records))
    ensures Complete(resolved, Walk(a.lines + b.lines, a.records + b.records))
  {
    var w := Walk(a.lines + b.lines, a.records + b.records);
    var n := |a.records|;
    forall j | 0 <= j < |w.records| ensures CompleteAt(resolved, w, j) {
      if j < n {
        assert CompleteAt(resolved, a, j);
        var k :| CoveredBy(resolved, a, j, k);
        KeepCovered(resolved, a, b, j, k);
      } else {
        assert CompleteAt(resolved, b, j - n);
        var k :| CoveredBy(resolved, b, j - n, k);
        ShiftCovered(resolved, a, b, j - n, k);
      }
    }
  }

  /** `c` is listed somewhere in `w` at indentation `indent`. */
  ghost predicate ListedAt(w: Walk, c: TreeRecord, indent: nat)
    requires Aligned(w)
  {
    exists i :: 0 <= i < |w.records| && w.records[i] == c && w.lines[i].indent == indent
  }

  /** Every resolved dependency of `deps` is listed at indentation `indent`
      in the walks of `deps`. */
  lemma {:induction false} ChildrenListed(resolved: Resolved, rank: map<string, nat>, bound: nat,
                                          deps: seq<Coord>, indent: nat, parent: Coord, d: Coord)
    requires Ranked(resolved, rank) && bound > 0
    requires forall e :: e in deps && LookupKey(e) in resolved ==> rank[LookupKey(e)] + 1 < bound
    requires d in deps && LookupKey(d) in resolved
    ensures ListedAt(BuildChildren(resolved, rank, bound, deps, indent, parent), RecordOf(resolved[LookupKey(d)], Some(parent)), indent)
    decreases |deps|
  {
    var w := BuildChildren(resolved, rank, bound, deps, indent, parent);
    var c := RecordOf(resolved[LookupKey(d)], Some(parent));
    var first := BuildTree(resolved, rank, LookupKey(deps[0]), indent, Some(parent));
    var rest := BuildChildren(resolved, rank, bound, deps[1..], indent, parent);
    assert w == Walk(first.lines + rest.lines, first.records + rest.records);
    if d == deps[0] {
      assert |first.records| > 0 && first.records[0] == c && first.lines[0].indent == indent;
      assert w.records[0] == first.records[0] && w.lines[0] == first.lines[0];
    } else {
      assert d in deps[1..];
      ChildrenListed(resolved, rank, bound, deps[1..], indent, parent, d);
      var i :| 0 <= i < |rest.records| && rest.records[i] == c && rest.lines[i].indent == indent;
      assert w.records[|first.records| + i] == rest.records[i] && w.lines[|first.records| + i] == rest.lines[i];
    }
  }

  /** A record listed two columns further in than a head line, in a walk
      whose lines all sit further in than that head, is listed under the
      head once the head is put first. */
  lemma PrependListed(l: TreeLine, r: TreeRecord, kids: Walk, c: TreeRecord)
    requires Aligned(kids) && l.coord == r.coord && l.relationship == r.relationship && l.scope == r.scope
    requires forall t :: 0 <= t < |kids.records| ==> kids.lines[t].indent > l.indent
    requires ListedAt(kids, c, l.indent + 2)
    ensures Aligned(Walk([l] + kids.lines, [r] + kids.records))
    ensures ListedUnder(Walk([l] + kids.lines, [r] + kids.records), 0, c)
  {
    var w := Walk([l] + kids.lines, [r] + kids.records);
    var i :| 0 <= i < |kids.records| && kids.records[i] == c && kids.lines[i].indent == l.indent + 2;
    assert w.records[i + 1] == kids.records[i] && w.lines[i + 1] == kids.lines[i] && w.lines[0] == l;
    forall t | 0 < t <= i + 1 ensures w.lines[t].indent > w.lines[0].indent {
      assert w.lines[t] == kids.lines[t - 1];
    }
  }

  /** The root record of a walk is covered by its own key. */
  lemma RootCovered(resolved: Resolved, rank: map<string, nat>, key: string, indent: nat, parent: Option<Coord>)
    requires Ranked(resolved, rank) && key in resolved
    ensures var w := BuildTree(resolved, rank, key, indent, parent);
      CoveredBy(resolved, w, 0, key)
  {
    var w := BuildTree(resolved, rank, key, indent, parent);
    var p := resolved[key];
    var kids := BuildChildren(resolved, rank, rank[key] + 1, p.dependencies, indent + 2, p.coord);
    assert w == Walk([LineOf(p, indent)] + kids.lines, [RecordOf(p, parent)] + kids.records);
    forall d | d in p.dependencies && LookupKey(d) in resolved
      ensures ListedUnder(w, 0, RecordOf(resolved[LookupKey(d)], Some(w.records[0].coord)))
    {
      ChildrenListed(resolved, rank, rank[key] + 1, p.dependencies, indent + 2, p.coord, d);
      PrependListed(LineOf(p, indent), RecordOf(p, parent), kids, RecordOf(resolved[LookupKey(d)], Some(p.coord)));
    }
  }

  /** Every record of a walk is followed, inside its block, by the records
      of all resolved dependencies of its package: no descendant the map
      resolves is missing. */
  lemma {:induction false} TreeComplete(resolved: Resolved, rank: map<string, nat>, key: string, indent: nat, parent: Option<Coord>)
    requires Ranked(resolved, rank)
    ensures var w := BuildTree(resolved, rank, key, indent, parent);
      Complete(resolved, w)
    decreases Measure(resolved, rank, key), 1, 0
  {
    if key in resolved {
      var w := BuildTree(resolved, rank, key, indent, parent);
      var p := resolved[key];
      var head := Walk([LineOf(p, indent)], [RecordOf(p, parent)]);
      var kids := BuildChildren(resolved, rank, rank[key] + 1, p.dependencies, indent + 2, p.coord);
      assert w == Walk(head.lines + kids.lines, head.records + kids.records);
      ChildrenComplete(resolved, rank, rank[key] + 1, p.dependencies, indent + 2, p.coord);
      forall j | 0 <= j < |w.records| ensures CompleteAt(resolved, w, j) {
        if j == 0 {
          RootCovered(resolved, rank, key, indent, parent);
        } else {
          assert CompleteAt(resolved, kids, j - 1);
          var k :| CoveredBy(resolved, kids, j - 1, k);
          ShiftCovered(resolved, head, kids, j - 1, k);
        }
      }
    }
  }

  lemma {:induction false} ChildrenComplete(resolved: Resolved, rank: map<string, nat>, bound: nat,
                                            deps: seq<Coord>, indent: nat, parent: Coord)
    requires Ranked(resolved, rank) && bound > 0
    requires forall d :: d in deps && LookupKey(d) in resolved ==> rank[LookupKey(d)] + 1 < bound
    ensures Complete(resolved, BuildChildren(resolved, rank, bound, deps, indent, parent))
    decreases bound, 0, |deps|
  {
    if |deps| > 0 {
      TreeComplete(resolved, rank, LookupKey(deps[0]), indent, Some(parent));
      ChildrenComplete(resolved, rank, bound, deps[1..], indent, parent);
      ConcatComplete(resolved, BuildTree(resolved, rank, LookupKey(deps[0]), indent, Some(parent)),
                     BuildChildren(resolved, rank, bound, deps[1..], indent, parent));
    }
  }

  /** The number of dependency paths that start at `key` and run through
      packages of the map: one for the package itself, plus the paths of
      each declared dependency, counted once per declaration. */
  ghost function Paths(resolved: Resolved, rank: map<string, nat>, key: string): nat
    requires Ranked(resolved, rank)
    decreases Measure(resolved, rank, key), 1, 0
  {
    if key !in resolved then 0
    else 1 + PathsAll(resolved, rank, rank[key] + 1, resolved[key].dependencies)
  }

  ghost function PathsAll(resolved: Resolved, rank: map<string, nat>, bound: nat, deps: seq<Coord>): nat
    requires Ranked(resolved, rank) && bound > 0
    requires forall d :: d in deps && LookupKey(d) in resolved ==> rank[LookupKey(d)] + 1 < bound
    decreases bound, 0, |deps|
  {
    if |deps| == 0 then 0
    else Paths(resolved, rank, LookupKey(deps[0])) + PathsAll(resolved, rank, bound, deps[1..])
  }

  /** The walk lists one record per dependency path: nothing is listed
      twice unless it is reached along two paths. */
  lemma {:induction false} TreeSize(resolved: Resolved, rank: map<string, nat>, key: string, indent: nat, parent: Option<Coord>)
    requires Ranked(resolved, rank)
    ensures |BuildTree(resolved, rank, key, indent, parent).records| == Paths(resolved, rank, key)
    decreases Measure(resolved, rank, key), 1, 0
  {
    if key in resolved {
      ChildrenSize(resolved, rank, rank[key] + 1, resolved[key].dependencies, indent + 2, resolved[key].coord);
    }
  }

  lemma {:induction false} ChildrenSize(resolved: Resolved, rank: map<string, nat>, bound: nat,
                                        deps: seq<Coord>, indent: nat, parent: Coord)
    requires Ranked(resolved, rank) && bound > 0
    requires forall d :: d in deps && LookupKey(d) in resolved ==> rank[LookupKey(d)] + 1 < bound
    ensures |BuildChildren(resolved, rank, bound, deps, indent, parent).records| == PathsAll(resolved, rank, bound, deps)
    decreases bound, 0, |deps|
  {
    if |deps| > 0 {
      TreeSize(resolved, rank, LookupKey(deps[0]), indent, Some(parent));
      ChildrenSize(resolved, rank, bound, deps[1..], indent, parent);
    }
  }

  /** Every record without a parent is a direct package at indentation 0. */
  ghost predicate RootsDirect(w: Walk)
    requires Aligned(w)
  {
    forall j :: 0 <= j < |w.records| && w.records[j].parent.None? ==>
      w.records[j].relationship == Direct && w.lines[j].indent == 0
  }

  /** Every record is the record of a package of the map. */
  ghost predicate Sourced(resolved: Resolved, w: Walk)
  {
    forall j :: 0 <= j < |w.records| ==> FromResolved(resolved, w.records[j])
  }

  /** The walk of a direct package from indentation 0 has only its own
      record without a parent. */
  lemma DirectWalkRoots(resolved: Resolved, rank: map<string, nat>, k: string)
    requires Ranked(resolved, rank) && k in resolved && resolved[k].relationship == Direct
    ensures var w := BuildTree(resolved, rank, k, 0, None);
      RootsDirect(w) && Sourced(resolved, w) && RecordOf(resolved[k], None) in w.records
  {
    var w := BuildTree(resolved, rank, k, 0, None);
    assert w.records[0] == RecordOf(resolved[k], None);
  }

  /** Concatenation keeps both properties and every record of both walks. */
  lemma ConcatRoots(resolved: Resolved, a: Walk, b: Walk)
    requires Aligned(a) && Aligned(b) && RootsDirect(a) && RootsDirect(b)
    requires Sourced(resolved, a) && Sourced(resolved, b)
    ensures var w := Walk(a.lines + b.lines, a.records + b.records);
      && Aligned(w) && RootsDirect(w) && Sourced(resolved, w)
      && (forall r :: r in a.records || r in b.records ==> r in w.records)
  {
    var w := Walk(a.lines + b.lines, a.records + b.records);
    var n := |a.records|;
    forall j | 0 <= j < |w.records|
      ensures w.records[j] == (if j < n then a.records[j] else b.records[j - n])
      ensures w.lines[j] == (if j < n then a.lines[j] else b.lines[j - n])
    {
    }
  }

  /** Every record with a parent is a declared dependency of an earlier
      record. */
  ghost predicate ParentsDeclared(resolved: Resolved, w: Walk)
    requires Aligned(w)
  {
    forall j :: 0 <= j < |w.records| ==> w.records[j].parent.None? || UnderEarlier(resolved, w, j)
  }

  lemma ConcatParentsDeclared(resolved: Resolved, a: Walk, b: Walk)
    requires Aligned(a) && Aligned(b) && ParentsDeclared(resolved, a) && ParentsDeclared(resolved, b)
    ensures Aligned(Walk(a.lines + b.lines, a.records + b.records))
    ensures ParentsDeclared(resolved, Walk(a.lines + b.lines, a.records + b.records))
  {
    var w := Walk(a.lines + b.lines, a.records + b.records);
    var n := |a.records|;
    forall j | 0 <= j < |w.records| ensures w.records[j].parent.None? || UnderEarlier(resolved, w, j) {
      if j < n {
        assert w.records[j] == a.records[j];
        if a.records[j].parent.Some? {
          KeepUnder(resolved, a, b, j);
        }
      } else {
        assert w.records[j] == b.records[j - n];
        if b.records[j - n].parent.Some? {
          ShiftUnder(resolved, a, b, j - n);
        }
      }
    }
  }

  /** The records without a parent, in the order they are listed. */
  function Roots(rs: seq<TreeRecord>): (roots: seq<TreeRecord>)
    ensures forall r :: r in roots ==> r in rs && r.parent.None?
  {
    if |rs| == 0 then []
    else (if rs[0].parent.None? then [rs[0]] else []) + Roots(rs[1..])
  }

  lemma {:induction false} RootsConcat(a: seq<TreeRecord>, b: seq<TreeRecord>)
    ensures Roots(a + b) == Roots(a) + Roots(b)
  {
    if |a| > 0 {
      assert (a + b)[1..] == a[1..] + b;
      RootsConcat(a[1..], b);
    } else {
      assert a + b == b;
    }
  }

  lemma {:induction false} NoRoots(rs: seq<TreeRecord>)
    requires forall j :: 0 <= j < |rs| ==> rs[j].parent.Some?
    ensures Roots(rs) == []
  {
    if |rs| > 0 {
      NoRoots(rs[1..]);
    }
  }

  /** The root records of the direct packages among `order`, in order. */
  ghost function DirectRoots(resolved: Resolved, order: seq<string>): seq<TreeRecord>
    requires forall k :: k in order ==> k in resolved
  {
    if |order| == 0 then []
    else
      (if resolved[order[0]].relationship == Direct then [RecordOf(resolved[order[0]], None)] else [])
        + DirectRoots(resolved, order[1..])
  }

  /** The number of records the walks of the direct packages among `order`
      list together. */
  ghost function ForestPaths(resolved: Resolved, rank: map<string, nat>, order: seq<string>): nat
    requires Ranked(resolved, rank)
    requires forall k :: k in order ==> k in resolved
  {
    if |order| == 0 then 0
    else
      (if resolved[order[0]].relationship == Direct then Paths(resolved, rank, order[0]) else 0)
        + ForestPaths(resolved, rank, order[1..])
  }

  /** The forest lists the walks of the direct packages in iteration order:
      its parentless records are exactly their root records, in that order.
      Every record is followed by all its resolved dependencies, and the
      forest holds one record per dependency path from a direct package. */
  lemma {:induction false} ForestShape(resolved: Resolved, rank: map<string, nat>, order: seq<string>)
    requires Ranked(resolved, rank)
    requires forall k :: k in order ==> k in resolved
    ensures var w := BuildForest(resolved, rank, order);
      && Roots(w.records) == DirectRoots(resolved, order)
      && Complete(resolved, w)
      && |w.records| == ForestPaths(resolved, rank, order)
  {
    if |order| > 0 {
      var k := order[0];
      assert forall k' :: k' in order[1..] ==> k' in order;
      ForestShape(resolved, rank, order[1..]);
      if resolved[k].relationship == Direct {
        var first := BuildTree(resolved, rank, k, 0, None);
        var rest := BuildForest(resolved, rank, order[1..]);
        assert first.records[0] == RecordOf(resolved[k], None);
        NoRoots(first.records[1..]);
        assert first.records == [first.records[0]] + first.records[1..];
        RootsConcat([first.records[0]], first.records[1..]);
        RootsConcat(first.records, rest.records);
        TreeComplete(resolved, rank, k, 0, None);
        ConcatComplete(resolved, first, rest);
        TreeSize(resolved, rank, k, 0, None);
      }
    }
  }

  /** The walks of every direct package of the map, visited in the map's
      iteration order `order`, concatenated. */
  function BuildForest(resolved: Resolved, ghost rank: map<string, nat>, order: seq<string>): (w: Walk)
    requires Ranked(resolved, rank)
    requires forall k :: k in order ==> k in resolved
    ensures Aligned(w)
    ensures Nested(w, None, 0)
    ensures RootsDirect(w)
    ensures forall k :: k in order && resolved[k].relationship == Direct ==>
      RecordOf(resolved[k], None) in w.records
    ensures Sourced(resolved, w)
    ensures ParentsDeclared(resolved, w)
  {
    if |order| == 0 then Walk([], [])
    else
      var rest := BuildForest(resolved, rank, order[1..]);
      var k := order[0];
      assert forall k' :: k' in order ==> k' == k || k' in order[1..];
      if resolved[k].relationship == Direct then
        var first := BuildTree(resolved, rank, k, 0, None);
        ConcatNested(first, rest, None, 0);
        DirectWalkRoots(resolved, rank, k);
        ConcatRoots(resolved, first, rest);
        ConcatParentsDeclared(resolved, first, rest);
        Walk(first.lines + rest.lines, first.records + rest.records)
      else
        rest
  }
}
