/** The pure part of the remediation planner: for every direct record, the
    alerted entries (itself at depth 0, its alerted descendants, and the
    record itself to keep the path to the root), sorted deepest first and
    grouped by depth, followed by a registry look-up per non-root entry whose
    result is only reported. */
module Plan {
  import opened Types
  import opened Alerts
  import opened Closure
  import Maven
  import opened Sorting

  /** One entry of a remediation list: a record and its depth (None = the
      record carries no depth). */
  datatype Item = Item(node: Annotated, depth: Option<int>)

  /** A run either produces a value or stops on a JavaScript TypeError
      raised while handling `culprit`. */
  datatype Outcome<T> = Ok(value: T) | TypeError(culprit: Annotated)

  function NameOf(x: Item): string
  {
    x.node.rec.coord.name
  }

  predicate HasName(items: seq<Item>, name: string)
  {
    exists i :: 0 <= i < |items| && NameOf(items[i]) == name
  }

  function NameOfRecord(pkg: Linked): string
  {
    pkg.node.rec.coord.name
  }

  /** The depth-0 copy of the direct record, present when it has alerts. */
  function OwnItems(pkg: Linked): seq<Item>
  {
    if |pkg.node.alerts| > 0 then [Item(pkg.node, Some(0))] else []
  }

  /** The alerted entries of a child list, in order, with their depths. */
  function AlertedChildren(kids: seq<Entry>): seq<Item>
  {
    if |kids| == 0 then []
    else (if |kids[0].node.alerts| > 0 then [Item(kids[0].node, Some(kids[0].depth))] else []) + AlertedChildren(kids[1..])
  }

  /** An item is an alerted child entry exactly when some entry with alerts
      gives it, at that entry's depth. */
  lemma {:induction false} AlertedChildrenMembers(kids: seq<Entry>)
    ensures forall x :: x in AlertedChildren(kids) <==>
      exists e :: e in kids && |e.node.alerts| > 0 && x == Item(e.node, Some(e.depth))
  {
    if |kids| > 0 {
      AlertedChildrenMembers(kids[1..]);
      assert forall e :: e in kids <==> e == kids[0] || e in kids[1..];
    }
  }

  /** The gathering loop over the remaining children: every alerted child is
      appended, and after it `bare` unless some entry already carries the
      direct record's name. */
  function Gather(pkg: Linked, kids: seq<Entry>, acc: seq<Item>, bare: Item): seq<Item>
  {
    if |kids| == 0 then acc
    else if |kids[0].node.alerts| > 0 then
      var acc1 := acc + [Item(kids[0].node, Some(kids[0].depth))];
      Gather(pkg, kids[1..], if HasName(acc1, NameOfRecord(pkg)) then acc1 else acc1 + [bare], bare)
    else Gather(pkg, kids[1..], acc, bare)
  }

  lemma {:induction false} GatherNamed(pkg: Linked, kids: seq<Entry>, acc: seq<Item>, bare: Item)
    requires HasName(acc, NameOfRecord(pkg))
    ensures Gather(pkg, kids, acc, bare) == acc + AlertedChildren(kids)
  {
    if |kids| > 0 {
      if |kids[0].node.alerts| > 0 {
        var acc1 := acc + [Item(kids[0].node, Some(kids[0].depth))];
        var i :| 0 <= i < |acc| && NameOf(acc[i]) == NameOfRecord(pkg);
        assert acc1[i] == acc[i];
        GatherNamed(pkg, kids[1..], acc1, bare);
        assert acc1 + AlertedChildren(kids[1..]) == acc + AlertedChildren(kids);
      } else {
        GatherNamed(pkg, kids[1..], acc, bare);
        assert AlertedChildren(kids) == [] + AlertedChildren(kids[1..]);
      }
    } else {
      assert acc + [] == acc;
    }
  }

  /** One step of the gathering loop on an alerted child when nothing has
      been collected yet. */
  lemma GatherFirst(pkg: Linked, kids: seq<Entry>, bare: Item)
    requires |kids| > 0 && |kids[0].node.alerts| > 0
    ensures var c := Item(kids[0].node, Some(kids[0].depth));
      Gather(pkg, kids, [], bare) ==
        Gather(pkg, kids[1..], if NameOf(c) == NameOfRecord(pkg) then [c] else [c, bare], bare)
  {
    var c := Item(kids[0].node, Some(kids[0].depth));
    assert [] + [c] == [c];
    assert [c] + [bare] == [c, bare];
    assert HasName([c], NameOfRecord(pkg)) <==> NameOf(c) == NameOfRecord(pkg) by {
      if HasName([c], NameOfRecord(pkg)) {
        var i :| 0 <= i < 1 && NameOf([c][i]) == NameOfRecord(pkg);
      }
      if NameOf(c) == NameOfRecord(pkg) {
        assert NameOf([c][0]) == NameOfRecord(pkg);
      }
    }
  }

  lemma {:induction false} GatherFromEmpty(pkg: Linked, kids: seq<Entry>, bare: Item)
    requires NameOf(bare) == NameOfRecord(pkg)
    ensures var al := AlertedChildren(kids);
      Gather(pkg, kids, [], bare) ==
        if |al| == 0 then []
        else if NameOf(al[0]) == NameOfRecord(pkg) then al
        else [al[0], bare] + al[1..]
  {
    if |kids| > 0 {
      if |kids[0].node.alerts| > 0 {
        var c := Item(kids[0].node, Some(kids[0].depth));
        var tail := AlertedChildren(kids[1..]);
        assert AlertedChildren(kids) == [c] + tail;
        GatherFirst(pkg, kids, bare);
        if NameOf(c) == NameOfRecord(pkg) {
          assert HasName([c], NameOfRecord(pkg)) by { assert NameOf([c][0]) == NameOfRecord(pkg); }
          GatherNamed(pkg, kids[1..], [c], bare);
        } else {
          assert HasName([c, bare], NameOfRecord(pkg)) by { assert NameOf([c, bare][1]) == NameOfRecord(pkg); }
          GatherNamed(pkg, kids[1..], [c, bare], bare);
          assert ([c] + tail)[1..] == tail;
        }
      } else {
        GatherFromEmpty(pkg, kids[1..], bare);
        assert AlertedChildren(kids) == [] + AlertedChildren(kids[1..]);
      }
    }
  }

  /** The entries collected for a direct record: its depth-0 copy when it has
      alerts, then its alerted children in order; with no own alerts, `bare`
      follows the first alerted child unless that child has the record's
      name. */
  function Collect(pkg: Linked, kids: seq<Entry>, bare: Item): seq<Item>
  {
    Gather(pkg, kids, OwnItems(pkg), bare)
  }

  /** The collected list in closed form: the record's depth-0 copy when it
      has alerts, then its alerted children in order; with no own alerts,
      `bare` follows the first alerted child unless that child has the
      record's name. */
  lemma CollectShape(pkg: Linked, kids: seq<Entry>, bare: Item)
    requires NameOf(bare) == NameOfRecord(pkg)
    ensures var own := OwnItems(pkg);
      var al := AlertedChildren(kids);
      Collect(pkg, kids, bare) ==
        if |own| > 0 then own + al
        else if |al| == 0 then []
        else if NameOf(al[0]) == NameOfRecord(pkg) then al
        else [al[0], bare] + al[1..]
  {
    var own := OwnItems(pkg);
    if |own| > 0 {
      assert HasName(own, NameOfRecord(pkg)) by { assert NameOf(own[0]) == NameOfRecord(pkg); }
      GatherNamed(pkg, kids, own, bare);
    } else {
      GatherFromEmpty(pkg, kids, bare);
    }
  }

  // ---------------------------------------------------------------------
  // Ordering by depth

  /** The sort key of an entry: its depth (every entry the corrected planner
      builds has one). */
  function Depth(x: Item): int
  {
    match x.depth
    case Some(d) => d
    case None => 0
  }

  // ---------------------------------------------------------------------
  // Registry look-ups (reported only)

  /** What was learned about a non-root entry: the entry, its parent, and the
      parent's matching declared dependency (None = the parent's descriptor
      could not be read, so the look-up was skipped). */
  datatype Lookup = Lookup(child: Annotated, parent: Coord, declared: Option<Option<Maven.Dependency>>)

  predicate Matches(d: Maven.Dependency, groupId: string, artifactId: string)
  {
    d.groupId == groupId && d.artifactId == artifactId
  }

  /** Dependency `i` matches, and no earlier one does. */
  predicate FirstMatchAt(deps: seq<Maven.Dependency>, i: int, groupId: string, artifactId: string)
    requires 0 <= i < |deps|
  {
    Matches(deps[i], groupId, artifactId) && forall j :: 0 <= j < i ==> !Matches(deps[j], groupId, artifactId)
  }

  /** The first declared dependency with the entry's namespace and name. */
  function FindDependency(deps: seq<Maven.Dependency>, groupId: string, artifactId: string): (r: Option<Maven.Dependency>)
    ensures r.Some? ==> exists i :: 0 <= i < |deps| && deps[i] == r.value && FirstMatchAt(deps, i, groupId, artifactId)
    ensures r.None? ==> forall d :: d in deps ==> !Matches(d, groupId, artifactId)
  {
    if |deps| == 0 then None
    else if Matches(deps[0], groupId, artifactId) then Some(deps[0])
    else
      assert forall d :: d in deps ==> d == deps[0] || d in deps[1..];
      var r := FindDependency(deps[1..], groupId, artifactId);
      assert r.Some? ==> exists i :: 0 <= i < |deps| && deps[i] == r.value && FirstMatchAt(deps, i, groupId, artifactId) by {
        if r.Some? {
          var i :| 0 <= i < |deps[1..]| && deps[1..][i] == r.value && FirstMatchAt(deps[1..], i, groupId, artifactId);
          assert deps[i + 1] == deps[1..][i];
          forall j | 0 <= j < i + 1 ensures !Matches(deps[j], groupId, artifactId) {
            if j > 0 { assert deps[j] == deps[1..][j - 1]; }
          }
          assert FirstMatchAt(deps, i + 1, groupId, artifactId);
        }
      }
      r
  }

  /** Whether handling `x` reads the namespace of a missing parent: an entry
      that is not at depth 0 and whose record has no parent. */
  predicate Dangling(x: Item)
  {
    x.depth != Some(0) && x.node.rec.parent.None?
  }

  /** Handles the entries in processing order: an entry at depth 0 is
      skipped, any other one looks up its parent's declared dependencies,
      and the first entry without a parent raises a TypeError. */
  function ProcessItems(items: seq<Item>, registry: Maven.Registry, ghost rank: map<Maven.PomCoord, nat>): (r: Outcome<seq<Lookup>>)
    requires Maven.Ranked(registry, rank)
    ensures r.TypeError? <==> exists i :: 0 <= i < |items| && Dangling(items[i])
  {
    if |items| == 0 then Ok([])
    else
      var x := items[0];
      var rest := ProcessItems(items[1..], registry, rank);
      assert forall i :: 1 <= i < |items| ==> items[i] == items[1..][i - 1];
      if x.depth == Some(0) then rest
      else
        match x.node.rec.parent
        case None => TypeError(x.node)
        case Some(p) =>
          var found := match Maven.DependenciesOf(registry, rank, p.namespace, p.name, p.version)
            case None => None
            case Some(ds) => Some(FindDependency(ds, x.node.rec.coord.namespace, x.node.rec.coord.name));
          match rest
          case Ok(ls) => Ok([Lookup(x.node, p, found)] + ls)
          case TypeError(c) => TypeError(c)
  }

  // ---------------------------------------------------------------------
  // The planner

  /** The list kept for one direct record, and what the look-ups found. */
  datatype Planned = Planned(entries: seq<Item>, lookups: seq<Lookup>)

  /** The whole result: one list per direct record that has alerted
      entries, in tree order, with the look-ups of all of them. */
  datatype Report = Report(plan: seq<seq<Item>>, lookups: seq<Lookup>)

  /** The entry pushed to keep the path to the root. The code pushes the
      record as it is, whose depth is undefined for a root record; the
      corrected entry is the record at depth 0, like the copy pushed for its
      own alerts. */
  function BareAsWritten(pkg: Linked): Item
  {
    Item(pkg.node, pkg.depth)
  }

  function Bare(pkg: Linked): Item
  {
    Item(pkg.node, Some(0))
  }

  /** The run for one record, with `bare` the entry pushed to keep the path
      to the root:
      nothing for an indirect record or an empty list; a TypeError when the
      record has no children list or an entry's parent is missing; else the
      list sorted deepest first, processed group by group. */
  function PlanWith(pkg: Linked, bare: Item, registry: Maven.Registry, ghost rank: map<Maven.PomCoord, nat>): (r: Outcome<Option<Planned>>)
    requires Maven.Ranked(registry, rank)
    requires NameOf(bare) == NameOfRecord(pkg)
    ensures pkg.node.rec.relationship != Direct ==> r == Ok(None)
    ensures pkg.node.rec.relationship == Direct && pkg.children.None? ==> r == TypeError(pkg.node)
    ensures r.Ok? && r.value.Some? ==>
      && pkg.node.rec.relationship == Direct && pkg.children.Some?
      && var items := Collect(pkg, pkg.children.value, bare);
      && |items| > 0
      && r.value.value.entries == SortDescending(items, Depth)
      && multiset(r.value.value.entries) == multiset(items)
      && Descending(r.value.value.entries, Depth)
    ensures r.Ok? && r.value.None? ==>
      pkg.node.rec.relationship != Direct || (pkg.children.Some? && Collect(pkg, pkg.children.value, bare) == [])
  {
    if pkg.node.rec.relationship != Direct then Ok(None)
    else
      match pkg.children
      case None => TypeError(pkg.node)
      case Some(kids) =>
        var items := Collect(pkg, kids, bare);
        if |items| == 0 then Ok(None)
        else
          var sorted := SortDescending(items, Depth);
          var groups := GroupRuns(sorted, Depth);
          match ProcessItems(Flatten(groups), registry, rank)
          case TypeError(c) => TypeError(c)
          case Ok(ls) => Ok(Some(Planned(sorted, ls)))
  }

  /** A record's run fails exactly when it is direct and has no children
      list, or when its collected list holds an entry without a parent that
      is not at depth 0; the order the entries are taken in does not
      matter. */
  lemma PlanWithFailure(pkg: Linked, bare: Item, registry: Maven.Registry, rank: map<Maven.PomCoord, nat>)
    requires Maven.Ranked(registry, rank)
    requires NameOf(bare) == NameOfRecord(pkg)
    ensures PlanWith(pkg, bare, registry, rank).TypeError? <==>
      pkg.node.rec.relationship == Direct &&
      (pkg.children.None? || !NoneDangling(Collect(pkg, pkg.children.value, bare)))
  {
    if pkg.node.rec.relationship == Direct && pkg.children.Some? {
      var items := Collect(pkg, pkg.children.value, bare);
      if |items| > 0 {
        var sorted := SortDescending(items, Depth);
        var flat := Flatten(GroupRuns(sorted, Depth));
        assert flat == sorted;
        DanglingPermutation(items, sorted);
        var p := ProcessItems(flat, registry, rank);
        assert p.TypeError? <==> !NoneDangling(flat);
        assert PlanWith(pkg, bare, registry, rank).TypeError? <==> p.TypeError?;
      }
    }
  }

  /** The entry a run pushes to keep the path to the root. */
  function BareFor(pkg: Linked, asWritten: bool): Item
  {
    if asWritten then BareAsWritten(pkg) else Bare(pkg)
  }

  /** Whether the run for one record raises a TypeError. */
  ghost predicate FailsAt(tree: seq<Linked>, asWritten: bool, registry: Maven.Registry, rank: map<Maven.PomCoord, nat>, i: int)
    requires Maven.Ranked(registry, rank) && 0 <= i < |tree|
  {
    PlanWith(tree[i], BareFor(tree[i], asWritten), registry, rank).TypeError?
  }

  /** The planner over the records in order; the first TypeError ends the
      run. */
  function PlanAll(tree: seq<Linked>, asWritten: bool, registry: Maven.Registry, ghost rank: map<Maven.PomCoord, nat>): (r: Outcome<Report>)
    requires Maven.Ranked(registry, rank)
    ensures r.Ok? ==> |r.value.plan| <= |tree|
  {
    if |tree| == 0 then Ok(Report([], []))
    else
      var pkg := tree[0];
      match PlanWith(pkg, BareFor(pkg, asWritten), registry, rank)
      case TypeError(c) => TypeError(c)
      case Ok(step) =>
        match PlanAll(tree[1..], asWritten, registry, rank)
        case TypeError(c) => TypeError(c)
        case Ok(rest) =>
          match step
          case None => Ok(rest)
          case Some(p) => Ok(Report([p.entries] + rest.plan, p.lookups + rest.lookups))
  }

  lemma ShiftFails(tree: seq<Linked>, asWritten: bool, registry: Maven.Registry, rank: map<Maven.PomCoord, nat>, i: int)
    requires Maven.Ranked(registry, rank) && 1 <= i < |tree|
    ensures FailsAt(tree, asWritten, registry, rank, i) == FailsAt(tree[1..], asWritten, registry, rank, i - 1)
  {
    assert tree[i] == tree[1..][i - 1];
  }

  /** The whole run fails exactly when the run for some record fails. */
  lemma {:induction false} PlanAllFails(tree: seq<Linked>, asWritten: bool, registry: Maven.Registry, rank: map<Maven.PomCoord, nat>)
    requires Maven.Ranked(registry, rank)
    ensures PlanAll(tree, asWritten, registry, rank).TypeError? <==>
      exists i :: 0 <= i < |tree| && FailsAt(tree, asWritten, registry, rank, i)
  {
    if |tree| > 0 {
      var tail := tree[1..];
      PlanAllFails(tail, asWritten, registry, rank);
      assert PlanAll(tree, asWritten, registry, rank).TypeError? <==>
        FailsAt(tree, asWritten, registry, rank, 0) || PlanAll(tail, asWritten, registry, rank).TypeError?;
      if exists i :: 0 <= i < |tail| && FailsAt(tail, asWritten, registry, rank, i) {
        var i :| 0 <= i < |tail| && FailsAt(tail, asWritten, registry, rank, i);
        ShiftFails(tree, asWritten, registry, rank, i + 1);
      }
      if exists i :: 0 <= i < |tree| && FailsAt(tree, asWritten, registry, rank, i) {
        var i :| 0 <= i < |tree| && FailsAt(tree, asWritten, registry, rank, i);
        if i > 0 {
          ShiftFails(tree, asWritten, registry, rank, i);
        }
      }
    }
  }

  /** The list a record contributes, defined without the registry: nothing
      for an indirect record, a record without a children list or an empty
      collection; otherwise its collected entries, deepest first. */
  ghost function KeptFor(pkg: Linked, asWritten: bool): seq<seq<Item>>
  {
    if pkg.node.rec.relationship == Direct && pkg.children.Some?
       && |Collect(pkg, pkg.children.value, BareFor(pkg, asWritten))| > 0
    then [SortDescending(Collect(pkg, pkg.children.value, BareFor(pkg, asWritten)), Depth)]
    else []
  }

  ghost function Kept(tree: seq<Linked>, asWritten: bool): seq<seq<Item>>
  {
    if |tree| == 0 then [] else KeptFor(tree[0], asWritten) + Kept(tree[1..], asWritten)
  }

  /** A completed run keeps one list per direct record with a non-empty
      collection, in tree order, each its collected entries deepest first. */
  lemma {:induction false} PlanAllKeeps(tree: seq<Linked>, asWritten: bool, registry: Maven.Registry, rank: map<Maven.PomCoord, nat>)
    requires Maven.Ranked(registry, rank)
    ensures PlanAll(tree, asWritten, registry, rank).Ok? ==> PlanAll(tree, asWritten, registry, rank).value.plan == Kept(tree, asWritten)
  {
    if |tree| > 0 && PlanAll(tree, asWritten, registry, rank).Ok? {
      PlanAllKeeps(tree[1..], asWritten, registry, rank);
    }
  }

  /** The planner with the root-path entry pushed at depth 0 (see Findings
      in README.md): on well-linked records it always completes, and then
      keeps exactly the lists of the reference definition. */
  function IdentifyUpdatePlan(tree: seq<Linked>, registry: Maven.Registry, ghost rank: map<Maven.PomCoord, nat>): (r: Outcome<Report>)
    requires Maven.Ranked(registry, rank)
    ensures WellLinked(tree) ==> r.Ok?
    ensures r.Ok? ==> r.value.plan == Kept(tree, false)
  {
    CorrectedNeverCrashes(tree, registry, rank);
    PlanAllKeeps(tree, false, registry, rank);
    PlanAll(tree, false, registry, rank)
  }

  /** The planner as written: it fails exactly when the run of some record
      fails, and a completed run keeps the lists of the reference
      definition for the as-written collection. */
  function IdentifyUpdatePlanAsWritten(tree: seq<Linked>, registry: Maven.Registry, ghost rank: map<Maven.PomCoord, nat>): (r: Outcome<Report>)
    requires Maven.Ranked(registry, rank)
    ensures r.TypeError? <==> exists i :: 0 <= i < |tree| && FailsAt(tree, true, registry, rank, i)
    ensures r.Ok? ==> r.value.plan == Kept(tree, true)
  {
    PlanAllFails(tree, true, registry, rank);
    PlanAllKeeps(tree, true, registry, rank);
    PlanAll(tree, true, registry, rank)
  }

  // ---------------------------------------------------------------------
  // Properties of the planner

  /** An entry of a collected list is the direct record (at depth 0 or as
      `bare`) or an alerted child entry. */
  lemma CollectMembers(pkg: Linked, kids: seq<Entry>, bare: Item, x: Item)
    requires NameOf(bare) == NameOfRecord(pkg)
    requires x in Collect(pkg, kids, bare)
    ensures x == bare || x == Item(pkg.node, Some(0)) || x in AlertedChildren(kids)
  {
    CollectShape(pkg, kids, bare);
    var al := AlertedChildren(kids);
    if |al| > 0 {
      assert forall y :: y in al[1..] ==> y in al;
    }
  }

  /** Every alerted child entry is collected. */
  lemma CollectComplete(pkg: Linked, kids: seq<Entry>, e: Entry)
    requires e in kids && |e.node.alerts| > 0
    ensures Item(e.node, Some(e.depth)) in Collect(pkg, kids, Bare(pkg))
  {
    CollectShape(pkg, kids, Bare(pkg));
    AlertedChildrenMembers(kids);
    var al := AlertedChildren(kids);
    var x := Item(e.node, Some(e.depth));
    assert x in al;
    var i :| 0 <= i < |al| && al[i] == x;
    if |OwnItems(pkg)| == 0 && NameOf(al[0]) != NameOfRecord(pkg) && i > 0 {
      assert ([al[0], Bare(pkg)] + al[1..])[i + 1] == x;
    }
  }

  predicate NoneDangling(items: seq<Item>)
  {
    forall i :: 0 <= i < |items| ==> !Dangling(items[i])
  }

  /** Whether an entry dangles does not depend on where it is processed. */
  lemma DanglingPermutation(a: seq<Item>, b: seq<Item>)
    requires multiset(a) == multiset(b)
    ensures NoneDangling(a) <==> NoneDangling(b)
  {
    forall i | 0 <= i < |a| ensures a[i] in multiset(b) {
      assert a[i] in multiset(a);
    }
    forall i | 0 <= i < |b| ensures b[i] in multiset(a) {
      assert b[i] in multiset(b);
    }
  }

  /** The records a corrected run can rely on: a direct record has a
      children list, and every child entry is a non-root record at depth 1
      or more. The records returned by the closure engine have the second
      property, and every root record among them has a list. */
  predicate WellLinked(tree: seq<Linked>)
  {
    forall i :: 0 <= i < |tree| ==> WellLinkedRecord(tree[i])
  }

  predicate WellLinkedRecord(pkg: Linked)
  {
    && (pkg.node.rec.relationship == Direct ==> pkg.children.Some?)
    && (pkg.children.Some? ==> forall e :: e in pkg.children.value ==> e.node.rec.parent.Some? && e.depth >= 1)
  }

  lemma CorrectedListSafe(pkg: Linked, kids: seq<Entry>)
    requires forall e :: e in kids ==> e.node.rec.parent.Some? && e.depth >= 1
    ensures NoneDangling(Collect(pkg, kids, Bare(pkg)))
  {
    var items := Collect(pkg, kids, Bare(pkg));
    AlertedChildrenMembers(kids);
    forall i | 0 <= i < |items| ensures !Dangling(items[i]) {
      CollectMembers(pkg, kids, Bare(pkg), items[i]);
    }
  }

  lemma PlanWithSafe(pkg: Linked, registry: Maven.Registry, rank: map<Maven.PomCoord, nat>)
    requires Maven.Ranked(registry, rank) && WellLinkedRecord(pkg)
    ensures PlanWith(pkg, Bare(pkg), registry, rank).Ok?
  {
    PlanWithFailure(pkg, Bare(pkg), registry, rank);
    if pkg.node.rec.relationship == Direct {
      CorrectedListSafe(pkg, pkg.children.value);
    }
  }

  /** The corrected planner never raises a TypeError on well-linked
      records. */
  lemma {:induction false} CorrectedNeverCrashes(tree: seq<Linked>, registry: Maven.Registry, rank: map<Maven.PomCoord, nat>)
    requires Maven.Ranked(registry, rank)
    ensures WellLinked(tree) ==> PlanAll(tree, false, registry, rank).Ok?
  {
    if |tree| > 0 && WellLinked(tree) {
      assert WellLinked(tree[1..]) by {
        forall i | 0 <= i < |tree[1..]| ensures WellLinkedRecord(tree[1..][i]) {
          assert tree[1..][i] == tree[i + 1];
        }
      }
      CorrectedNeverCrashes(tree[1..], registry, rank);
      PlanWithSafe(tree[0], registry, rank);
    }
  }

  /** A root direct record with no own alerts whose first alerted child
      carries another name: as written, its undefined-depth entry dangles,
      so processing its list raises a TypeError in whatever order the
      entries are taken. */
  lemma AsWrittenCrashes(pkg: Linked, order: seq<Item>, registry: Maven.Registry, rank: map<Maven.PomCoord, nat>)
    requires Maven.Ranked(registry, rank)
    requires pkg.node.rec.relationship == Direct && pkg.node.rec.parent.None? && pkg.depth.None?
    requires |pkg.node.alerts| == 0 && pkg.children.Some?
    requires var al := AlertedChildren(pkg.children.value); |al| > 0 && NameOf(al[0]) != NameOfRecord(pkg)
    requires multiset(order) == multiset(Collect(pkg, pkg.children.value, BareAsWritten(pkg)))
    ensures ProcessItems(order, registry, rank).TypeError?
    ensures PlanWith(pkg, BareAsWritten(pkg), registry, rank).TypeError?
  {
    var items := Collect(pkg, pkg.children.value, BareAsWritten(pkg));
    CollectShape(pkg, pkg.children.value, BareAsWritten(pkg));
    assert items[1] == BareAsWritten(pkg) && Dangling(items[1]);
    DanglingPermutation(items, order);
    PlanWithFailure(pkg, BareAsWritten(pkg), registry, rank);
  }

  /** The registry only feeds the reported look-ups: whether a record's run
      fails, and the list it keeps, are the same for any two registries. */
  lemma PlanWithRegistryIndependent(pkg: Linked, bare: Item, r1: Maven.Registry, k1: map<Maven.PomCoord, nat>,
                                    r2: Maven.Registry, k2: map<Maven.PomCoord, nat>)
    requires Maven.Ranked(r1, k1) && Maven.Ranked(r2, k2)
    requires NameOf(bare) == NameOfRecord(pkg)
    ensures var a := PlanWith(pkg, bare, r1, k1);
      var b := PlanWith(pkg, bare, r2, k2);
      && a.Ok? == b.Ok?
      && (a.Ok? ==> a.value.None? == b.value.None?)
      && (a.Ok? && a.value.Some? ==> a.value.value.entries == b.value.value.entries)
  {
    PlanWithFailure(pkg, bare, r1, k1);
    PlanWithFailure(pkg, bare, r2, k2);
  }

  lemma {:induction false} RegistryIndependent(tree: seq<Linked>, asWritten: bool, r1: Maven.Registry, k1: map<Maven.PomCoord, nat>,
                                               r2: Maven.Registry, k2: map<Maven.PomCoord, nat>)
    requires Maven.Ranked(r1, k1) && Maven.Ranked(r2, k2)
    ensures var a := PlanAll(tree, asWritten, r1, k1);
      var b := PlanAll(tree, asWritten, r2, k2);
      && a.Ok? == b.Ok?
      && (a.Ok? ==> a.value.plan == b.value.plan)
  {
    if |tree| > 0 {
      var pkg := tree[0];
      var bare := BareFor(pkg, asWritten);
      PlanWithRegistryIndependent(pkg, bare, r1, k1, r2, k2);
      RegistryIndependent(tree[1..], asWritten, r1, k1, r2, k2);
    }
  }

  /** The smallest input that shows the crash: a direct package D without
      alerts whose dependency C has one, as the closure engine returns them. */
  function ExampleDirect(): Annotated
  {
    Annotated(Tree.TreeRecord(Coord("maven", "org.example", "app-core", "1.0.0", "jar"), Direct, Runtime, None), [], None)
  }

  function ExampleChild(): Annotated
  {
    Annotated(Tree.TreeRecord(Coord("maven", "org.example", "text-utils", "2.0.0", "jar"), Indirect, Runtime,
                              Some(Coord("maven", "org.example", "app-core", "1.0.0", "jar"))),
              [Alert(1, "org.example:text-utils", Some("2.0.1"))], Some("2.0.1"))
  }

  function ExampleTree(): seq<Linked>
  {
    [Linked(ExampleDirect(), None, Some([Entry(ExampleChild(), 1)])), Linked(ExampleChild(), Some(1), None)]
  }

  /** A two-entry list, already deepest first, whose second entry dangles
      fails on that entry. */
  lemma FailsOnSecond(pkg: Linked, bare: Item, c: Item, d: Item, registry: Maven.Registry, rank: map<Maven.PomCoord, nat>)
    requires Maven.Ranked(registry, rank)
    requires NameOf(bare) == NameOfRecord(pkg)
    requires pkg.node.rec.relationship == Direct && pkg.children.Some?
    requires Collect(pkg, pkg.children.value, bare) == [c, d]
    requires Depth(c) >= Depth(d) && !Dangling(c) && Dangling(d)
    ensures PlanWith(pkg, bare, registry, rank) == TypeError(d.node)
  {
    SortTwo(c, d, Depth);
    assert Flatten(GroupRuns([c, d], Depth)) == [c, d];
    assert [c, d][1..] == [d];
    assert ProcessItems([d], registry, rank) == TypeError(d.node);
  }

  /** As written, D's list is C at depth 1, then D with no depth, and D is
      the entry that fails. */
  lemma AsWrittenExampleList()
    ensures var pd := ExampleTree()[0];
      PlanWith(pd, BareAsWritten(pd), map[], map[]) == TypeError(ExampleDirect())
  {
    var pd := ExampleTree()[0];
    var kids := [Entry(ExampleChild(), 1)];
    var c := Item(ExampleChild(), Some(1));
    var d := Item(ExampleDirect(), None);
    assert pd.children == Some(kids);
    assert AlertedChildren(kids) == [c];
    CollectShape(pd, kids, BareAsWritten(pd));
    FailsOnSecond(pd, BareAsWritten(pd), c, d, map[], map[]);
  }

  /** As written, the run stops with a TypeError on D. */
  lemma AsWrittenCounterexample()
    ensures IdentifyUpdatePlanAsWritten(ExampleTree(), map[], map[]) == TypeError(ExampleDirect())
  {
    AsWrittenExampleList();
  }

  /** A two-entry list, already deepest first, with no dangling entry is
      kept as it is. */
  lemma KeepsTwo(pkg: Linked, bare: Item, c: Item, d: Item, registry: Maven.Registry, rank: map<Maven.PomCoord, nat>)
    requires Maven.Ranked(registry, rank)
    requires NameOf(bare) == NameOfRecord(pkg)
    requires pkg.node.rec.relationship == Direct && pkg.children.Some?
    requires Collect(pkg, pkg.children.value, bare) == [c, d]
    requires Depth(c) >= Depth(d) && !Dangling(c) && !Dangling(d)
    ensures var r := PlanWith(pkg, bare, registry, rank);
      r.Ok? && r.value.Some? && r.value.value.entries == [c, d]
  {
    SortTwo(c, d, Depth);
    PlanWithFailure(pkg, bare, registry, rank);
    assert NoneDangling([c, d]);
  }

  /** Corrected, D's list is C at depth 1, then D at depth 0. */
  lemma CorrectedExampleList()
    ensures var pd := ExampleTree()[0];
      && PlanWith(pd, Bare(pd), map[], map[]).Ok?
      && PlanWith(pd, Bare(pd), map[], map[]).value.Some?
      && PlanWith(pd, Bare(pd), map[], map[]).value.value.entries ==
         [Item(ExampleChild(), Some(1)), Item(ExampleDirect(), Some(0))]
  {
    var pd := ExampleTree()[0];
    var kids := [Entry(ExampleChild(), 1)];
    var c := Item(ExampleChild(), Some(1));
    var d := Item(ExampleDirect(), Some(0));
    assert pd.children == Some(kids);
    assert AlertedChildren(kids) == [c];
    CollectShape(pd, kids, Bare(pd));
    KeepsTwo(pd, Bare(pd), c, d, map[], map[]);
  }

  /** Corrected, the run completes with that one list. */
  lemma CorrectedExample()
    ensures IdentifyUpdatePlan(ExampleTree(), map[], map[]).Ok?
    ensures IdentifyUpdatePlan(ExampleTree(), map[], map[]).value.plan ==
      [[Item(ExampleChild(), Some(1)), Item(ExampleDirect(), Some(0))]]
  {
    var tree := ExampleTree();
    CorrectedExampleList();
    assert PlanWith(tree[1], Bare(tree[1]), map[], map[]) == Ok(None);
    assert PlanAll(tree[1..][1..], false, map[], map[]) == Ok(Report([], []));
    assert PlanAll(tree[1..], false, map[], map[]) == Ok(Report([], []));
  }
}
