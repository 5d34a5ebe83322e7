/** The alert correlator: annotates every flattened record with the alerts
    that name its package and with the highest first-patched version among
    them. */
module Alerts {
  import opened Types
  import opened Semver
  import Tree

  /** A vulnerability alert: its number, the affected package name
      (`namespace:name`) and its first patched version: None when the alert
      carries no first-patched version at all, Some("") when that field has no
      identifier. */
  datatype Alert = Alert(number: nat, packageName: string, firstPatched: Option<string>)

  /** A flattened record with its alerts and patched version (None = the
      field is absent). */
  datatype Annotated = Annotated(rec: Tree.TreeRecord, alerts: seq<Alert>, patched: Option<string>)

  /** The low starting value of the running patched version. */
  const Floor: string := "0.0.0"

  /** The sentinel for "vulnerable with no known fix". */
  const NoFix: string := "none"

  /** Alerts match on package name only; the version is ignored. */
  predicate Matches(a: Alert, r: Tree.TreeRecord)
  {
    a.packageName == LogicalName(r.coord)
  }

  /** The alerts of `feed` naming the record's package, in feed order. */
  function MatchingAlerts(feed: seq<Alert>, r: Tree.TreeRecord): (m: seq<Alert>)
    ensures |m| <= |feed|
    ensures forall a :: a in m <==> a in feed && Matches(a, r)
  {
    if |feed| == 0 then []
    else (if Matches(feed[0], r) then [feed[0]] else []) + MatchingAlerts(feed[1..], r)
  }

  /** How one matching alert updates the running patched version: it is
      kept, replaced by the alert's fix, or turned into `none`; it becomes
      `none` exactly when the alert has no fix or it already was `none`. */
  function Step(pv: string, a: Alert): (r: string)
    ensures r == pv || r == NoFix || Some(r) == a.firstPatched
    ensures r == NoFix <==> LacksFix(a) || pv == NoFix
  {
    NonNumericStrings();
    match a.firstPatched
    case None => NoFix
    case Some(id) =>
      if id == "" then pv
      else if Valid(id) && Valid(pv) then (if Gt(id, pv) then id else pv)
      else
        match (ParseFloatPrefix(id), ParseFloatPrefix(pv))
        case (Some(x), Some(y)) => if x > y then id else pv
        case _ => pv
  }

  /** The running patched version after the matching alerts `xs`, in order. */
  function Fold(pv: string, xs: seq<Alert>): string
    decreases |xs|
  {
    if |xs| == 0 then pv else Fold(Step(pv, xs[0]), xs[1..])
  }

  /** The patched version of a record with matching alerts `xs`: the fold
      from `0.0.0`, dropped when it is still `0.0.0`. */
  function PatchedVersion(xs: seq<Alert>): Option<string>
  {
    var pv := Fold(Floor, xs);
    if pv == Floor then None else Some(pv)
  }

  /** The correlator's single pass over the feed for one record: it
      collects exactly the matching alerts, in feed order, and folds the
      patched version over them alone. */
  function Scan(feed: seq<Alert>, r: Tree.TreeRecord, found: seq<Alert>, pv: string): (res: (seq<Alert>, string))
    ensures res == (found + MatchingAlerts(feed, r), Fold(pv, MatchingAlerts(feed, r)))
    decreases |feed|
  {
    if |feed| == 0 then
      assert found + [] == found;
      (found, pv)
    else
      var m := MatchingAlerts(feed[1..], r);
      if Matches(feed[0], r) then
        assert ([feed[0]] + m)[1..] == m;
        assert found + [feed[0]] + m == found + ([feed[0]] + m);
        Scan(feed[1..], r, found + [feed[0]], Step(pv, feed[0]))
      else
        assert [] + m == m;
        Scan(feed[1..], r, found, pv)
  }

  /** Annotates one record: whatever alerts and patched version it carried
      are discarded, then the feed is scanned once. */
  function Annotate(n: Annotated, feed: seq<Alert>): (r: Annotated)
    ensures r.rec == n.rec
    ensures r.alerts == MatchingAlerts(feed, n.rec)
    ensures r.patched == PatchedVersion(r.alerts)
  {
    var (found, pv) := Scan(feed, n.rec, [], Floor);
    assert [] + MatchingAlerts(feed, n.rec) == MatchingAlerts(feed, n.rec);
    Annotated(n.rec, found, if pv == Floor then None else Some(pv))
  }

  /** Annotates every record of the flattened tree, keeping length and order. */
  function AssociateAlerts(tree: seq<Annotated>, feed: seq<Alert>): (r: seq<Annotated>)
    ensures |r| == |tree|
    ensures forall i :: 0 <= i < |r| ==>
      && r[i].rec == tree[i].rec
      && r[i].alerts == MatchingAlerts(feed, tree[i].rec)
      && r[i].patched == PatchedVersion(r[i].alerts)
  {
    seq(|tree|, i requires 0 <= i < |tree| => Annotate(tree[i], feed))
  }

  /** Running the correlator again changes nothing. */
  lemma AssociateIdempotent(tree: seq<Annotated>, feed: seq<Alert>)
    ensures AssociateAlerts(AssociateAlerts(tree, feed), feed) == AssociateAlerts(tree, feed)
  {
  }

  /** Two records of the same package at different versions receive the same
      alerts and the same patched version. */
  lemma VersionIgnored(n: Annotated, m: Annotated, feed: seq<Alert>)
    requires n.rec.coord.namespace == m.rec.coord.namespace && n.rec.coord.name == m.rec.coord.name
    ensures Annotate(n, feed).alerts == Annotate(m, feed).alerts
    ensures Annotate(n, feed).patched == Annotate(m, feed).patched
  {
    MatchesSameName(feed, n.rec, m.rec);
  }

  lemma {:induction false} MatchesSameName(feed: seq<Alert>, a: Tree.TreeRecord, b: Tree.TreeRecord)
    requires LogicalName(a.coord) == LogicalName(b.coord)
    ensures MatchingAlerts(feed, a) == MatchingAlerts(feed, b)
  {
    if |feed| > 0 {
      MatchesSameName(feed[1..], a, b);
    }
  }

  // ---------------------------------------------------------------------
  // The patched-version rule

  predicate LacksFix(a: Alert)
  {
    a.firstPatched.None?
  }

  lemma {:induction false} FoldNone(pv: string, xs: seq<Alert>)
    ensures Fold(pv, xs) == NoFix <==> pv == NoFix || exists i :: 0 <= i < |xs| && LacksFix(xs[i])
    decreases |xs|
  {
    if |xs| > 0 {
      FoldNone(Step(pv, xs[0]), xs[1..]);
      if exists i :: 0 <= i < |xs[1..]| && LacksFix(xs[1..][i]) {
        var i :| 0 <= i < |xs[1..]| && LacksFix(xs[1..][i]);
        assert LacksFix(xs[i + 1]);
      }
      if exists i :: 0 <= i < |xs| && LacksFix(xs[i]) {
        var i :| 0 <= i < |xs| && LacksFix(xs[i]);
        if i > 0 {
          assert LacksFix(xs[1..][i - 1]);
        }
      }
    }
  }

  /** No matching alerts: the patched version is absent. */
  lemma NoAlertsNoPatched()
    ensures PatchedVersion([]) == None
  {
  }

  /** The patched version is `none` exactly when some matching alert lacks a
      first patched version. */
  lemma PatchedNoneIffUnfixable(xs: seq<Alert>)
    ensures PatchedVersion(xs) == Some(NoFix) <==> exists i :: 0 <= i < |xs| && LacksFix(xs[i])
  {
    FoldNone(Floor, xs);
  }

  /** Every alert names a non-empty, valid version. */
  predicate AllValidFixes(xs: seq<Alert>)
  {
    forall i :: 0 <= i < |xs| ==> xs[i].firstPatched.Some? && Valid(xs[i].firstPatched.value)
  }

  predicate NamesFix(xs: seq<Alert>, v: string)
  {
    exists i :: 0 <= i < |xs| && xs[i].firstPatched == Some(v)
  }

  lemma {:induction false} FoldMax(pv: string, xs: seq<Alert>)
    requires Valid(pv) && AllValidFixes(xs)
    ensures Valid(Fold(pv, xs))
    ensures Fold(pv, xs) == pv || NamesFix(xs, Fold(pv, xs))
    ensures !Less(Parse(Fold(pv, xs)).value, Parse(pv).value)
    ensures forall i :: 0 <= i < |xs| ==> !Less(Parse(Fold(pv, xs)).value, Parse(xs[i].firstPatched.value).value)
    decreases |xs|
  {
    if |xs| > 0 {
      var id := xs[0].firstPatched.value;
      assert id != "" by { assert !Valid(""); }
      var next := Step(pv, xs[0]);
      assert AllValidFixes(xs[1..]) by {
        forall i | 0 <= i < |xs[1..]| ensures xs[1..][i] == xs[i + 1] { }
      }
      FoldMax(next, xs[1..]);
      var res := Fold(next, xs[1..]);
      if res != next {
        var i :| 0 <= i < |xs[1..]| && xs[1..][i].firstPatched == Some(res);
        assert xs[i + 1].firstPatched == Some(res);
      }
      forall i | 0 < i < |xs|
        ensures !Less(Parse(res).value, Parse(xs[i].firstPatched.value).value)
      {
        assert xs[i] == xs[1..][i - 1];
      }
    }
  }

  /** When every matching alert names a valid version, the patched version is
      their semantic-version maximum: one of them, at least as high as each;
      it is absent only when that maximum is `0.0.0`. */
  lemma PatchedIsMaximum(xs: seq<Alert>)
    requires AllValidFixes(xs)
    ensures PatchedVersion(xs).Some? ==>
      && NamesFix(xs, PatchedVersion(xs).value)
      && Valid(PatchedVersion(xs).value)
      && forall i :: 0 <= i < |xs| ==> !Gt(xs[i].firstPatched.value, PatchedVersion(xs).value)
    ensures PatchedVersion(xs).None? ==>
      forall i :: 0 <= i < |xs| ==> Parse(xs[i].firstPatched.value) == Some(Version(0, 0, 0))
  {
    ZeroIsValid();
    FoldMax(Floor, xs);
  }
}
