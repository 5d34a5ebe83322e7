# Dependency analysis core of the Maven dependency-submission action

This project models, in Dafny, the dependency-analysis pipeline of the
action. The pipeline has five stages:

- **Walker** (`Tree`): walks the resolved-package map of a dependency
  snapshot from every direct package. It produces an indented listing and
  a flat list of records in depth-first order, one per dependency path
  from a direct package. Each record carries its parent's package URL.
- **Alert correlator** (`Alerts`): attaches to each record the
  vulnerability alerts that name its package. It also attaches the highest
  first-patched version among those alerts, or the `none` sentinel.
- **Closure engine** (`Closure`): indexes every record under its parent's
  `type:namespace:name:version` key. It then copies grandchildren into
  their grandparents' lists, for at most ten passes, and attaches each
  record's list as its `children`.
- **Update planner** (`Plan`, with `Sorting`): for every direct package, it
  collects the alerted entries, orders them deepest first and groups them
  by depth. For each entry below the root, it looks up the declared
  dependencies of the entry's parent.
- **POM version resolver** (`Maven`): computes the dependency-management
  table a POM inherits through its `<parent>` chain, with `${name}`
  placeholders substituted. It also computes the version each declared
  dependency resolves to.

Shared vocabulary lives in `Types`. `Semver` models the two version
comparisons the correlator uses:

- precedence of `MAJOR.MINOR.PATCH` strings, as in section 11 of Semantic
  Versioning 2.0.0;
- the numeric prefix `parseFloat` reads.

Everything is modelled with immutable datatypes and pure functions. The
exception is the closure engine's fixed-point loop, which is modelled as
methods with loop invariants. Two things become parameters instead of
effects:

- The Maven repository is a `Registry` map from coordinate to parsed
  descriptor. A coordinate missing from it stands for a download or parse
  failure.
- The iteration order of the snapshot's resolved map is an explicit
  `order` sequence.

Termination of the two recursive walks is stated through a ghost `rank`:

- every dependency must sit below its dependent;
- every parent POM must sit below its child.

The code has no cycle guard. A rank is a sufficient condition for both
walks to terminate: it rules out every cycle, including cycles the walk
never reaches, which the code would handle.

## Model

| member | source | states |
|---|---|---|
| Tree.BuildTree | src/index.ts:188-271 | The walk of a package starts with its own line and record, which has the given parent. A key missing from the map yields nothing. Lines and records agree position by position. Every later record is the record of a dependency that an earlier record's package declares and the map resolves, listed two columns further in, with that earlier record's package as parent. Conversely, every resolved declared dependency of the package appears as a record under it. Every record comes from the map. Completeness below every record and the record count are stated by `Tree.TreeComplete` and `Tree.TreeSize`. |
| Tree.BuildChildren | src/index.ts:240-266 | The concatenated walks of a package's declared dependencies. Each record is either the record of one of those dependencies, at the given indentation and under the package, or the record of a resolved dependency declared by an earlier record's package. Every resolved dependency of the list appears under the package. |
| Tree.TreeComplete | src/index.ts:188-271 | Every record of a walk, not only the first, is followed by the record of every dependency its package declares and the map resolves. That record is listed two columns further in, with the earlier record's package as parent, and every line between the two is indented further than the earlier record, so it lies in that record's block. No descendant the map resolves is missing. |
| Tree.TreeSize | src/index.ts:188-271 | The walk lists exactly one record per dependency path from the package through packages of the map, counted once per declaration. A package appears twice only when two paths reach it. |
| Tree.MissingDependencySkipped | src/index.ts:259-265 | A declared dependency whose lookup key is absent from the map adds neither a line nor a record. |
| Tree.BuildForest | src/index.ts:81-107 | Walks every direct package from indentation 0. Every record's parent is listed before it. Every record without a parent is a direct package at indentation 0, and every record with a parent is a resolved declared dependency of an earlier record. The root record of every direct package is present. Every record comes from the map. |
| Tree.ForestShape | src/index.ts:81-107 | The parentless records of the forest are exactly the root records of the direct packages, in the map's iteration order, so each direct package's walk follows the previous one. Every record is followed by all its resolved dependencies as in `Tree.TreeComplete`. The forest holds one record per dependency path from a direct package. |
| Alerts.MatchingAlerts | src/index.ts:308-310 | An alert is attached to a record if and only if it is in the feed and names the record's `namespace:name`. At most all of the feed is attached. |
| Alerts.Step | src/index.ts:312-332 | One matching alert keeps the running patched version, replaces it by the alert's own fix, or turns it into `none`. It becomes `none` exactly when the alert has no first patched version or the value already was `none`. |
| Alerts.Scan | src/index.ts:303-334 | The single pass over the feed collects exactly the matching alerts, in feed order. It folds the patched version over those alerts alone. |
| Alerts.Annotate | src/index.ts:303-339 | The record is unchanged. Its alerts are the matching alerts. Its patched version is the fold of the patched-version rule from `0.0.0`, dropped when it is still `0.0.0`. |
| Alerts.AssociateAlerts | src/index.ts:300-343 | The correlator keeps the length and order of the list. It annotates every record from the feed. |
| Alerts.VersionIgnored | src/index.ts:309 | Two records of one package at different versions get the same alerts and the same patched version. |
| Alerts.FoldNone | src/index.ts:313-332 | The running patched version ends as `none` exactly when it started as `none` or some matching alert lacks a first patched version. Nothing moves it away from `none`. |
| Alerts.PatchedNoneIffUnfixable | src/index.ts:330-338 | A record's patched version is `none` if and only if one of its alerts has no first patched version. |
| Alerts.PatchedIsMaximum | src/index.ts:313-338 | When every alert names a valid version, the patched version is one of those versions, valid, and not below any of them. It is absent only when every one of them is `0.0.0`. |
| Semver.ZeroIsBottom | src/index.ts:305-316 | `0.0.0` is valid, and no valid version precedes it, so the starting value is never above a valid fix. A valid fix is above it exactly when it does not read as the zero version, so a fix such as `0.0.0` or `v0.0.0` leaves it in place. |
| Semver.ParseFloatPrefix | src/index.ts:321-323 | `parseFloat` gives NaN exactly when the string starts with neither a digit nor a dot followed by a digit. |
| Semver.NonNumericStrings | src/index.ts:321-331 | `none` is neither a valid version nor numeric. Once the running value is `none`, neither comparison can replace it. |
| Closure.RegisterEffect | src/index.ts:349-362 | Registering one record creates its group's list if missing. For a non-root record, it appends the record at depth 1. Every other list is unchanged. |
| Closure.GroupsMembers | src/index.ts:349-362 | A key is indexed exactly when some record is a root with that key or has a parent with that key. |
| Closure.FirstLevel | src/index.ts:348-363 | The first-level map has one list per indexed key, with keys not repeated. Each list holds exactly the non-root records whose parent has that key, at depth 1, in tree order. |
| Closure.FirstLevelOrdered | src/index.ts:349-358 | The keys are listed in the order their first record occurs in the tree, as the insertion order of the object that `for..in` later walks. |
| Closure.FirstChildrenShape | src/index.ts:355-362 | Every first-level entry is a non-root record of the tree at depth 1, indexed under its parent's key. |
| Closure.Contains | src/index.ts:393-398 | The presence test is true exactly when the list holds the record, depths ignored. |
| Closure.CopyEntry | src/index.ts:389-409 | A grandchild is appended to the grandparent's list, one level deeper, if and only if that list does not hold its record yet. Otherwise the map is unchanged. |
| Closure.ExpandChild | src/index.ts:383-411 | Copying a child's own list into its parent's list only appends. Each appended entry is new to the list and is a one-level-deeper copy of an entry of an earlier child's list. When nothing is added, that child contributes nothing new. When something is added, the list gains a record. |
| Closure.ExpandKey | src/index.ts:383-412 | Walking a list while it grows keeps the same invariants and terminates. When nothing is added, every child of the list contributes nothing new. |
| Closure.Pass | src/index.ts:379-413 | One pass over all keys in insertion order keeps the invariants. A pass that adds nothing leaves a map closed under composition. |
| Closure.Close | src/index.ts:366-414 | The engine runs between 1 and 10 passes and only appends. Every appended entry is fresh and derived from an earlier child. It only copies records already in the first-level map, at depth 1 or more. It stops early only at a fixed point that is closed under composition. |
| Closure.Attach | src/index.ts:418-428 | Records keep length and order. A record gets `children` exactly when its own key indexes a list. |
| Closure.MapChildrenToParents | src/index.ts:345-431 | Records keep length and order. Non-root records get depth 1 and root records none. A record has `children` exactly when its key is indexed, and every root record has them. Each list extends the record's first-level children and holds only non-root records of the tree at depth 1 or more. The closure guarantees of `Closure.Close` hold. |
| Sorting.SortDescending | src/index.ts:468 | The sorted list is a permutation of its input, ordered by non-increasing depth. |
| Sorting.GroupRuns | src/index.ts:475-489 | Cutting a depth-ordered list into groups and reading the groups in order gives back the list. Each group is non-empty and holds one depth. Group depths strictly decrease. |
| Plan.AlertedChildrenMembers | src/index.ts:451-454 | An entry is collected from the children if and only if it is a child with at least one alert, taken at its own depth. |
| Plan.Collect | src/index.ts:443-463 | The collected list: the record's depth-0 copy when it has alerts, then the alerted children in order. Without own alerts, the root-path entry follows each alerted child until an entry with the record's name is present. Its closed form is `Plan.CollectShape`. |
| Plan.CollectShape | src/index.ts:443-463 | The collected list takes one of four shapes. With own alerts, it is the record at depth 0 followed by the alerted children. Otherwise it is empty if no child has alerts. If the first alerted child has the record's name, it is just the alerted children. Otherwise it is the first alerted child, then the record itself, then the other alerted children. |
| Plan.CollectMembers | src/index.ts:443-463 | Every collected entry is the record itself, the record at depth 0, or an alerted child. |
| Plan.CollectComplete | src/index.ts:451-461 | Every child with alerts is collected. |
| Plan.FindDependency | src/index.ts:522 | The found dependency is the FIRST declared one with the entry's namespace and name: it matches and no earlier one does. None means no declared dependency has both. |
| Plan.ProcessItems | src/index.ts:495-525 | Processing raises a TypeError exactly when some entry is not at depth 0 and has no parent. |
| Plan.DanglingPermutation | src/index.ts:468-506 | Whether some entry dangles does not depend on the order the entries are taken in. |
| Plan.PlanWith | src/index.ts:436-531 | An indirect record contributes nothing. A direct record without a children list raises a TypeError. A kept list is the collected list sorted deepest first: a non-empty permutation of it, in non-increasing depth. Nothing is kept only for an indirect record or an empty collected list. |
| Plan.PlanWithFailure | src/index.ts:440-531 | A record's run fails if and only if the record is direct and either has no children list or has a collected entry without a parent that is not at depth 0. |
| Plan.PlanWithSafe | src/index.ts:440-531 | With the depth-0 copy pushed at line 460, one record's run never fails when the record, if direct, has a children list and every child entry is a non-root record at depth 1 or more. |
| Plan.CorrectedNeverCrashes | src/index.ts:433-537 | With the depth-0 copy pushed at line 460, the planner never raises a TypeError on records whose direct records have children lists and whose child entries are non-root records at depth 1 or more. `Closure.MapChildrenToParents` guarantees the second property for every record, and the first for root records. |
| Plan.AsWrittenCrashes | src/index.ts:456-506 | Take a root direct record with no alerts of its own whose first alerted child has another name. As written, its list holds the record at an undefined depth. Processing that list raises a TypeError whatever order the entries are taken in. |
| Plan.AsWrittenExampleList | src/index.ts:456-506 | On the example, the direct package's list, as written, is the child at depth 1 then the package with no depth, and the run of that record fails on the package. |
| Plan.AsWrittenCounterexample | src/index.ts:456-506 | A concrete two-record tree on which the planner, as written, stops with a TypeError on the direct package. |
| Plan.CorrectedExample | src/index.ts:443-530 | On the same tree the corrected planner completes with one list: the child at depth 1, then the direct package at depth 0. |
| Plan.IdentifyUpdatePlanAsWritten | src/index.ts:433-537 | The planner as written fails exactly when the run of some record fails, and a completed run keeps the lists of `Plan.Kept` for the as-written collection. `Plan.AsWrittenCounterexample` shows a tree on which it fails, and `Plan.PlanAllFails` gives the failure condition. |
| Plan.PlanAll | src/index.ts:433-537 | A completed run keeps at most one list per record. |
| Plan.PlanAllFails | src/index.ts:433-537 | The whole run fails exactly when the run for some record fails. |
| Plan.PlanAllKeeps | src/index.ts:433-537 | A completed run keeps exactly one list per direct record with a children list and a non-empty collection, in tree order, and that list is its collected entries sorted deepest first. The reference definition `Plan.Kept` does not involve the registry. |
| Plan.IdentifyUpdatePlan | src/index.ts:433-537 | With the root-path entry pushed at depth 0, the planner completes on well-linked records. A completed run keeps exactly the lists of `Plan.Kept`. |
| Plan.RegistryIndependent | src/index.ts:517-524 | The registry only feeds the reported look-ups. Whether the run fails, and the lists it keeps, are the same for every registry. |
| Maven.ApplyManagement | src/index.ts:563-579 | Applying management entries succeeds exactly when every entry declares a version. |
| Maven.ManagementOverrides | src/index.ts:563-579 | The last management entry for a key wins, with its placeholder substituted. Keys the POM does not manage keep their inherited value. |
| Maven.Substitute | src/index.ts:569-571 | A substituted version is the value of a property whose `${name}` occurs in the version. A version without `${` is kept as written. That a defined placeholder is replaced is `Maven.SubstitutePlaceholder`. |
| Maven.SubstitutePlaceholder | src/index.ts:569-571 | A version written as `${name}`, with a name on one line, becomes the POM's property `name` when the POM defines it, and stays `${name}` literally when it does not. |
| Maven.PlaceholderRead | src/index.ts:569-571 | A version written as `${name}` is read as the placeholder `name`. |
| Maven.PlaceholderOccurs | src/index.ts:569-571 | A placeholder that is read occurs in the version as `${name}`. |
| Maven.NoPlaceholder | src/index.ts:569-570 | A version without `${` is kept as written. |
| Maven.InheritedTable | src/index.ts:542-586 | An unfetchable POM yields the empty table. |
| Maven.InheritanceRule | src/index.ts:550-581 | The POM's table is the parent's table with the POM's own management entries applied on top, and the empty table when an entry lacks a version. |
| Maven.DependenciesOf | src/index.ts:588-624 | The result is present exactly when the POM is fetched and its dependencies section holds at least one dependency. An empty section is read by the XML parser as a string without a `dependency` field, so the code throws and its catch returns `null`. Each dependency keeps its coordinates. An explicit version other than `${project.version}` is taken as written. `${project.version}` resolves to the parent's version, or to `null` without a parent. A missing version is read from the parent's inherited table when the parent names a version, and is `undefined` otherwise or when that table lacks the key. |
| Maven.ParentManagementApplies | src/index.ts:597-611 | For a POM with a parent: `${project.version}` resolves to the parent's version. A missing version stays `undefined` when the parent names no version or cannot be fetched. Otherwise it takes the parent's last management entry for the key, with the parent's placeholders substituted. It is `undefined` when an entry of the parent lacks a version. Failing a parent entry, it takes the grandparent chain's entry for the key. |

## Left out

- The `run` orchestration is left out, together with its logging, the GitHub API call that lists alerts (Octokit), the Maven downloads (axios) and the XML parsing (xml2js). These are I/O. The alert feed and the registry are parameters instead.
- Tree.BuildTree, Tree.BuildChildren: the contracts do not state that the walks of a package's dependencies follow one another in declaration order. They state completeness at every record (`Tree.TreeComplete`) and the record count (`Tree.TreeSize`), and for the forest the order of the direct packages (`Tree.ForestShape`).
- Only one manifest is walked. The loop over the snapshot's manifests at line 80 concatenates the walks of each manifest; `Tree.BuildForest` models the walk of one manifest's resolved map.
- A dependency cycle reached by the synchronous package walk makes the code recurse until the stack overflows, and `run` fails with a RangeError. A cyclic `<parent>` chain instead makes the POM walk download forever, because each level awaits its download before recursing and so starts on a fresh stack. The model requires an acyclic rank for both walks, so neither behaviour is modelled.
- The text rendering of package URLs is left out. A package URL is the `Coord` datatype. The listing keeps its indentation and fields but not its string form.
- Object aliasing is not modelled. The code mutates shared record objects: `depth` is set at line 360 and `children` at line 425. The model returns fresh values carrying the same fields.
- Plan.PlanWith: as written, a root record has no `depth`, and the comparator `b.depth - a.depth` at line 468 is then NaN. The model sorts such an entry as depth 0. `Plan.AsWrittenCrashes` shows that the run fails in every order, so the crash does not depend on this choice.
- Sorting.SortDescending: the stability of `Array.prototype.sort` is not stated. The contract promises a permutation in non-increasing depth.
- Sorting.GroupRuns: the planner groups entries by the text of their depth and sorts those keys numerically. For the integer depths of the corrected planner this is exactly a cut into runs of equal depth, which the model uses.
- Plan.ProcessItems: the console output of lines 471-473, 497-518 and 523 is left out. The look-ups performed at lines 517-522 are kept as returned values.
- Plan.CorrectedNeverCrashes: a direct record that is nested under another direct record gets a children list only when some record is indexed under its key. The lemma therefore assumes children lists for direct records rather than deriving them.
- The npm semver library's prerelease and build identifiers, loose mode, and leading `=` or whitespace are not modelled. `Semver.Parse` accepts `[v]MAJOR.MINOR.PATCH` with numeric parts without leading zeros.
- `parseFloat` is modelled on `digits[.digits]` prefixes only. Leading whitespace, signs, exponents and `Infinity` are not modelled, and nor is floating-point rounding: values are exact reals.
- Maven POM structural failures are left out. These are a `<parent>` or `<dependency>` element without `groupId` or `artifactId`, a `<parent>` element without a `<version>` element, and a management section without a dependency list. The code turns them into TypeErrors caught by its `try`, which behave like a missing registry entry. A versionless dependency or management entry is not such a failure and is modelled.
- A package URL's qualifiers other than `type`, and its subpath, are not modelled. The closure's duplicate test and the `parent` field compare whole package-URL objects through `JSON.stringify`, so two records that differ only there are identified in the model but distinct in the code.
- Property names that JavaScript objects inherit (such as `constructor`) are not modelled in the management table or the children map. Both are modelled as plain maps.

## Findings

| source | as written | input that shows it | evidently intended | confidence | as-written member | corrected member |
|---|---|---|---|---|---|---|
| src/index.ts:456-461, 506 | When a direct package has no alerts of its own but a child with another name has alerts, line 460 pushes the package record itself. For a root record that record has no `depth` and no `parent`, so line 506 reads `alert.parent.namespace` on `null` and the run stops with a TypeError. | Direct package `org.example:app-core:1.0.0` without alerts whose dependency `org.example:text-utils:2.0.0` has one alert. | Push the package as a depth-0 entry, as lines 444-447 do. Line 498 then treats it as the direct package, and the plan holds the child at depth 1 followed by the package at depth 0. | not executed | Plan.AsWrittenCounterexample | Plan.CorrectedNeverCrashes |
