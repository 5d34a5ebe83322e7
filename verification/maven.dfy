/** Version resolution over Maven POM descriptors: the dependency-management
    table a POM inherits through its `<parent>` chain, `${name}` property
    substitution, and the version each declared dependency resolves to. The
    registry is a map from coordinate to parsed descriptor; a coordinate
    missing from it stands for a fetch or parse failure. */
module Maven {
  import opened Types

  /** groupId, artifactId, version. */
  datatype PomCoord = PomCoord(groupId: string, artifactId: string, version: string)

  /** A `<dependency>` element; `version` is None when the element has no `<version>`. */
  datatype Declared = Declared(groupId: string, artifactId: string, version: Option<string>)

  /** The parts of a parsed POM the resolver reads. `management` is the
      `<dependencyManagement>` list, None when the section is absent;
      `dependencies` is None when the POM has no `<dependencies>` section,
      and the empty list when that section holds no `<dependency>`. */
  datatype Pom = Pom(properties: map<string, string>, parent: Option<PomCoord>,
                     management: Option<seq<Declared>>, dependencies: Option<seq<Declared>>)

  type Registry = map<PomCoord, Pom>

  /** Managed versions keyed by `groupId:artifactId`. */
  type Table = map<string, string>

  /** A resolved dependency version: JavaScript `null`, `undefined`, or a string. */
  datatype DepVersion = Null | Undefined | Value(text: string)

  datatype Dependency = Dependency(groupId: string, artifactId: string, version: DepVersion)

  /** The literal that stands for the current project's version. */
  const ProjectVersion: string := "${project.version}"

  function ManagedKey(groupId: string, artifactId: string): string
  {
    groupId + ":" + artifactId
  }

  // ---------------------------------------------------------------------
  // `${name}` placeholders: the regular expression /\$\{(.+)\}/

  predicate IsLineTerminator(c: char)
  {
    c == '\n' || c == '\r' || c == '\U{2028}' || c == '\U{2029}'
  }

  /** First line terminator at or after `from`, or |s|. */
  function LineEnd(s: string, from: nat): (e: nat)
    requires from <= |s|
    ensures from <= e <= |s|
    ensures forall i :: from <= i < e ==> !IsLineTerminator(s[i])
    ensures e < |s| ==> IsLineTerminator(s[e])
    decreases |s| - from
  {
    if from == |s| || IsLineTerminator(s[from]) then from else LineEnd(s, from + 1)
  }

  /** The last '}' in s[lo..hi). */
  function LastBrace(s: string, lo: nat, hi: nat): (q: Option<nat>)
    requires hi <= |s|
    ensures q.Some? ==> lo <= q.value < hi && s[q.value] == '}' && forall i :: q.value < i < hi ==> s[i] != '}'
    ensures q.None? ==> forall i :: lo <= i < hi ==> s[i] != '}'
    decreases hi
  {
    if hi <= lo then None
    else if s[hi - 1] == '}' then Some(hi - 1)
    else LastBrace(s, lo, hi - 1)
  }

  /** The first match at or after position `p`: `${`, then the longest run
      of at least one character up to a '}' on the same line. */
  function VariableFrom(s: string, p: nat): (x: Option<string>)
    requires p <= |s|
    ensures x.Some? ==> |x.value| >= 1
    decreases |s| - p
  {
    if p + 1 >= |s| then None
    else if s[p] == '$' && s[p + 1] == '{' then
      match LastBrace(s, p + 3, LineEnd(s, p + 2))
      case Some(q) => Some(s[p + 2..q])
      case None => VariableFrom(s, p + 1)
    else VariableFrom(s, p + 1)
  }

  function VariableOf(s: string): Option<string>
  {
    VariableFrom(s, 0)
  }

  /** A version containing a placeholder whose property the POM defines is
      replaced, as a whole, by that property; otherwise it is kept literally. */
  function Substitute(version: string, properties: map<string, string>): (r: string)
    ensures r != version ==> exists name :: name in properties && r == properties[name] && OccursIn("${" + name + "}", version)
    ensures (forall i :: 0 <= i < |version| - 1 ==> !(version[i] == '$' && version[i + 1] == '{')) ==> r == version
  {
    PlaceholderFacts(version);
    match VariableOf(version)
    case Some(name) => if name in properties then properties[name] else version
    case None => version
  }

  /** A version written as `${name}` becomes the POM's property `name`
      when the POM defines it, and is kept literally otherwise. */
  lemma SubstitutePlaceholder(name: string, properties: map<string, string>)
    requires |name| >= 1 && forall i :: 0 <= i < |name| ==> !IsLineTerminator(name[i])
    ensures Substitute("${" + name + "}", properties) == if name in properties then properties[name] else "${" + name + "}"
  {
    PlaceholderRead(name);
  }

  /** `${name}` on its own is read as the placeholder `name`. */
  lemma PlaceholderRead(name: string)
    requires |name| >= 1 && forall i :: 0 <= i < |name| ==> !IsLineTerminator(name[i])
    ensures VariableOf("${" + name + "}") == Some(name)
  {
    var s := "${" + name + "}";
    assert s[0] == '$' && s[1] == '{';
    var e := LineEnd(s, 2);
    assert forall i :: 2 <= i < |s| ==> !IsLineTerminator(s[i]) by {
      forall i | 2 <= i < |s| ensures !IsLineTerminator(s[i]) {
        if i < |s| - 1 { assert s[i] == name[i - 2]; }
      }
    }
    assert e == |s|;
    assert LastBrace(s, 3, e) == Some(|s| - 1);
    assert s[2..|s| - 1] == name;
  }

  /** A version without `${` is never a placeholder. */
  lemma {:induction false} NoPlaceholder(s: string, p: nat)
    requires p <= |s|
    requires forall i :: p <= i < |s| - 1 ==> !(s[i] == '$' && s[i + 1] == '{')
    ensures VariableFrom(s, p) == None
    decreases |s| - p
  {
    if p + 1 < |s| {
      NoPlaceholder(s, p + 1);
    }
  }

  /** What reading a placeholder from a whole version gives. */
  lemma PlaceholderFacts(version: string)
    ensures VariableOf(version).Some? ==> OccursIn("${" + VariableOf(version).value + "}", version)
    ensures (forall i :: 0 <= i < |version| - 1 ==> !(version[i] == '$' && version[i + 1] == '{')) ==> VariableOf(version).None?
  {
    if VariableOf(version).Some? {
      PlaceholderOccurs(version, 0);
    }
    if forall i :: 0 <= i < |version| - 1 ==> !(version[i] == '$' && version[i + 1] == '{') {
      NoPlaceholder(version, 0);
    }
  }

  ghost predicate OccursIn(w: string, s: string)
  {
    exists i :: 0 <= i <= |s| && w <= s[i..]
  }

  /** A placeholder that is read always occurs in the version as `${name}`. */
  lemma {:induction false} PlaceholderOccurs(s: string, p: nat)
    requires p <= |s| && VariableFrom(s, p).Some?
    ensures OccursIn("${" + VariableFrom(s, p).value + "}", s)
    decreases |s| - p
  {
    if s[p] == '$' && s[p + 1] == '{' && LastBrace(s, p + 3, LineEnd(s, p + 2)).Some? {
      var q := LastBrace(s, p + 3, LineEnd(s, p + 2)).value;
      var x := s[p + 2..q];
      var w := "${" + x + "}";
      assert s[p..p + 2] == "${" && s[q..q + 1] == "}";
      assert s[p..q + 1] == s[p..p + 2] + x + s[q..q + 1];
      assert s[p..][..|w|] == s[p..q + 1];
      assert w <= s[p..];
    } else {
      PlaceholderOccurs(s, p + 1);
    }
  }

  // ---------------------------------------------------------------------
  // The dependency-management table

  /** The version the LAST management entry for `key` declares, if any. */
  function LastDeclared(entries: seq<Declared>, key: string): Option<Option<string>>
  {
    if |entries| == 0 then None
    else
      var d := entries[|entries| - 1];
      if ManagedKey(d.groupId, d.artifactId) == key then Some(d.version)
      else LastDeclared(entries[..|entries| - 1], key)
  }

  predicate AllVersioned(entries: seq<Declared>)
  {
    forall i :: 0 <= i < |entries| ==> entries[i].version.Some?
  }

  /** The POM's own management entries, in order, overwrite the inherited table;
      an entry without `<version>` throws, which the caller turns into `{}`. */
  function ApplyManagement(inherited: Table, entries: seq<Declared>, properties: map<string, string>): (r: Option<Table>)
    ensures r.Some? <==> AllVersioned(entries)
  {
    if |entries| == 0 then Some(inherited)
    else
      var front := ApplyManagement(inherited, entries[..|entries| - 1], properties);
      var d := entries[|entries| - 1];
      assert AllVersioned(entries) <==> AllVersioned(entries[..|entries| - 1]) && d.version.Some? by {
        assert forall i :: 0 <= i < |entries| - 1 ==> entries[..|entries| - 1][i] == entries[i];
      }
      match (front, d.version)
      case (Some(t), Some(v)) => Some(t[ManagedKey(d.groupId, d.artifactId) := Substitute(v, properties)])
      case _ => None
  }

  /** Own entries overwrite inherited ones, the last entry per key winning;
      keys the POM does not manage keep their inherited value. */
  lemma {:induction false} ManagementOverrides(inherited: Table, entries: seq<Declared>, properties: map<string, string>, key: string)
    requires AllVersioned(entries)
    ensures var t := ApplyManagement(inherited, entries, properties).value;
      match LastDeclared(entries, key)
      case Some(v) => v.Some? && key in t && t[key] == Substitute(v.value, properties)
      case None => (key in t <==> key in inherited) && (key in inherited ==> t[key] == inherited[key])
  {
    if |entries| > 0 {
      assert AllVersioned(entries[..|entries| - 1]) by {
        assert forall i :: 0 <= i < |entries| - 1 ==> entries[..|entries| - 1][i] == entries[i];
      }
      assert entries[|entries| - 1].version.Some?;
      ManagementOverrides(inherited, entries[..|entries| - 1], properties, key);
    }
  }

  /** No `<parent>` chain is cyclic: every parent present in the registry
      ranks strictly below its child. */
  ghost predicate Ranked(registry: Registry, rank: map<PomCoord, nat>)
  {
    && registry.Keys <= rank.Keys
    && forall c :: c in registry && registry[c].parent.Some? && registry[c].parent.value in registry ==>
         rank[registry[c].parent.value] < rank[c]
  }

  ghost function Measure(registry: Registry, rank: map<PomCoord, nat>, c: PomCoord): nat
  {
    if c in registry && c in rank then rank[c] + 1 else 0
  }

  /** The management table of `c`, inherited first from its
      `<parent>` (recursively), then overwritten by its own entries with
      placeholders substituted from its own properties. Any failure yields
      the empty table. */
  function InheritedTable(registry: Registry, ghost rank: map<PomCoord, nat>, c: PomCoord): (t: Table)
    requires Ranked(registry, rank)
    ensures c !in registry ==> t == map[]
    decreases Measure(registry, rank, c)
  {
    if c !in registry then map[]
    else
      var pom := registry[c];
      var inherited := match pom.parent
        case None => map[]
        case Some(p) => InheritedTable(registry, rank, p);
      match pom.management
      case None => inherited
      case Some(entries) =>
        match ApplyManagement(inherited, entries, pom.properties)
        case Some(t) => t
        case None => map[]
  }

  /** The table of a POM's parent, or empty when it has none. */
  function ParentTable(registry: Registry, ghost rank: map<PomCoord, nat>, pom: Pom): Table
    requires Ranked(registry, rank)
  {
    match pom.parent
    case None => map[]
    case Some(p) => InheritedTable(registry, rank, p)
  }

  /** The inheritance rule for one key of a fetched POM. */
  lemma InheritanceRule(registry: Registry, rank: map<PomCoord, nat>, c: PomCoord, key: string)
    requires Ranked(registry, rank) && c in registry
    ensures var pom := registry[c];
      var t := InheritedTable(registry, rank, c);
      var up := ParentTable(registry, rank, pom);
      match pom.management
      case None => t == up
      case Some(entries) =>
        && (!AllVersioned(entries) ==> t == map[])
        && (AllVersioned(entries) ==>
              match LastDeclared(entries, key)
              case Some(v) => v.Some? && key in t && t[key] == Substitute(v.value, pom.properties)
              case None => (key in t <==> key in up) && (key in up ==> t[key] == up[key]))
  {
    var pom := registry[c];
    if pom.management.Some? && AllVersioned(pom.management.value) {
      ManagementOverrides(ParentTable(registry, rank, pom), pom.management.value, pom.properties, key);
    }
  }

  // ---------------------------------------------------------------------
  // Declared dependencies

  /** The version a dependency without `<version>` reads from a management
      table: the entry for its key, or `undefined`. */
  function FromTable(t: Table, key: string): DepVersion
  {
    if key in t then Value(t[key]) else Undefined
  }

  /** The version one declared dependency resolves to: an explicit version
      is kept, except that the project-version literal stands for the
      parent's version; a missing one is read from the managed table. */
  function ResolveVersion(d: Declared, parentVersion: DepVersion, managed: Table): DepVersion
  {
    match d.version
    case Some(v) => if v == ProjectVersion then parentVersion else Value(v)
    case None =>
      var key := ManagedKey(d.groupId, d.artifactId);
      if key in managed then Value(managed[key]) else Undefined
  }

  /** The table a POM's versionless dependencies read: its parent's
      inherited table when the parent names a version, else nothing. */
  function ManagedFor(registry: Registry, ghost rank: map<PomCoord, nat>, pom: Pom): Table
    requires Ranked(registry, rank)
  {
    match pom.parent
    case Some(p) => if p.version != "" then InheritedTable(registry, rank, p) else map[]
    case None => map[]
  }

  /** The dependencies a POM declares, with resolved versions; None
      (JavaScript's `null`) when the POM cannot be fetched or has no
      `<dependency>` under its `<dependencies>`: the parser reads an empty
      section as a string, whose `dependency` field is missing, and the
      resulting TypeError is caught. */
  function DependenciesOf(registry: Registry, ghost rank: map<PomCoord, nat>, groupId: string, artifactId: string, version: string): (r: Option<seq<Dependency>>)
    requires Ranked(registry, rank)
    ensures r.Some? <==> PomCoord(groupId, artifactId, version) in registry
                         && registry[PomCoord(groupId, artifactId, version)].dependencies.Some?
                         && |registry[PomCoord(groupId, artifactId, version)].dependencies.value| > 0
    ensures r.Some? ==>
      var pom := registry[PomCoord(groupId, artifactId, version)];
      var ds := pom.dependencies.value;
      && |r.value| == |ds|
      && forall i :: 0 <= i < |ds| ==>
           && r.value[i].groupId == ds[i].groupId && r.value[i].artifactId == ds[i].artifactId
           && (ds[i].version.Some? && ds[i].version.value != ProjectVersion ==> r.value[i].version == Value(ds[i].version.value))
           && (ds[i].version == Some(ProjectVersion) ==>
                 r.value[i].version == if pom.parent.Some? then Value(pom.parent.value.version) else Null)
           && (ds[i].version.None? ==>
                 r.value[i].version == FromTable(ManagedFor(registry, rank, pom), ManagedKey(ds[i].groupId, ds[i].artifactId)))
           && (ds[i].version.None? && pom.parent.None? ==> r.value[i].version == Undefined)
  {
    var c := PomCoord(groupId, artifactId, version);
    if c !in registry then None
    else
      var pom := registry[c];
      var parentVersion := match pom.parent case None => Null case Some(p) => Value(p.version);
      match pom.dependencies
      case None => None
      case Some(ds) =>
        if |ds| == 0 then None
        else Some(seq(|ds|, i requires 0 <= i < |ds| =>
          Dependency(ds[i].groupId, ds[i].artifactId, ResolveVersion(ds[i], parentVersion, ManagedFor(registry, rank, pom)))))
  }

  /** A dependency without `<version>`, in a POM with a parent: when the
      parent names no version or cannot be fetched it stays `undefined`;
      otherwise it takes the parent's last management entry for its key,
      with the parent's placeholders substituted, and failing that the
      grandparent chain's entry. The project-version literal resolves to the
      parent's version. */
  lemma ParentManagementApplies(registry: Registry, rank: map<PomCoord, nat>, c: PomCoord, i: nat)
    requires Ranked(registry, rank) && c in registry && registry[c].dependencies.Some?
    requires i < |registry[c].dependencies.value| && registry[c].parent.Some?
    ensures var pom := registry[c];
      var p := pom.parent.value;
      var d := pom.dependencies.value[i];
      var key := ManagedKey(d.groupId, d.artifactId);
      var r := DependenciesOf(registry, rank, c.groupId, c.artifactId, c.version).value[i];
      && (d.version == Some(ProjectVersion) ==> r.version == Value(p.version))
      && (d.version.None? && (p.version == "" || p !in registry) ==> r.version == Undefined)
      && (d.version.None? && p.version != "" && p in registry ==>
            var up := registry[p];
            match up.management
            case None => r.version == FromTable(ParentTable(registry, rank, up), key)
            case Some(entries) =>
              if !AllVersioned(entries) then r.version == Undefined
              else match LastDeclared(entries, key)
                case Some(v) => v.Some? && r.version == Value(Substitute(v.value, up.properties))
                case None => r.version == FromTable(ParentTable(registry, rank, up), key))
  {
    var pom := registry[c];
    var d := pom.dependencies.value[i];
    if pom.parent.value in registry {
      InheritanceRule(registry, rank, pom.parent.value, ManagedKey(d.groupId, d.artifactId));
    }
  }
}
