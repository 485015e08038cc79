/**
 * Reference semantics of `PatchProject`: what each dependency entry, the
 * pending set, the dependency-management list and the property table become,
 * stated entry by entry.
 */
module PatchSpec {
  import opened Wrappers
  import opened Pom

  /** A requested version for one (groupId, artifactId). */
  datatype Patch = Patch(groupId: string, artifactId: string, version: string)

  /** Ways the Go code faults by dereferencing or writing through nil. */
  datatype Panic =
    | NilManagedList      // `*project.DependencyManagement.Dependencies` with a nil list
    | NilPropertyEntries  // assignment into a nil `Properties.Entries` map

  datatype Outcome =
    | Patched(project: Project)
    | Rejected            // "project is nil"
    | Panicked(cause: Panic)

  /** The patch names the entry's group and artifact (the version is not compared). */
  predicate Matches(d: Dependency, p: Patch) {
    d.artifactId == p.artifactId && d.groupId == p.groupId
  }

  predicate SameKey(p: Patch, q: Patch) {
    p.groupId == q.groupId && p.artifactId == q.artifactId
  }

  /** No two patches name the same group and artifact. */
  predicate DistinctKeys(patches: seq<Patch>) {
    forall i, j :: 0 <= i < j < |patches| ==> !SameKey(patches[i], patches[j])
  }

  /** Index `i` is the last patch, in list order, that matches `d`. */
  predicate IsLastMatch(patches: seq<Patch>, d: Dependency, i: int) {
    0 <= i < |patches| && Matches(d, patches[i]) &&
    forall j :: i < j < |patches| ==> !Matches(d, patches[j])
  }

  /** The version of the last patch matching `d`, if any patch matches it. */
  function LastMatch(patches: seq<Patch>, d: Dependency): (r: Option<string>)
    ensures r.None? <==> forall i :: 0 <= i < |patches| ==> !Matches(d, patches[i])
    ensures forall i :: IsLastMatch(patches, d, i) ==> r == Some(patches[i].version)
    decreases |patches|
  {
    if |patches| == 0 then None
    else if Matches(d, patches[|patches| - 1]) then Some(patches[|patches| - 1].version)
    else
      var r := LastMatch(patches[..|patches| - 1], d);
      assert forall i :: IsLastMatch(patches, d, i) ==> IsLastMatch(patches[..|patches| - 1], d, i);
      r
  }

  /** An entry after every matching patch has been applied to it in list order. */
  function PatchEntry(d: Dependency, patches: seq<Patch>): (r: Dependency)
    ensures r.groupId == d.groupId && r.artifactId == d.artifactId
    ensures (forall i :: 0 <= i < |patches| ==> !Matches(d, patches[i])) ==> r.version == d.version
    ensures forall i :: IsLastMatch(patches, d, i) ==> r.version == patches[i].version
  {
    match LastMatch(patches, d)
    case None => d
    case Some(v) => d.(version := v)
  }

  /** A list with every entry patched in place; nothing is added or removed. */
  function PatchList(deps: seq<Dependency>, patches: seq<Patch>): seq<Dependency>
  {
    seq(|deps|, k requires 0 <= k < |deps| => PatchEntry(deps[k], patches))
  }

  function PatchOptional(deps: Option<seq<Dependency>>, patches: seq<Patch>): Option<seq<Dependency>> {
    if deps.Some? then Some(PatchList(deps.value, patches)) else None
  }

  /** Some entry of `deps` has the patch's group and artifact. */
  predicate Covered(p: Patch, deps: seq<Dependency>) {
    exists k :: 0 <= k < |deps| && Matches(deps[k], p)
  }

  /** The patches, as whole triples, that no entry of either original list matches. */
  function Pending(patches: seq<Patch>, deps: seq<Dependency>, managed: seq<Dependency>): set<Patch>
  {
    set p | p in patches && !Covered(p, deps) && !Covered(p, managed)
  }

  function PendingIn(p: Project, patches: seq<Patch>): set<Patch> {
    Pending(patches, ListOf(p.dependencies), ManagedListOf(p.dependencyManagement))
  }

  /** No element occurs twice. */
  predicate Distinct<T(==)>(s: seq<T>) {
    forall i, j :: 0 <= i < j < |s| ==> s[i] != s[j]
  }

  /** `adds` lists every element of `s` exactly once, in some order. */
  predicate Enumerates(adds: seq<Patch>, s: set<Patch>) {
    Distinct(adds) && (forall p :: p in adds ==> p in s) && (forall p :: p in s ==> p in adds)
  }

  function AsDependency(p: Patch): Dependency {
    Dependency(p.groupId, p.artifactId, p.version)
  }

  /** The new dependency-management entries built from the pending patches. */
  function Entries(adds: seq<Patch>): seq<Dependency>
  {
    seq(|adds|, i requires 0 <= i < |adds| => AsDependency(adds[i]))
  }

  /** Writing the property patches would not assign into a nil entry map. */
  predicate Writable(current: Option<Properties>, patch: map<string, string>) {
    !(current.Some? && current.value.entries.None? && |patch| > 0)
  }

  /** The property table after the blind, last-write-wins merge. */
  function MergeProperties(current: Option<Properties>, patch: map<string, string>): (r: Properties)
    requires Writable(current, patch)
    ensures current.None? ==> r.entries == Some(patch)
    ensures current.Some? && current.value.entries.None? ==> r == current.value
    ensures current.Some? && current.value.entries.Some? ==>
      var old_ := current.value.entries.value;
      r.entries.Some? &&
      (forall k :: k in r.entries.value <==> k in old_ || k in patch) &&
      (forall k :: k in patch ==> r.entries.value[k] == patch[k]) &&
      (forall k :: k in old_ && k !in patch ==> r.entries.value[k] == old_[k])
  {
    match current
    case None => Properties(Some(patch))
    case Some(props) =>
      match props.entries
      case None => props
      case Some(m) => Properties(Some(m + patch))
  }

  /** The project rebuilt from its patched parts. */
  function Rebuild(p: Project, patches: seq<Patch>, props: map<string, string>,
                   managed: Option<seq<Dependency>>): Project
    requires Writable(p.properties, props)
  {
    Project(PatchOptional(p.dependencies, patches),
            Some(DependencyManagement(managed)),
            Some(MergeProperties(p.properties, props)))
  }

  /** `adds` is an order in which Go may iterate the pending set. */
  predicate IterationOrder(project: Option<Project>, patches: seq<Patch>, adds: seq<Patch>) {
    project.Some? ==> Enumerates(adds, PendingIn(project.value, patches))
  }

  /**
   * `PatchProject` as written, for the iteration order `adds` of the pending
   * set. An absent section is allocated without a list, so appending to it
   * faults.
   */
  function Apply(project: Option<Project>, patches: seq<Patch>, props: map<string, string>,
                 adds: seq<Patch>): (r: Outcome)
    requires IterationOrder(project, patches, adds)
    ensures r.Rejected? <==> project.None?
    ensures r.Panicked? <==>
      (project.Some? &&
       (HasNilManagedList(project.value) ||
        (project.value.dependencyManagement.None? && PendingIn(project.value, patches) != {}) ||
        !Writable(project.value.properties, props)))
    ensures r.Panicked? ==>
      (r.cause == NilPropertyEntries <==>
       !HasNilManagedList(project.value) &&
       !(project.value.dependencyManagement.None? && PendingIn(project.value, patches) != {}))
    ensures r.Patched? ==> r.project.dependencyManagement.Some?
  {
    if project.None? then Rejected
    else
      var p := project.value;
      if HasNilManagedList(p) then Panicked(NilManagedList)
      else if p.dependencyManagement.None? && adds != [] then
        assert adds[0] in PendingIn(p, patches);
        Panicked(NilManagedList)
      else if !Writable(p.properties, props) then Panicked(NilPropertyEntries)
      else if p.dependencyManagement.None? then Patched(Rebuild(p, patches, props, None))
      else
        var managed := p.dependencyManagement.value.dependencies.value;
        Patched(Rebuild(p, patches, props, Some(PatchList(managed, patches) + Entries(adds))))
  }
}
