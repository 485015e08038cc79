/**
 * `PatchProject` written the way the Go code runs: nested loops over entries
 * and patches, a set of still-missing patches, and additions taken from that
 * set in whatever order the runtime picks.
 */
module Patcher {
  import opened Wrappers
  import opened Pom
  import opened PatchSpec

  /**
   * The inner loop for one entry: every patch is compared with it in list
   * order; a match overwrites its version and deletes that patch from
   * `missing`.
   */
  method PatchOne(d: Dependency, patches: seq<Patch>, missing0: set<Patch>)
    returns (dep: Dependency, missing: set<Patch>)
    ensures dep == PatchEntry(d, patches)
    ensures forall p :: p in missing <==> p in missing0 && !(p in patches && Matches(d, p))
  {
    dep := d;
    missing := missing0;
    for j := 0 to |patches|
      invariant dep == PatchEntry(d, patches[..j])
      invariant forall p :: p in missing <==> p in missing0 && !(p in patches[..j] && Matches(d, p))
    {
      var patch := patches[j];
      assert patches[..j + 1] == patches[..j] + [patch];
      assert patches[..j + 1][..j] == patches[..j];
      if dep.artifactId == patch.artifactId && dep.groupId == patch.groupId {
        dep := dep.(version := patch.version);
        missing := missing - {patch};
      }
    }
    assert patches[..|patches|] == patches;
  }

  /** Extending a list by one entry covers what that entry matches. */
  lemma CoveredExtend(p: Patch, entries: seq<Dependency>, k: int)
    requires 0 <= k < |entries|
    ensures Covered(p, entries[..k + 1]) <==> Covered(p, entries[..k]) || Matches(entries[k], p)
  {
    if Covered(p, entries[..k + 1]) {
      var m :| 0 <= m < k + 1 && Matches(entries[..k + 1][m], p);
      if m < k {
        assert entries[..k][m] == entries[m];
      }
    }
    if Matches(entries[k], p) {
      assert entries[..k + 1][k] == entries[k];
    }
    if Covered(p, entries[..k]) {
      var m :| 0 <= m < k && Matches(entries[..k][m], p);
      assert entries[..k + 1][m] == entries[m];
    }
  }

  lemma PatchListExtend(entries: seq<Dependency>, k: int, patches: seq<Patch>)
    requires 0 <= k < |entries|
    ensures PatchList(entries[..k + 1], patches) == PatchList(entries[..k], patches) + [PatchEntry(entries[k], patches)]
  {
    var a := PatchList(entries[..k + 1], patches);
    var b := PatchList(entries[..k], patches) + [PatchEntry(entries[k], patches)];
    assert |a| == |b|;
    forall m | 0 <= m < |a| ensures a[m] == b[m] {
      assert entries[..k + 1][m] == entries[m];
      if m < k {
        assert entries[..k][m] == entries[m];
      }
    }
  }

  /**
   * One scan of a dependency list: every entry is patched in place and every
   * patch that some entry matches is deleted from `missing`.
   */
  method PatchEntries(entries: seq<Dependency>, patches: seq<Patch>, missing0: set<Patch>)
    returns (patched: seq<Dependency>, missing: set<Patch>)
    ensures patched == PatchList(entries, patches)
    ensures forall p :: p in missing <==> p in missing0 && !(p in patches && Covered(p, entries))
  {
    patched := [];
    missing := missing0;
    for k := 0 to |entries|
      invariant patched == PatchList(entries[..k], patches)
      invariant forall p :: p in missing <==> p in missing0 && !(p in patches && Covered(p, entries[..k]))
    {
      var dep, missing' := PatchOne(entries[k], patches, missing);
      forall p | p in patches {
        CoveredExtend(p, entries, k);
      }
      PatchListExtend(entries, k, patches);
      patched, missing := patched + [dep], missing';
    }
    assert entries[..|entries|] == entries;
  }

  /** Appends one new entry per missing patch, iterating the set in any order. */
  method AppendMissing(managed0: Option<seq<Dependency>>, missing: set<Patch>)
    returns (managed: Option<seq<Dependency>>, ghost adds: seq<Patch>)
    ensures Enumerates(adds, missing)
    ensures missing == {} ==> adds == []
    ensures managed0.None? && missing != {} ==> managed.None?
    ensures managed0.None? && missing == {} ==> managed == managed0
    ensures managed0.Some? ==> managed == Some(managed0.value + Entries(adds))
  {
    managed := managed0;
    adds := [];
    var remaining := missing;
    assert managed0.Some? ==> managed0.value + Entries(adds) == managed0.value;
    while remaining != {}
      invariant remaining <= missing
      invariant missing == {} ==> adds == []
      invariant Distinct(adds)
      invariant forall p :: p in adds <==> p in missing && p !in remaining
      invariant managed0.None? ==> managed == None && adds == [] && remaining == missing
      invariant managed0.Some? ==> managed == Some(managed0.value + Entries(adds))
      decreases remaining
    {
      var md :| md in remaining;
      if managed.None? {
        // the append dereferences the nil list pointer
        var rest :| Enumerates(rest, missing) by {
          EnumerationExists(missing);
        }
        return None, rest;
      }
      assert managed0.value + Entries(adds + [md]) == managed.value + [AsDependency(md)];
      managed := Some(managed.value + [AsDependency(md)]);
      adds := adds + [md];
      remaining := remaining - {md};
    }
  }

  /** Every finite set of patches has some enumeration. */
  lemma {:induction false} EnumerationExists(s: set<Patch>)
    ensures exists adds :: Enumerates(adds, s)
    decreases |s|
  {
    if s == {} {
      assert Enumerates([], s);
    } else {
      var x :| x in s;
      EnumerationExists(s - {x});
      var rest :| Enumerates(rest, s - {x});
      assert Enumerates(rest + [x], s);
    }
  }

  /** The blind property merge: installs the patch map or writes each key into the table. */
  method MergeInto(current: Option<Properties>, patch: map<string, string>)
    returns (r: Option<Properties>, ok: bool)
    ensures ok <==> Writable(current, patch)
    ensures ok ==> r == Some(MergeProperties(current, patch))
  {
    if current.None? {
      return Some(Properties(Some(patch))), true;
    }
    var entries := current.value.entries;
    var keys := patch.Keys;
    while keys != {}
      invariant keys <= patch.Keys
      invariant entries.None? ==> keys == patch.Keys && current.value.entries.None?
      invariant entries.Some? ==> current.value.entries.Some?
      invariant entries.Some? ==> forall k :: k in entries.value <==>
        k in current.value.entries.value || (k in patch && k !in keys)
      invariant entries.Some? ==> forall k :: k in entries.value ==>
        entries.value[k] == (if k in patch && k !in keys then patch[k] else current.value.entries.value[k])
      decreases keys
    {
      var k :| k in keys;
      if entries.None? {
        // assignment into a nil map
        assert k in patch;
        return current, false;
      }
      entries := Some(entries.value[k := patch[k]]);
      keys := keys - {k};
    }
    if entries.Some? {
      assert entries.value == current.value.entries.value + patch;
    } else {
      assert patch.Keys == {};
      assert patch == map[];
    }
    return Some(Properties(entries)), true;
  }

  /** `PatchProject`: rejects a nil project, otherwise patches it or faults as Go would. */
  method PatchProject(project: Option<Project>, patches: seq<Patch>, propertyPatches: map<string, string>)
    returns (r: Outcome)
    ensures exists adds :: IterationOrder(project, patches, adds) && r == Apply(project, patches, propertyPatches, adds)
  {
    if project.None? {
      assert IterationOrder(project, patches, []);
      return Rejected;
    }
    var proj := project.value;
    var missing: set<Patch> := {};
    for i := 0 to |patches|
      invariant forall p :: p in missing <==> p in patches[..i]
    {
      assert patches[..i + 1] == patches[..i] + [patches[i]];
      missing := missing + {patches[i]};
    }
    assert patches[..|patches|] == patches;

    var deps := proj.dependencies;
    if deps.Some? {
      var patched;
      patched, missing := PatchEntries(deps.value, patches, missing);
      assert patched == PatchList(deps.value, patches);
      deps := Some(patched);
    }
    assert deps == PatchOptional(proj.dependencies, patches);

    var section := proj.dependencyManagement;
    if section.Some? {
      if section.value.dependencies.None? {
        EnumerationExists(PendingIn(proj, patches));
        ghost var w :| Enumerates(w, PendingIn(proj, patches));
        assert Apply(project, patches, propertyPatches, w) == Panicked(NilManagedList);
        return Panicked(NilManagedList);
      }
      var patched;
      patched, missing := PatchEntries(section.value.dependencies.value, patches, missing);
      assert patched == PatchList(section.value.dependencies.value, patches);
      section := Some(DependencyManagement(Some(patched)));
    }
    assert missing == PendingIn(proj, patches);

    if section.None? {
      section := Some(DependencyManagement(None));
    }
    var managed;
    ghost var adds;
    managed, adds := AppendMissing(section.value.dependencies, missing);
    assert IterationOrder(project, patches, adds);
    if managed.None? && missing != {} {
      assert adds != [] by {
        var x :| x in missing;
        assert x in adds;
      }
      return Panicked(NilManagedList);
    }
    assert proj.dependencyManagement.None? ==> adds == [];

    var properties, ok := MergeInto(proj.properties, propertyPatches);
    if !ok {
      assert Apply(project, patches, propertyPatches, adds) == Panicked(NilPropertyEntries);
      return Panicked(NilPropertyEntries);
    }
    r := Patched(Project(deps, Some(DependencyManagement(managed)), properties));
    assert r == Apply(project, patches, propertyPatches, adds);
  }
}
