/**
 * The dependency-management section allocated for a project that had none is
 * given no list, so appending to it faults, and a later call on the returned
 * project faults at the first scan of that list. `ApplyCorrected` allocates
 * the section with an empty list instead.
 */
module AllocatedSectionFix {
  import opened Wrappers
  import opened Pom
  import opened PatchSpec
  import opened PatchLemmas

  /** `PatchProject` with the missing section allocated holding an empty list. */
  function ApplyCorrected(project: Option<Project>, patches: seq<Patch>, props: map<string, string>,
                          adds: seq<Patch>): (r: Outcome)
    requires IterationOrder(project, patches, adds)
    ensures r.Rejected? <==> project.None?
    ensures r.Panicked? <==>
      (project.Some? && (HasNilManagedList(project.value) || !Writable(project.value.properties, props)))
    ensures r.Patched? ==>
      r.project.dependencyManagement.Some? && r.project.dependencyManagement.value.dependencies.Some?
  {
    if project.None? then Rejected
    else
      var p := project.value;
      if HasNilManagedList(p) then Panicked(NilManagedList)
      else if !Writable(p.properties, props) then Panicked(NilPropertyEntries)
      else
        var managed := ManagedListOf(p.dependencyManagement);
        Patched(Rebuild(p, patches, props, Some(PatchList(managed, patches) + Entries(adds))))
  }

  /** The project with an absent section replaced by a section holding an empty list. */
  function WithList(p: Project): Project {
    if p.dependencyManagement.None? then p.(dependencyManagement := Some(DependencyManagement(Some([]))))
    else p
  }

  /**
   * The corrected call is the original call on a project whose section was
   * allocated, with an empty list, beforehand; where the section exists the
   * two agree.
   */
  lemma CorrectedIsAllocationFirst(p: Project, patches: seq<Patch>, props: map<string, string>, adds: seq<Patch>)
    requires IterationOrder(Some(p), patches, adds)
    ensures PendingIn(WithList(p), patches) == PendingIn(p, patches)
    ensures IterationOrder(Some(WithList(p)), patches, adds)
    ensures ApplyCorrected(Some(p), patches, props, adds) == Apply(Some(WithList(p)), patches, props, adds)
    ensures p.dependencyManagement.Some? ==>
      ApplyCorrected(Some(p), patches, props, adds) == Apply(Some(p), patches, props, adds)
  {
    assert ManagedListOf(WithList(p).dependencyManagement) == ManagedListOf(p.dependencyManagement);
    assert PatchList([], patches) == [];
  }

  /**
   * Corrected: every pending patch is added, whether or not the section
   * existed; the call faults only for a section without a list or a nil
   * property map it must write to.
   */
  lemma CorrectedAddsPending(p: Project, patches: seq<Patch>, props: map<string, string>, adds: seq<Patch>)
    requires IterationOrder(Some(p), patches, adds)
    requires !HasNilManagedList(p) && Writable(p.properties, props)
    ensures ApplyCorrected(Some(p), patches, props, adds).Patched?
    ensures var orig := ManagedListOf(p.dependencyManagement);
      var after := ManagedListOf(ApplyCorrected(Some(p), patches, props, adds).project.dependencyManagement);
      |after| == |orig| + |PendingIn(p, patches)| &&
      forall q :: q in patches ==> (AsDependency(q) in after[|orig|..] <==> q in PendingIn(p, patches))
  {
    CorrectedIsAllocationFirst(p, patches, props, adds);
    AdditionsArePending(WithList(p), patches, props, adds);
  }

  /**
   * Corrected: with pairwise-distinct keys, a second call with the same
   * inputs finds nothing pending and returns the project unchanged.
   */
  lemma CorrectedIdempotent(p: Project, patches: seq<Patch>, props: map<string, string>, adds: seq<Patch>)
    requires DistinctKeys(patches)
    requires IterationOrder(Some(p), patches, adds)
    requires ApplyCorrected(Some(p), patches, props, adds).Patched?
    ensures var p1 := ApplyCorrected(Some(p), patches, props, adds).project;
      IterationOrder(Some(p1), patches, []) &&
      ApplyCorrected(Some(p1), patches, props, []) == Patched(p1)
  {
    CorrectedIsAllocationFirst(p, patches, props, adds);
    IdempotentWithSection(WithList(p), patches, props, adds);
    var p1 := ApplyCorrected(Some(p), patches, props, adds).project;
    CorrectedIsAllocationFirst(p1, patches, props, []);
  }

  /** As written: a patch that matches nothing, on a project without a section, faults. */
  lemma AbsentSectionAdditionPanics()
    ensures var p := Project(None, None, None);
      var patches := [Patch("x", "y", "3.0")];
      PendingIn(p, patches) == {Patch("x", "y", "3.0")} &&
      (forall adds :: IterationOrder(Some(p), patches, adds) ==>
        Apply(Some(p), patches, map[], adds) == Panicked(NilManagedList) &&
        ApplyCorrected(Some(p), patches, map[], adds).Patched?)
  {
    var p := Project(None, None, None);
    var patches := [Patch("x", "y", "3.0")];
    assert PendingIn(p, patches) == {Patch("x", "y", "3.0")} by {
      assert !Covered(patches[0], []);
    }
  }

  /**
   * As written: a call that succeeds on a project without a section returns
   * one whose section has no list, and the same call on that result faults.
   */
  lemma SecondCallPanics()
    ensures var p := Project(Some([Dependency("G", "A", "1.0")]), None, None);
      var patches := [Patch("G", "A", "2.0")];
      var p1 := Project(Some([Dependency("G", "A", "2.0")]), Some(DependencyManagement(None)),
                        Some(Properties(Some(map[]))));
      IterationOrder(Some(p), patches, []) &&
      Apply(Some(p), patches, map[], []) == Patched(p1) &&
      IterationOrder(Some(p1), patches, []) &&
      Apply(Some(p1), patches, map[], []) == Panicked(NilManagedList)
  {
    var d := Dependency("G", "A", "1.0");
    var patches := [Patch("G", "A", "2.0")];
    assert Covered(patches[0], [d]) by {
      assert Matches([d][0], patches[0]);
    }
    assert IsLastMatch(patches, d, 0);
    assert PatchList([d], patches) == [Dependency("G", "A", "2.0")];
    var d1 := Dependency("G", "A", "2.0");
    assert Covered(patches[0], [d1]) by {
      assert Matches([d1][0], patches[0]);
    }
  }
}
