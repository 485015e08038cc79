/**
 * Properties of `PatchProject` that relate its result to its inputs, to other
 * iteration orders of the pending set, and to a second call.
 */
module PatchLemmas {
  import opened Wrappers
  import opened Pom
  import opened PatchSpec

  // ---------------------------------------------------------------------
  // Facts about single entries and lists
  // ---------------------------------------------------------------------

  /** Which patch wins depends only on the entry's group and artifact. */
  lemma {:induction false} LastMatchKeyOnly(patches: seq<Patch>, d: Dependency, e: Dependency)
    requires d.groupId == e.groupId && d.artifactId == e.artifactId
    ensures LastMatch(patches, d) == LastMatch(patches, e)
    decreases |patches|
  {
    if |patches| > 0 {
      LastMatchKeyOnly(patches[..|patches| - 1], d, e);
    }
  }

  /** Patching an entry a second time with the same patches changes nothing. */
  lemma PatchEntryIdempotent(d: Dependency, patches: seq<Patch>)
    ensures PatchEntry(PatchEntry(d, patches), patches) == PatchEntry(d, patches)
  {
    LastMatchKeyOnly(patches, d, PatchEntry(d, patches));
  }

  lemma PatchListIdempotent(deps: seq<Dependency>, patches: seq<Patch>)
    ensures PatchList(PatchList(deps, patches), patches) == PatchList(deps, patches)
  {
    forall k | 0 <= k < |deps| {
      PatchEntryIdempotent(deps[k], patches);
    }
  }

  lemma PatchListAppend(a: seq<Dependency>, b: seq<Dependency>, patches: seq<Patch>)
    ensures PatchList(a + b, patches) == PatchList(a, patches) + PatchList(b, patches)
  {
    var l := PatchList(a + b, patches);
    var la := PatchList(a, patches);
    var lb := PatchList(b, patches);
    assert |l| == |la| + |lb|;
    forall k | 0 <= k < |l| ensures l[k] == (la + lb)[k] {
      if k < |a| {
        assert (a + b)[k] == a[k];
        assert l[k] == la[k];
      } else {
        assert (a + b)[k] == b[k - |a|];
        assert l[k] == lb[k - |a|];
      }
    }
  }

  /**
   * With pairwise-distinct keys, the entry added for a patch already carries
   * the version that patch asks for.
   */
  lemma AddedEntryStable(q: Patch, patches: seq<Patch>)
    requires DistinctKeys(patches)
    requires q in patches
    ensures PatchEntry(AsDependency(q), patches) == AsDependency(q)
  {
    var i :| 0 <= i < |patches| && patches[i] == q;
    assert IsLastMatch(patches, AsDependency(q), i) by {
      forall j | i < j < |patches|
        ensures !Matches(AsDependency(q), patches[j])
      {
        assert !SameKey(patches[i], patches[j]);
      }
    }
  }

  lemma EntriesStable(adds: seq<Patch>, patches: seq<Patch>)
    requires DistinctKeys(patches)
    requires forall q :: q in adds ==> q in patches
    ensures PatchList(Entries(adds), patches) == Entries(adds)
  {
    forall i | 0 <= i < |adds|
      ensures PatchList(Entries(adds), patches)[i] == Entries(adds)[i]
    {
      AddedEntryStable(adds[i], patches);
    }
  }

  // ---------------------------------------------------------------------
  // Enumerations of the pending set
  // ---------------------------------------------------------------------

  /** An enumeration lists as many patches as the set holds. */
  lemma {:induction false} EnumerationLength(adds: seq<Patch>, s: set<Patch>)
    requires Enumerates(adds, s)
    ensures |adds| == |s|
    decreases |adds|
  {
    if adds == [] {
      assert s == {};
    } else {
      var x := adds[|adds| - 1];
      var init := adds[..|adds| - 1];
      assert adds == init + [x];
      assert Enumerates(init, s - {x}) by {
        forall p | p in init ensures p in s - {x} {
          var i :| 0 <= i < |init| && init[i] == p;
          assert adds[i] != adds[|adds| - 1];
        }
        forall p | p in s - {x} ensures p in init {
          assert p in adds;
        }
      }
      EnumerationLength(init, s - {x});
    }
  }

  /** Removing one element of a duplicate-free list removes exactly that value. */
  lemma DistinctRemove<T>(b: seq<T>, k: int)
    requires Distinct(b) && 0 <= k < |b|
    ensures Distinct(b[..k] + b[k + 1..])
    ensures forall y :: y in b[..k] + b[k + 1..] <==> y in b && y != b[k]
    ensures multiset(b) == multiset(b[..k] + b[k + 1..]) + multiset{b[k]}
  {
    var b' := b[..k] + b[k + 1..];
    assert |b'| == |b| - 1;
    assert forall m :: 0 <= m < |b'| ==> b'[m] == b[if m < k then m else m + 1];
    assert b == b[..k] + [b[k]] + b[k + 1..];
    forall y | y in b ensures y in b' || y == b[k] {
      var m :| 0 <= m < |b| && b[m] == y;
      if m < k {
        assert b'[m] == y;
      } else if m > k {
        assert b'[m - 1] == y;
      }
    }
  }

  /** Two duplicate-free lists with the same elements are permutations of each other. */
  lemma {:induction false} DistinctSameElements<T>(a: seq<T>, b: seq<T>)
    requires Distinct(a) && Distinct(b) && |a| == |b|
    requires forall x :: x in a ==> x in b
    requires forall x :: x in b ==> x in a
    ensures multiset(a) == multiset(b)
    decreases |a|
  {
    if a != [] {
      var x := a[|a| - 1];
      var a' := a[..|a| - 1];
      assert a == a' + [x];
      DistinctRemove(a, |a| - 1);
      assert a[..|a| - 1] + a[|a|..] == a';
      assert x in a;
      var k :| 0 <= k < |b| && b[k] == x;
      DistinctRemove(b, k);
      var b' := b[..k] + b[k + 1..];
      forall y | y in a' ensures y in b' {
        assert y in a;
      }
      forall y | y in b' ensures y in a' {
        assert y in b;
      }
      DistinctSameElements(a', b');
    }
  }

  lemma EntriesDistinct(adds: seq<Patch>)
    requires Distinct(adds)
    ensures Distinct(Entries(adds))
  {
    forall i, j | 0 <= i < j < |adds|
      ensures Entries(adds)[i] != Entries(adds)[j]
    {
      assert adds[i] != adds[j];
    }
  }

  // ---------------------------------------------------------------------
  // The outcome of one call
  // ---------------------------------------------------------------------

  /**
   * The direct dependency list keeps its length and every entry's position,
   * group and artifact; each version becomes that of the last matching
   * patch, or stays as it was.
   */
  lemma DependenciesPatchedInPlace(project: Option<Project>, patches: seq<Patch>,
                                   props: map<string, string>, adds: seq<Patch>)
    requires IterationOrder(project, patches, adds)
    requires Apply(project, patches, props, adds).Patched?
    ensures var before := project.value.dependencies;
      var after := Apply(project, patches, props, adds).project.dependencies;
      after.Some? == before.Some? &&
      (before.Some? ==>
        |after.value| == |before.value| &&
        forall k :: 0 <= k < |before.value| ==>
          after.value[k].groupId == before.value[k].groupId &&
          after.value[k].artifactId == before.value[k].artifactId &&
          (forall i :: IsLastMatch(patches, before.value[k], i) ==> after.value[k].version == patches[i].version) &&
          ((forall i :: 0 <= i < |patches| ==> !Matches(before.value[k], patches[i])) ==> after.value[k] == before.value[k]))
  {
  }

  /** The entries built from an enumeration of `s` are one per element of `s`. */
  lemma EntriesOfEnumeration(adds: seq<Patch>, s: set<Patch>)
    requires Enumerates(adds, s)
    ensures |Entries(adds)| == |s|
    ensures Distinct(Entries(adds))
    ensures forall q :: AsDependency(q) in Entries(adds) <==> q in s
    ensures forall e :: e in Entries(adds) ==> exists q :: q in s && e == AsDependency(q)
  {
    EnumerationLength(adds, s);
    EntriesDistinct(adds);
    var added := Entries(adds);
    forall q ensures AsDependency(q) in added <==> q in s {
      if AsDependency(q) in added {
        var i :| 0 <= i < |added| && added[i] == AsDependency(q);
        assert adds[i] == q;
      }
      if q in s {
        var i :| 0 <= i < |adds| && adds[i] == q;
        assert added[i] == AsDependency(q);
      }
    }
    forall e | e in added ensures exists q :: q in s && e == AsDependency(q) {
      var i :| 0 <= i < |added| && added[i] == e;
      assert adds[i] in s;
    }
  }

  /** The dependency-management list after a successful call, in terms of the iteration order. */
  lemma ManagedAfterCall(p: Project, patches: seq<Patch>, props: map<string, string>, adds: seq<Patch>)
    requires IterationOrder(Some(p), patches, adds)
    requires Apply(Some(p), patches, props, adds).Patched?
    ensures ManagedListOf(Apply(Some(p), patches, props, adds).project.dependencyManagement) ==
      PatchList(ManagedListOf(p.dependencyManagement), patches) + Entries(adds)
  {
    if p.dependencyManagement.None? {
      EnumerationLength(adds, PendingIn(p, patches));
      assert PendingIn(p, patches) == {};
    }
  }

  /**
   * The dependency-management list is the original one patched in place by
   * the same rule, followed by exactly one new entry per pending patch:
   * the additions are duplicate-free, and a patch is added exactly when no
   * entry of either original list has its group and artifact.
   */
  lemma AdditionsArePending(p: Project, patches: seq<Patch>, props: map<string, string>, adds: seq<Patch>)
    requires IterationOrder(Some(p), patches, adds)
    requires Apply(Some(p), patches, props, adds).Patched?
    ensures var orig := ManagedListOf(p.dependencyManagement);
      var after := ManagedListOf(Apply(Some(p), patches, props, adds).project.dependencyManagement);
      var added := after[|orig|..];
      |orig| <= |after| &&
      |added| == |PendingIn(p, patches)| &&
      (forall k :: 0 <= k < |orig| ==> after[k] == PatchEntry(orig[k], patches)) &&
      Distinct(added) &&
      (forall q :: q in patches ==>
        (AsDependency(q) in added <==> !Covered(q, ListOf(p.dependencies)) && !Covered(q, orig))) &&
      (forall e :: e in added ==> exists q :: q in PendingIn(p, patches) && e == AsDependency(q))
  {
    var orig := ManagedListOf(p.dependencyManagement);
    ManagedAfterCall(p, patches, props, adds);
    var after := PatchList(orig, patches) + Entries(adds);
    assert after[|orig|..] == Entries(adds);
    EntriesOfEnumeration(adds, PendingIn(p, patches));
  }

  /** A group/artifact listed in both sections is patched in both, to the same version. */
  lemma BothSectionsPatched(p: Project, patches: seq<Patch>, props: map<string, string>, adds: seq<Patch>,
                            k: int, m: int, i: int)
    requires IterationOrder(Some(p), patches, adds)
    requires Apply(Some(p), patches, props, adds).Patched?
    requires 0 <= k < |ListOf(p.dependencies)| && 0 <= m < |ManagedListOf(p.dependencyManagement)|
    requires IsLastMatch(patches, ListOf(p.dependencies)[k], i)
    requires Matches(ManagedListOf(p.dependencyManagement)[m], patches[i])
    ensures var r := Apply(Some(p), patches, props, adds).project;
      ListOf(r.dependencies)[k].version == patches[i].version &&
      ManagedListOf(r.dependencyManagement)[m].version == patches[i].version
  {
    var r := Apply(Some(p), patches, props, adds).project;
    var orig := ManagedListOf(p.dependencyManagement);
    AdditionsArePending(p, patches, props, adds);
    assert IsLastMatch(patches, orig[m], i);
    assert ManagedListOf(r.dependencyManagement)[m] == PatchEntry(orig[m], patches);
  }

  /**
   * The iteration order of the pending set affects nothing but the order of
   * the added entries: any two orders give the same outcome up to a
   * permutation of the additions.
   */
  lemma OrderIrrelevant(project: Option<Project>, patches: seq<Patch>, props: map<string, string>,
                        adds1: seq<Patch>, adds2: seq<Patch>)
    requires IterationOrder(project, patches, adds1)
    requires IterationOrder(project, patches, adds2)
    ensures var r1 := Apply(project, patches, props, adds1);
      var r2 := Apply(project, patches, props, adds2);
      r1.Patched? == r2.Patched? &&
      (!r1.Patched? ==> r1 == r2) &&
      (r1.Patched? ==>
        var n := |ManagedListOf(project.value.dependencyManagement)|;
        var l1 := ManagedListOf(r1.project.dependencyManagement);
        var l2 := ManagedListOf(r2.project.dependencyManagement);
        r1.project.dependencies == r2.project.dependencies &&
        r1.project.properties == r2.project.properties &&
        r1.project.dependencyManagement.value.dependencies.Some? ==
          r2.project.dependencyManagement.value.dependencies.Some? &&
        n <= |l1| && |l1| == |l2| && l1[..n] == l2[..n] &&
        multiset(l1[n..]) == multiset(l2[n..]))
  {
    if project.Some? {
      var p := project.value;
      var s := PendingIn(p, patches);
      EnumerationLength(adds1, s);
      EnumerationLength(adds2, s);
      var r1 := Apply(project, patches, props, adds1);
      var r2 := Apply(project, patches, props, adds2);
      if r1.Patched? {
        AdditionsArePending(p, patches, props, adds1);
        AdditionsArePending(p, patches, props, adds2);
        var n := |ManagedListOf(p.dependencyManagement)|;
        var l1 := ManagedListOf(r1.project.dependencyManagement);
        var l2 := ManagedListOf(r2.project.dependencyManagement);
        assert l1[..n] == l2[..n];
        forall e | e in l1[n..] ensures e in l2[n..] {
          var q :| q in s && e == AsDependency(q);
        }
        forall e | e in l2[n..] ensures e in l1[n..] {
          var q :| q in s && e == AsDependency(q);
        }
        DistinctSameElements(l1[n..], l2[n..]);
      }
    }
  }

  /**
   * With pairwise-distinct keys every patch is honoured: some entry of either
   * list carries exactly its group, artifact and version.
   */
  lemma EveryPatchApplied(p: Project, patches: seq<Patch>, props: map<string, string>, adds: seq<Patch>)
    requires DistinctKeys(patches)
    requires IterationOrder(Some(p), patches, adds)
    requires Apply(Some(p), patches, props, adds).Patched?
    ensures var r := Apply(Some(p), patches, props, adds).project;
      forall q :: q in patches ==>
        AsDependency(q) in ListOf(r.dependencies) || AsDependency(q) in ManagedListOf(r.dependencyManagement)
  {
    var r := Apply(Some(p), patches, props, adds).project;
    var deps := ListOf(p.dependencies);
    var orig := ManagedListOf(p.dependencyManagement);
    ManagedAfterCall(p, patches, props, adds);
    assert ListOf(r.dependencies) == PatchList(deps, patches);
    PatchesPresentAfterCall(patches, deps, orig, adds);
  }

  /** With distinct keys, patching and appending leaves every patch present verbatim. */
  lemma PatchesPresentAfterCall(patches: seq<Patch>, deps: seq<Dependency>, orig: seq<Dependency>, adds: seq<Patch>)
    requires DistinctKeys(patches)
    requires Enumerates(adds, Pending(patches, deps, orig))
    ensures forall q :: q in patches ==>
      AsDependency(q) in PatchList(deps, patches) || AsDependency(q) in PatchList(orig, patches) + Entries(adds)
  {
    var deps1 := PatchList(deps, patches);
    var managed1 := PatchList(orig, patches) + Entries(adds);
    forall q | q in patches
      ensures AsDependency(q) in deps1 || AsDependency(q) in managed1
    {
      AddedEntryStable(q, patches);
      if Covered(q, deps) {
        var k :| 0 <= k < |deps| && Matches(deps[k], q);
        LastMatchKeyOnly(patches, deps[k], AsDependency(q));
        assert deps1[k] == AsDependency(q);
      } else if Covered(q, orig) {
        var k :| 0 <= k < |orig| && Matches(orig[k], q);
        LastMatchKeyOnly(patches, orig[k], AsDependency(q));
        assert managed1[k] == AsDependency(q);
      } else {
        assert q in Pending(patches, deps, orig);
        var j :| 0 <= j < |adds| && adds[j] == q;
        assert managed1[|orig| + j] == AsDependency(q);
      }
    }
  }

  /**
   * Empty patch inputs leave a project unchanged exactly when it already has
   * a dependency-management list and a property table; otherwise the call
   * allocates them (or faults on a section without a list).
   */
  lemma NoPatchesNoOp(p: Project)
    ensures Apply(Some(p), [], map[], []) == Patched(p) <==>
      p.dependencyManagement.Some? && p.dependencyManagement.value.dependencies.Some? && p.properties.Some?
  {
    assert PendingIn(p, []) == {};
    var r := Apply(Some(p), [], map[], []);
    if p.dependencyManagement.Some? && p.dependencyManagement.value.dependencies.Some? && p.properties.Some? {
      var l := p.dependencyManagement.value.dependencies.value;
      assert PatchList(l, []) + Entries([]) == l;
      if p.dependencies.Some? {
        assert PatchList(p.dependencies.value, []) == p.dependencies.value;
      }
      if p.properties.value.entries.Some? {
        assert p.properties.value.entries.value + map[] == p.properties.value.entries.value;
      }
    }
  }

  /** Merging the same property patches twice gives what merging once gave. */
  lemma MergeIdempotent(current: Option<Properties>, patch: map<string, string>)
    requires Writable(current, patch)
    ensures Writable(Some(MergeProperties(current, patch)), patch)
    ensures MergeProperties(Some(MergeProperties(current, patch)), patch) == MergeProperties(current, patch)
  {
    var once := MergeProperties(current, patch);
    if once.entries.Some? {
      var m := once.entries.value;
      assert m + patch == m;
    }
  }

  /** After a call every patch's group and artifact occur in one of the two lists. */
  lemma NothingPendingAfterwards(p: Project, patches: seq<Patch>, props: map<string, string>, adds: seq<Patch>)
    requires IterationOrder(Some(p), patches, adds)
    requires Apply(Some(p), patches, props, adds).Patched?
    ensures PendingIn(Apply(Some(p), patches, props, adds).project, patches) == {}
  {
    var r := Apply(Some(p), patches, props, adds).project;
    var deps := ListOf(p.dependencies);
    var orig := ManagedListOf(p.dependencyManagement);
    ManagedAfterCall(p, patches, props, adds);
    assert ListOf(r.dependencies) == PatchList(deps, patches);
    CoveredAfterCall(patches, deps, orig, adds);
  }

  /** Patching in place and appending the pending entries leaves every patch covered. */
  lemma CoveredAfterCall(patches: seq<Patch>, deps: seq<Dependency>, orig: seq<Dependency>, adds: seq<Patch>)
    requires Enumerates(adds, Pending(patches, deps, orig))
    ensures Pending(patches, PatchList(deps, patches), PatchList(orig, patches) + Entries(adds)) == {}
  {
    var deps1 := PatchList(deps, patches);
    var managed1 := PatchList(orig, patches) + Entries(adds);
    forall q | q in patches
      ensures Covered(q, deps1) || Covered(q, managed1)
    {
      if Covered(q, deps) {
        var k :| 0 <= k < |deps| && Matches(deps[k], q);
        assert Matches(deps1[k], q);
      } else if Covered(q, orig) {
        var k :| 0 <= k < |orig| && Matches(orig[k], q);
        assert Matches(managed1[k], q);
      } else {
        assert q in Pending(patches, deps, orig);
        var j :| 0 <= j < |adds| && adds[j] == q;
        assert Matches(managed1[|orig| + j], q);
      }
    }
  }

  /**
   * Idempotence, for a project that has a dependency-management section and
   * patches with pairwise-distinct keys: a second call with the same inputs
   * finds nothing pending and returns the project unchanged.
   */
  lemma IdempotentWithSection(p: Project, patches: seq<Patch>, props: map<string, string>, adds: seq<Patch>)
    requires DistinctKeys(patches)
    requires p.dependencyManagement.Some?
    requires IterationOrder(Some(p), patches, adds)
    requires Apply(Some(p), patches, props, adds).Patched?
    ensures var p1 := Apply(Some(p), patches, props, adds).project;
      IterationOrder(Some(p1), patches, []) &&
      Apply(Some(p1), patches, props, []) == Patched(p1)
  {
    var p1 := Apply(Some(p), patches, props, adds).project;
    NothingPendingAfterwards(p, patches, props, adds);
    MergeIdempotent(p.properties, props);
    if p.dependencies.Some? {
      PatchListIdempotent(p.dependencies.value, patches);
    }
    var l := p.dependencyManagement.value.dependencies.value;
    PatchListIdempotent(l, patches);
    PatchListAppend(PatchList(l, patches), Entries(adds), patches);
    EntriesStable(adds, patches);
    assert PatchList(l, patches) + Entries(adds) + Entries([]) == PatchList(l, patches) + Entries(adds);
  }
}
