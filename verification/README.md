# pombump `PatchProject` in Dafny

This project models the version-patching step of pombump: `PatchProject` in
`pkg/patch.go`. The step takes a parsed Maven project (POM), a list of
(groupId, artifactId, version) patches and a property map. It then:

- rewrites the versions of matching entries in `dependencies` and in
  `dependencyManagement.dependencies`;
- appends every patch that matched nothing to `dependencyManagement`;
- merges the property map into `properties`, overwriting any existing key.

The model works on values, not pointers. Every Go pointer that may be nil
becomes an `Option`. The three ways the Go code faults on nil become the
outcome `Panicked`:

- ranging over a nil dependency-management list;
- appending to the list of a freshly allocated section;
- writing into a nil property map.

A nil project is answered with `Rejected`.

Go iterates the set of still-missing patches in an unspecified order. That
order is the parameter `adds` of the reference function `PatchSpec.Apply`,
which requires `adds` to list each pending patch exactly once.
`Patcher.PatchProject` is the imperative version. It mirrors the Go loops and
picks the next missing patch with `:|`. Its contract says that some valid
order `adds` makes its result equal to `Apply`.

Files:

- `wrappers.dfy`: `Option`.
- `pom.dfy`: the project fields the step touches.
- `patch_spec.dfy`: per-entry reference semantics and `Apply`.
- `patcher.dfy`: the loop-based method and its loop invariants.
- `patch_lemmas.dfy`: properties of a call and of repeated calls.
- `allocated_section_fix.dfy`: the defect described under "Findings", plus its correction.

## Model

| member | source | states |
|---|---|---|
| `PatchSpec.LastMatch` | pkg/patch.go:60-68 | no patch matches the entry's group and artifact exactly when the result is `None`; otherwise the result is the version of the last matching patch in list order |
| `PatchSpec.PatchEntry` | pkg/patch.go:59-69 | a patched entry keeps its group and artifact; its version is that of the last matching patch, or is unchanged when no patch matches |
| `Patcher.PatchOne` | pkg/patch.go:60-69 | the inner loop over the patches leaves the entry patched by the last match; the missing set loses exactly the patches matching that entry |
| `Patcher.PatchEntries` | pkg/patch.go:58-71 | a scan of one list patches every entry in place, with no entry added or removed; the missing set loses exactly the patches some entry of the list matches (the scan at lines 73-86 is the same loop) |
| `Patcher.AppendMissing` | pkg/patch.go:93-100 | one entry is appended per missing patch, each exactly once, in some order; with a nil list and something missing the append faults |
| `Patcher.MergeInto` | pkg/patch.go:101-107 | the key-by-key write loop faults exactly when the table's map is nil and there is something to write; otherwise it produces the merged table |
| `Patcher.PatchProject` | pkg/patch.go:45-109 | the method's result is `Apply`'s outcome for some order in which the runtime may iterate the pending set |
| `PatchSpec.MergeProperties` | pkg/patch.go:101-107 | an absent table becomes exactly the patch map; an existing table has every patched key set to its patched value, keeps every other key's value, and gains no other keys |
| `PatchSpec.Apply` | pkg/patch.go:45-109 | a nil project is rejected and nothing else is; the call faults exactly when the section has a nil list, or the section is absent and some patch is pending, or a non-empty property patch meets a nil map; the fault is the nil-map write exactly when neither list fault applies; a successful call always leaves a section present |
| `PatchLemmas.DependenciesPatchedInPlace` | pkg/patch.go:58-71 | `dependencies` stays absent or present, keeps its length and every entry's position, group and artifact; versions follow the last-match rule; nothing is appended |
| `PatchLemmas.AdditionsArePending` | pkg/patch.go:52-100 | the new management list is the old one patched in place, then one entry per pending patch; additions are duplicate-free; a patch is added exactly when no entry of either original list has its group and artifact |
| `PatchLemmas.BothSectionsPatched` | pkg/patch.go:73-86 | a group/artifact present in both lists gets the winning patch's version in both |
| `PatchLemmas.OrderIrrelevant` | pkg/patch.go:93-100 | any two iteration orders of the pending set give the same outcome, except that the added entries come in a different order (a permutation) |
| `PatchLemmas.NothingPendingAfterwards` | pkg/patch.go:52-100 | after a successful call every patch's group and artifact occur in one of the two lists |
| `PatchLemmas.EveryPatchApplied` | pkg/patch.go:58-100 | with pairwise-distinct keys, after a successful call every patch appears with its exact version in one of the two lists |
| `PatchLemmas.NoPatchesNoOp` | pkg/patch.go:88-107 | empty patch inputs return the project unchanged if and only if it already has a management list and a property table |
| `PatchLemmas.MergeIdempotent` | pkg/patch.go:101-107 | merging the same property patch a second time changes nothing (`(m + p) + p == m + p`) |
| `PatchLemmas.IdempotentWithSection` | pkg/patch.go:58-107 | with pairwise-distinct keys and a pre-existing management section, a second call with the same inputs finds nothing pending and returns the project unchanged |
| `PatchLemmas.LastMatchKeyOnly` | pkg/patch.go:61-62 | which patch wins depends only on the entry's group and artifact, never on its current version |
| `AllocatedSectionFix.ApplyCorrected` | pkg/patch.go:90-92 | with the section allocated holding an empty list, the call faults only on a section with a nil list or on a nil property map; success always leaves a management list |
| `AllocatedSectionFix.CorrectedIsAllocationFirst` | pkg/patch.go:90-92 | the corrected call equals the original call on a project whose section was first allocated with an empty list; where the section exists the two agree |
| `AllocatedSectionFix.CorrectedAddsPending` | pkg/patch.go:93-100 | corrected: every pending patch is appended exactly once, whether or not the section existed |
| `AllocatedSectionFix.CorrectedIdempotent` | pkg/patch.go:88-107 | corrected: with pairwise-distinct keys, a second call with the same inputs returns the project unchanged |
| `AllocatedSectionFix.AbsentSectionAdditionPanics` | pkg/patch.go:90-95 | as written: a project with no management section and a patch matching nothing faults on the append; the corrected call succeeds |
| `AllocatedSectionFix.SecondCallPanics` | pkg/patch.go:73-74 | as written: a successful call on a project with no section returns one whose section has no list, and calling again faults |

## Left out

- The `fmt.Printf` diagnostics at pkg/patch.go:63 and :78 print output and change no state.
- The gopom library is not part of this model. This covers XML parsing, XML serialisation and every project field that patching does not touch.
- Go pointer aliasing is not modelled. At line 102 the caller's map itself becomes `Properties.Entries`. Entry fields are shared through pointers. The caller also sees the entries a call mutated before it faulted. The model returns values instead.
- A nil `GroupID`, `ArtifactID` or `Version` pointer faults at lines 61-64 and 76-79. The model cannot express it, because those fields are plain strings.
- The `PropertyPatch` type (lines 35-38) is declared, but `PatchProject` never uses it.
- A nil `propertyPatches` map is not told apart from an empty one. For an absent table, line 102 installs the map it was given, so a nil argument leaves a table whose `Entries` is nil. A later call with a non-empty property patch then faults at line 105. The model installs an empty map instead, so it does not show that later fault.
- The order in which Go iterates the pending set is not fixed. It is the parameter `adds`. No contract depends on a particular order.
- `PatchLemmas.NoPatchesNoOp` proves that "empty inputs leave the project unchanged" holds only when the project already has a management list and a property table. That is the code's behaviour: lines 90-92 and 101-102 allocate these sections even when there is nothing to do.
- `PatchLemmas.IdempotentWithSection` needs a pre-existing section and pairwise-distinct keys. Without the section, the code faults on the second call (see Findings). With duplicate keys, the extra added entries get rewritten by the later patch.
- `PatchLemmas.EveryPatchApplied` needs pairwise-distinct keys. With duplicate keys, only the last patch for a group/artifact survives in entries that already existed.

## Findings

| source | as written | input that shows it | evidently intended | confidence | as-written member | corrected member |
|---|---|---|---|---|---|---|
| pkg/patch.go:90-95 | an absent section is allocated with a nil `Dependencies` pointer, and the append dereferences that pointer | a project with no `dependencyManagement` and the patch (x, y, 3.0), which matches nothing | the patch is appended to a new, empty list, as the comment at lines 88-89 says | high; not executed (the nil pointer is visible at lines 74 and 95) | `AllocatedSectionFix.AbsentSectionAdditionPanics` | `AllocatedSectionFix.CorrectedAddsPending` |
| pkg/patch.go:73-74 | a successful call on a project with no section returns a section whose list is nil, so the same call on the result faults at line 74 | dependency (G, A, 1.0), no section, patch (G, A, 2.0), applied twice | the second call changes nothing | high; not executed | `AllocatedSectionFix.SecondCallPanics` | `AllocatedSectionFix.CorrectedIdempotent` |
