# requirementslib dependency engine, in Dafny

This project models the dependency logic of requirementslib's
`src/requirementslib/models/dependencies.py` and proves properties of the model.
That file finds the candidates for a requirement and merges abstract dependencies.
It also looks up a candidate's dependencies through four tiers that share a cache,
and folds repeated constraints for one package into one requirement.

pip, the network and packaging's internals are replaced by abstractions:

- A version is a release rank plus an optional pre-release number (`Versions.Version`), ordered by release precedence.
  As in PEP 440's exclusive ordered comparison, `<V` for a final `V` does not admit pre-releases of `V` itself.
- A specifier is a list of clauses (`Versions.Specifier`).
  A specifier set contains a version when every clause holds.
  `&` on two specifier sets is conjunction; `Foreign` stands for a specifier-like object with which `&` raises `TypeError`.
- The package finder is a map from project names to index candidates (`Matching.Finder`).
- The caller supplies these as functions (`DependencyLookup.Services`):
  - `format_requirement`, and the dependency cache's key of a requirement;
  - the wheel-cache lookup, the JSON metadata request and `InstallRequirement.from_line`;
  - pip's resolver;
  - in `AbstractDependencies`, also `normalized_name` and a candidate's `get_abstract_dependencies()`.
- `InstallReq` stands for pip's `InstallRequirement`. requirementslib's `Requirement` wrapper is identified with the install requirement it carries.
- `DEPENDENCY_CACHE` is an explicit `DependencyLookup.DependencyCache` object, passed to the tiers.

Files:

- `optional.dfy`: `Option` and `Result`.
- `versions.dfy`: versions, clauses, specifiers, `&`.
- `requirements.dfy`: markers, install requirements, the raised exceptions, pins, `make_install_requirement`.
- `matching.dfy`: `_get_filtered_versions` and `find_all_matches`.
- `abstract_dependency.dfy`: the `AbstractDependency` class, its merge, memo, construction, and `get_abstract_dependencies`.
- `dependency_lookup.dfy`: the four tiers and `get_dependencies`.
- `grouping.dfy`: `get_grouped_dependencies`.

Each tier is a function of the cache contents that returns its answer and its cache write.
A method over the shared `DependencyCache` is proved to return that answer and to make that write.
`get_dependencies` is a loop over the tiers, proved against the function `Pipeline`.

In these places the code behaves as follows, and the model follows it:

- The merge of two abstract dependencies does not raise when no candidate survives. It returns a dependency with an empty candidate list.
- A side with exactly one non-editable candidate has an empty `version_set`, so its merge has no candidates. `AbstractDependencies.LoneCandidateEmptiesMerge` proves this.
- The JSON tier's branch for an already cached key re-queries and does not catch a decode error.
  Within `get_dependencies` that branch never runs, because the cache tier answers first (`DependencyLookup.JsonTierSeesNoCachedKey`).
  A malformed reply is "no answer" only under an uncached key.
- Grouping AND-combines markers only when the accumulator's first marker element is a bare word.
  packaging's parsed markers always start with a tuple or a list.
  So in practice the later entries' markers are dropped (`Grouping.FoldParsedMarkers`).

## Model

| member | source | states |
|---|---|---|
| Matching.GetFilteredVersions | src/requirementslib/models/dependencies.py:56-57 | keeps exactly those given versions the specifier contains, pre-releases only when they are allowed |
| Matching.FindAllMatches | src/requirementslib/models/dependencies.py:60-77 | the result is a subset of the finder's candidates; every result satisfies the specifier; with `pre=False` and a stable match, no pre-release is returned; a candidate is in the result iff it passes the filter at `pre`, or `pre` is false, nothing passes strictly, and the specifier contains it |
| Matching.PrereleaseWidening | src/requirementslib/models/dependencies.py:73-76 | when no stable candidate matches, the result is exactly the matching pre-releases (empty if there are none) |
| Matching.PreReleasesOnlyWiden | src/requirementslib/models/dependencies.py:71-76 | the result with `pre=True` contains the result with `pre=False` |
| Matching.ExclusiveBelowFinalExample | src/requirementslib/models/dependencies.py:71-77 | `<2.0` over only `2.0rc1` yields nothing, even after the widened retry, since the exclusive `<` refuses pre-releases of `2.0` |
| Matching.PrereleaseOnlyExample | src/requirementslib/models/dependencies.py:71-77 | `>1.0` over `1.0` and `2.0rc1` yields only the pre-release, after the widened retry |
| Versions.Conjoin | src/requirementslib/models/dependencies.py:136 | `&` is defined exactly on two specifier sets; the result contains exactly the versions both contain, and has no clause iff neither side has one |
| Requirements.IsPinned | src/requirementslib/models/dependencies.py:334 | pinned iff not editable, with at least one clause, the first `==`, and every clause equal to the first |
| Requirements.IsInfix | src/requirementslib/models/dependencies.py:350 | `in` on strings: true iff the pattern occurs at some position of the text |
| Requirements.MentionsExtra | src/requirementslib/models/dependencies.py:350 | true iff there are markers and the text `extra` occurs at some position of their rendering |
| Requirements.PinnedAdmitsOnlyItsVersion | src/requirementslib/models/dependencies.py:334-338 | a pinned requirement's specifier contains exactly the version read from it |
| Requirements.MakeInstallRequirement | src/requirementslib/models/dependencies.py:202-204 | the built requirement is pinned to the given version and carries the given name, extras, markers and constraint flag; it has no link and no parent |
| AbstractDependencies.SurvivingCandidates | src/requirementslib/models/dependencies.py:143-147 | the result is a subsequence of the candidates, in their order, holding exactly those whose version is compatible |
| AbstractDependencies.PruneDepDict | src/requirementslib/models/dependencies.py:148-152 | the new memo's keys are exactly the old keys among the survivors' keys, and each value is the old one |
| AbstractDependencies.ConjoinDep | src/requirementslib/models/dependencies.py:136 | `specifiers & other.specifiers`: conjunction of two specifiers; a specifier set with `""` is that set; `""` on the left, or a foreign operand, raises `TypeError` |
| AbstractDependencies.MergeKeepsOrder | src/requirementslib/models/dependencies.py:143-147 | the merge keeps a version-sorted, duplicate-free candidate list sorted and duplicate-free |
| AbstractDependencies.SubsequenceSortedDistinct | src/requirementslib/models/dependencies.py:143-147 | an order-preserving filter of a sorted, duplicate-free list is sorted and duplicate-free |
| AbstractDependencies.SortByVersion | src/requirementslib/models/dependencies.py:208-210 | `sorted(set(candidates), key=version)`: ascending by version, each candidate once, exactly the set's members |
| AbstractDependencies.MadeCandidate | src/requirementslib/models/dependencies.py:202-206 | a candidate built from an index match is pinned to the match's version and has the given parent; it is a constraint iff there is a parent. The match's location goes to the inner requirement's `link`; the install requirement's own `link` stays unset |
| AbstractDependencies.AbstractDependency.LoneEditable | src/requirementslib/models/dependencies.py:113 | true iff there is exactly one candidate and every candidate is editable; that candidate is then the only one |
| AbstractDependencies.AbstractDependency.VersionSet | src/requirementslib/models/dependencies.py:92-101 | empty for a single candidate, otherwise the set of the candidates' versions |
| AbstractDependencies.AbstractDependency.CompatibleVersions | src/requirementslib/models/dependencies.py:103-117 | a lone editable `self` wins, then a lone editable `other`; otherwise the versions in both version sets |
| AbstractDependencies.AbstractDependency.CompatibleAbstractDep | src/requirementslib/models/dependencies.py:119-162 | the editable short-circuits return a side unchanged. A failing `&` raises `TypeError`. Otherwise a fresh dependency: name, markers, parent and finder from `self`; specifiers `self & other`; candidates filtered by the common versions; the memo pruned to the survivors |
| AbstractDependencies.AbstractDependency.GetDeps | src/requirementslib/models/dependencies.py:164-179 | after the call the key is in the memo and the result is its entry; a present key leaves the memo unchanged, so a repeated call returns the same value; a missing key adds only that entry |
| AbstractDependencies.AbstractDependency.FromRequirement | src/requirementslib/models/dependencies.py:181-221 | a pinned or editable requirement is its own only candidate, and an editable gets `""` as specifiers. Otherwise one candidate per match, sorted ascending by version, with no duplicates; the memo starts empty |
| AbstractDependencies.GetAbstractDependencies | src/requirementslib/models/dependencies.py:232-267 | one fresh dependency per requirement, in order, each built from its requirement with the given parent |
| AbstractDependencies.VersionSetEmpty | src/requirementslib/models/dependencies.py:99-101 | the version set is empty exactly when there is at most one candidate |
| AbstractDependencies.CompatibleVersionsCommute | src/requirementslib/models/dependencies.py:117 | without an editable short-circuit, `compatible_versions` does not depend on the order of the sides |
| AbstractDependencies.LoneCandidateEmptiesMerge | src/requirementslib/models/dependencies.py:99-100 | a side with one non-editable candidate leaves the merge with no candidates |
| AbstractDependencies.SelfMergeKeepsAll | src/requirementslib/models/dependencies.py:143-147 | merging a dependency of two or more candidates with itself keeps every candidate, in order |
| AbstractDependencies.MergedVersions | src/requirementslib/models/dependencies.py:113-147 | the merged candidates carry exactly the common versions, whichever side comes first |
| DependencyLookup.CacheTier | src/requirementslib/models/dependencies.py:365-376 | answers the cached lines iff the requirement is not editable and cached; never writes or raises |
| DependencyLookup.WheelTier | src/requirementslib/models/dependencies.py:303-320 | no answer for editables or without wheel matches, else the set of matches; writes iff it answers and the key is missing or its entry is empty, and then the formatted matches |
| DependencyLookup.RequiresDist | src/requirementslib/models/dependencies.py:345-347 | `requires_dist` if present, else `requires`; `null`, missing and empty all give no entries |
| DependencyLookup.JsonLines | src/requirementslib/models/dependencies.py:348-352 | every yielded line is a formatted, parsed entry whose markers do not mention `extra`, and every such entry is yielded |
| DependencyLookup.JsonQuery | src/requirementslib/models/dependencies.py:340-352 | a reply that is not JSON raises a decode error, one without `info` raises `KeyError`, else the yielded lines |
| DependencyLookup.JsonTier | src/requirementslib/models/dependencies.py:323-362 | no answer for editables; `TypeError` for unpinned input. Under an absent key: writes and returns the lines, or a decode error gives no answer and no write. Under a present key: a fresh query, no write, and a decode error is raised |
| DependencyLookup.IndexTier | src/requirementslib/models/dependencies.py:401-417 | always answers; a resolver exception gives the empty set and no write; a success gives the resolved set, written for non-editables |
| DependencyLookup.TierStep | src/requirementslib/models/dependencies.py:290-295 | a tier that gives no answer writes nothing |
| DependencyLookup.Pipeline | src/requirementslib/models/dependencies.py:296-300 | the chain stops at the first tier with an answer or exception, every earlier tier gave none; it is exhausted only if every tier gave none |
| DependencyLookup.Dependencies | src/requirementslib/models/dependencies.py:296-300 | `get_dependencies` never returns `None`; a found set is the answer of one of the tiers |
| DependencyLookup.ChainAlwaysAnswers | src/requirementslib/models/dependencies.py:296-300 | the chain always stops at a tier, so the `RuntimeError` is never raised |
| DependencyLookup.CacheHitAnswersFirst | src/requirementslib/models/dependencies.py:374-375 | a cached non-editable requirement is answered by the cache tier with the cached lines and no write |
| DependencyLookup.EditableReachesIndex | src/requirementslib/models/dependencies.py:312-313 | an editable requirement is answered by the index tier, which does not cache it |
| DependencyLookup.JsonTierSeesNoCachedKey | src/requirementslib/models/dependencies.py:354-361 | within the chain the JSON tier only sees non-editables whose key the cache lacks |
| DependencyLookup.UncachedPinnedUsesJson | src/requirementslib/models/dependencies.py:354-358 | a pinned requirement neither cache knows is answered and cached by the JSON tier; a non-JSON reply passes on to the index |
| DependencyLookup.UncachedUnpinnedRaises | src/requirementslib/models/dependencies.py:334-335 | an unpinned, non-editable requirement neither cache knows raises `TypeError` before the index is asked |
| DependencyLookup.FormatEach | src/requirementslib/models/dependencies.py:318 | the lines are the formatted members of the set, in some iteration order |
| DependencyLookup.GenLines | src/requirementslib/models/dependencies.py:348-352 | the loop, front to back, yields exactly the lines of `JsonLines` |
| DependencyLookup.JsonLinesAppend | src/requirementslib/models/dependencies.py:348-352 | one more metadata entry adds its own lines after those of the entries before it |
| DependencyLookup.CacheLookup | src/requirementslib/models/dependencies.py:374-376 | returns the cache tier's answer |
| DependencyLookup.WheelLookup | src/requirementslib/models/dependencies.py:312-320 | returns the wheel tier's answer and makes exactly its write |
| DependencyLookup.JsonLookup | src/requirementslib/models/dependencies.py:332-362 | returns the JSON tier's answer and makes exactly its write |
| DependencyLookup.IndexLookup | src/requirementslib/models/dependencies.py:401-417 | returns the index tier's answer and makes exactly its write |
| DependencyLookup.RunTier | src/requirementslib/models/dependencies.py:297 | one getter call: returns that tier's answer and makes exactly its cache write |
| DependencyLookup.GetDependencies | src/requirementslib/models/dependencies.py:270-300 | returns the chain's answer; only the answering tier's write reaches the cache |
| DependencyLookup.DependencyCache.Store | src/requirementslib/models/dependencies.py:356 | sets one key's entry and leaves the others |
| Grouping.SortedUnique | src/requirementslib/models/dependencies.py:565-567 | strictly sorted, with exactly the members of the input |
| Grouping.StrictlySortedUnique | src/requirementslib/models/dependencies.py:565-567 | two strictly sorted lists with the same members are equal, so the result is `sorted(set(...))` |
| Grouping.CombinedSpecifier | src/requirementslib/models/dependencies.py:548-552 | a defined `&` gives the conjunction; on `TypeError`, the accumulator keeps its clauses if it has any, else takes the other entry's |
| Grouping.CombinedMarkers | src/requirementslib/models/dependencies.py:554-563 | no markers: take the other entry's; an empty list raises `IndexError`; a leading bare word AND-nests both, or raises `AttributeError` when the other has none; otherwise unchanged |
| Grouping.Absorb | src/requirementslib/models/dependencies.py:546-567 | one fold step: raises iff the marker step does; otherwise name, link, parent and editable unchanged, the combined specifier and markers, the AND of the constraint flags, and sorted, de-duplicated extras of both |
| Grouping.FirstEditable | src/requirementslib/models/dependencies.py:539 | the first editable entry, or none iff no entry is editable |
| Grouping.FoldGroup | src/requirementslib/models/dependencies.py:546-567 | the fold of no further entries is the first entry; it can only raise `IndexError` or `AttributeError`, and only when some entry has markers |
| Grouping.GroupResult | src/requirementslib/models/dependencies.py:538-568 | a group with an editable entry yields an editable member of the group; a group without one yields the fold of its entries |
| Grouping.GroupAll | src/requirementslib/models/dependencies.py:537-568 | the generator yields at most one requirement per group, and one for every group exactly when nothing is raised |
| Grouping.GroupAllYields | src/requirementslib/models/dependencies.py:537-568 | each group's result is yielded in order, up to the first group that raises, with that group's exception |
| Grouping.FoldConstraint | src/requirementslib/models/dependencies.py:553 | the combined `constraint` is the AND of all entries' flags |
| Grouping.FoldExtras | src/requirementslib/models/dependencies.py:565-567 | the combined extras are the union of all entries' extras, sorted and de-duplicated once a second entry was taken in |
| Grouping.FoldSpecifier | src/requirementslib/models/dependencies.py:548-549 | with specifier sets throughout, the combined specifier contains exactly the versions all entries' specifiers contain |
| Grouping.FoldKeepsIdentity | src/requirementslib/models/dependencies.py:545 | the result is a copy of the first entry in name, editable flag, link and parent |
| Grouping.FoldParsedMarkers | src/requirementslib/models/dependencies.py:554-563 | with parsed markers the fold never raises, and the markers are those of the first entry that has any |
| Grouping.EditableWins | src/requirementslib/models/dependencies.py:539-542 | a group with an editable entry yields its first editable entry unchanged |
| Grouping.RangeGroupExample | src/requirementslib/models/dependencies.py:545-568 | the group `pkg>=1,<3`, `pkg>=2` yields a requirement equivalent to `pkg>=2,<3` |
| Grouping.EditableGroupExample | src/requirementslib/models/dependencies.py:539-542 | the group `pkg==1.0`, editable `pkg` yields only the editable entry |
| Grouping.CombineGroup | src/requirementslib/models/dependencies.py:545-568 | the field-by-field loop computes the fold of the group |
| Grouping.GroupOne | src/requirementslib/models/dependencies.py:538-567 | one pass of the loop body computes the group's result |
| Grouping.GetGroupedDependencies | src/requirementslib/models/dependencies.py:531-568 | yields what the group-by-group specification yields and stops with the same exception |

## Left out

- pip plumbing is not modelled: `get_pip_options`, `get_finder`, `get_resolver` (lines 420-528). The finder and the resolver's outcome are inputs.
- The HTTP request, `temp_environ`, `RequirementTracker`, `PIP_EXISTS_ACTION` and `wheel_cache.cleanup` (lines 337-344, 390-409) are left out. The metadata reply and the resolver outcome are inputs.
- Setting `dep.is_direct = True` in the index tier (line 393) is not modelled, because it is a side effect on the caller's requirement that no modelled operation reads.
- PEP 440 parsing and packaging's specifier internals are not modelled. Versions are abstracted to release rank and pre-release number. Only `==`, `!=`, `<`, `<=`, `>`, `>=` clauses are modelled; `~=`, `===` and wildcards are not.
  Post-releases and local versions are not modelled, so PEP 440's matching rule that `>V` does not admit post-releases or local versions of `V` has nothing to act on.
- `Versions.Conjoin`: packaging's `&` also raises `ValueError` when both sides override pre-release handling in opposite ways. This is not modelled, because the model's specifiers carry no pre-release override.
- `AbstractDependencies.SortByVersion`: pip's `InstallRequirement` compares by identity, while the model compares candidates by value. The two agree here, because each candidate `from_requirement` builds comes from a distinct index match.
- Specifier filtering is modelled with `prereleases` always given explicitly, as the source always passes it.
- The conversion of non-`InstallRequirement` input at lines 283-288 and of plain lines or `InstallRequirement`s at lines 251-264 is not modelled. Each input is taken as the requirement itself.
- `AbstractDependency.from_string` (lines 224-229) is left out. It is `Requirement.from_line` followed by `from_requirement`.
- `AbstractDependencies.AbstractDependency.CompatibleAbstractDep`: `Requirement.from_line(format_requirement(new_ireq))` is modelled as the old requirement with the new specifier, because the string round trip lives in code not shown.
- `AbstractDependencies.AbstractDependency.FromRequirement`: `get_finder()` is replaced by a finder parameter. `requirement.find_all_matches` is taken to call `find_all_matches(finder, ireq)` with `pre=False`.
- `src/requirementslib/models/requirements.py`, `utils.py`, `cache.py` and `../utils.py` are not part of this model. `format_requirement`, `key_from_ireq`, `normalized_name`, `is_pinned_requirement`, `version_from_ireq`, `make_install_requirement` and `full_groupby` are given as parameters or as small definitions stated in the model.
- The dependency cache is modelled as a dictionary keyed by the requirement's key. What `cache.py` does beyond that (persistence to disk) is not modelled.
- `src/requirementslib/models/setup_info.py` is not part of this model. It is build-metadata discovery through I/O.
- The order in which a Python `set` is iterated is unspecified. The model picks an arbitrary element at each step, so cache writes from a set and the order of equal-version candidates are left open.
- `Grouping.GetGroupedDependencies`: the groups of `full_groupby` are taken as input. They are not assumed to come in any order. Each is non-empty, as `groupby` makes them.
- `Grouping.Absorb`: the fold works on values. Line 555 makes the accumulator share the next entry's marker object, and a later in-place rewrite at line 559 would then change that input too. The model does not capture that aliasing, which can only arise when a marker list begins with a bare word.
- `DependencyLookup.WheelTier`: a wheel-cache miss (`None`) and an empty match list are both modelled as `[]`, since the source treats both as falsy.
- `AbstractDependencies.MadeCandidate`: the inner packaging requirement is not modelled apart from its `link` attribute, which is the field `reqLink`. Nothing in the modelled code reads it again.
- `DependencyLookup.JsonTier`: network errors and an `info` value that is not an object are not modelled. The only failures modelled are a reply that is not JSON and a missing `info`.
- `Requirements.MentionsExtra`: `repr(marker)` is modelled as the marker's rendered text. The `<Marker('…')>` wrapper cannot contribute to an `extra` substring, and a requirement without markers has the repr `None`.
