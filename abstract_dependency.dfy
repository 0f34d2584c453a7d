/**
 * The `AbstractDependency` aggregate: a requirement, the candidates that can satisfy it, and a
 * lazily filled memo of each candidate's own dependencies.
 */
module AbstractDependencies {
  import opened Optional
  import opened Versions
  import opened Requirements
  import opened Matching

  /** `AbstractDependency.specifiers`: a specifier, or the empty string an editable gets. */
  datatype DepSpecifier = Specs(spec: Specifier) | EmptyString

  /** What `compatible_versions` returns: the winning editable side, or a set of versions. */
  datatype Compatible = EditableWins(dep: AbstractDependency) | CommonVersions(versions: set<Version>)

  /** What `compatible_abstract_dep` returns, or the exception it raises. */
  datatype MergeResult = Merged(dep: AbstractDependency) | MergeRaised(error: Error)

  // ---- sequences of candidates ----

  predicate AllVersioned(cands: seq<InstallReq>) {
    forall c :: c in cands ==> HasVersion(c)
  }

  /** Ascending by version; candidates of equal version may stand in any order. */
  predicate SortedByVersion(cands: seq<InstallReq>)
    requires AllVersioned(cands)
  {
    forall i, j :: 0 <= i < j < |cands| ==> LessEq(VersionOf(cands[i]), VersionOf(cands[j]))
  }

  /** `r` is `s` with some elements left out, the rest in their original order. */
  ghost predicate IsSubsequence<T>(r: seq<T>, s: seq<T>)
    decreases |s|
  {
    |r| <= |s| && (r == [] || (r[0] == s[0] && IsSubsequence(r[1..], s[1..])) || IsSubsequence(r, s[1..]))
  }

  function CandidateVersions(cands: seq<InstallReq>): set<Version>
    requires AllVersioned(cands)
  {
    set c | c in cands :: VersionOf(c)
  }

  /** The candidate comprehension of `compatible_abstract_dep`: an order-preserving filter. */
  function SurvivingCandidates(cands: seq<InstallReq>, compatible: set<Version>): (r: seq<InstallReq>)
    requires AllVersioned(cands)
    ensures AllVersioned(r) && IsSubsequence(r, cands)
    ensures forall c :: c in r <==> c in cands && VersionOf(c) in compatible
  {
    if cands == [] then []
    else
      var rest := SurvivingCandidates(cands[1..], compatible);
      if VersionOf(cands[0]) in compatible then
        assert ([cands[0]] + rest)[1..] == rest;
        [cands[0]] + rest
      else
        rest
  }

  lemma {:induction false} SubsequenceMembers<T>(r: seq<T>, s: seq<T>)
    requires IsSubsequence(r, s)
    ensures forall x :: x in r ==> x in s
    decreases |s|
  {
    if r == [] {
    } else if r[0] == s[0] && IsSubsequence(r[1..], s[1..]) {
      SubsequenceMembers(r[1..], s[1..]);
      assert forall x :: x in r ==> x == r[0] || x in r[1..];
    } else {
      SubsequenceMembers(r, s[1..]);
    }
  }

  /** A subsequence of a version-sorted, duplicate-free list is version-sorted and duplicate-free. */
  lemma {:induction false} SubsequenceSortedDistinct(r: seq<InstallReq>, s: seq<InstallReq>)
    requires IsSubsequence(r, s) && AllVersioned(s)
    ensures AllVersioned(r)
    ensures SortedByVersion(s) ==> SortedByVersion(r)
    ensures NoDuplicates(s) ==> NoDuplicates(r)
    decreases |s|
  {
    SubsequenceMembers(r, s);
    if r == [] {
    } else {
      assert AllVersioned(s[1..]) && (NoDuplicates(s) ==> NoDuplicates(s[1..]) && s[0] !in s[1..]) by {
        forall i, j | 0 <= i < j < |s[1..]| ensures s[1..][i] == s[i + 1] && s[1..][j] == s[j + 1] {}
      }
      if SortedByVersion(s) { SortedHead(s); }
      if r[0] == s[0] && IsSubsequence(r[1..], s[1..]) {
        SubsequenceSortedDistinct(r[1..], s[1..]);
        SubsequenceMembers(r[1..], s[1..]);
        assert r == [r[0]] + r[1..];
        if SortedByVersion(s) { SortedCons(r[0], r[1..]); }
        if NoDuplicates(s) { DistinctCons(r[0], r[1..]); }
      } else {
        SubsequenceSortedDistinct(r, s[1..]);
      }
    }
  }

  /** Filtering by a set that holds every candidate's version keeps the list as it is. */
  lemma {:induction false} SurvivingAll(cands: seq<InstallReq>, compatible: set<Version>)
    requires AllVersioned(cands) && forall c :: c in cands ==> VersionOf(c) in compatible
    ensures SurvivingCandidates(cands, compatible) == cands
  {
    if cands != [] {
      assert forall c :: c in cands[1..] ==> c in cands;
      SurvivingAll(cands[1..], compatible);
      assert cands == [cands[0]] + cands[1..];
    }
  }

  /** Filtering by the empty set keeps nothing. */
  lemma {:induction false} SurvivingNone(cands: seq<InstallReq>, compatible: set<Version>)
    requires AllVersioned(cands) && compatible == {}
    ensures SurvivingCandidates(cands, compatible) == []
  {
    if cands != [] {
      SurvivingNone(cands[1..], compatible);
    }
  }

  /** The merge keeps the ascending version order and distinctness `from_requirement` establishes. */
  lemma MergeKeepsOrder(cands: seq<InstallReq>, compatible: set<Version>)
    requires AllVersioned(cands) && SortedByVersion(cands) && NoDuplicates(cands)
    ensures SortedByVersion(SurvivingCandidates(cands, compatible))
    ensures NoDuplicates(SurvivingCandidates(cands, compatible))
  {
    SubsequenceSortedDistinct(SurvivingCandidates(cands, compatible), cands);
  }

  /** The `dep_dict` loop of `compatible_abstract_dep`: keep the memo entries of the given keys. */
  method PruneDepDict<V>(depDict: map<string, V>, keys: seq<string>) returns (pruned: map<string, V>)
    ensures forall k :: k in pruned <==> k in depDict && k in keys
    ensures forall k :: k in pruned ==> pruned[k] == depDict[k]
  {
    pruned := map[];
    var i := 0;
    while i < |keys|
      invariant 0 <= i <= |keys|
      invariant forall k :: k in pruned <==> k in depDict && k in keys[..i]
      invariant forall k :: k in pruned ==> pruned[k] == depDict[k]
    {
      assert keys[..i + 1] == keys[..i] + [keys[i]];
      if keys[i] in depDict {
        pruned := pruned[keys[i] := depDict[keys[i]]];
      }
      i := i + 1;
    }
    assert keys[..i] == keys;
  }

  /** `self.specifiers & other.specifiers`; `None` is the `TypeError` it raises. */
  function ConjoinDep(a: DepSpecifier, b: DepSpecifier): (r: Option<Specifier>)
    ensures a.Specs? && b.Specs? ==> r == Conjoin(a.spec, b.spec)
    ensures a.EmptyString? ==> r.None?
    ensures a.Specs? && b.EmptyString? ==> r == if a.spec.SpecSet? then Some(a.spec) else None
  {
    match (a, b)
    case (Specs(x), Specs(y)) => Conjoin(x, y)
    // a specifier set joined with "" reads "" as the empty specifier set
    case (Specs(x), EmptyString) => if x.SpecSet? then Some(x) else None
    case _ => None
  }

  // ---- sorting candidates by version (`sorted(set(candidates), key=version)`) ----

  /** Insertion of one candidate into a version-sorted list, after the candidates it does not precede. */
  function InsertByVersion(c: InstallReq, t: seq<InstallReq>): (r: seq<InstallReq>)
    requires HasVersion(c) && AllVersioned(t)
    ensures AllVersioned(r) && |r| == |t| + 1
    ensures forall x :: x in r <==> x == c || x in t
  {
    if t == [] then [c]
    else if Less(VersionOf(c), VersionOf(t[0])) then [c] + t
    else
      assert forall x :: x in t <==> x == t[0] || x in t[1..];
      [t[0]] + InsertByVersion(c, t[1..])
  }

  lemma SortedCons(x: InstallReq, rest: seq<InstallReq>)
    requires HasVersion(x) && AllVersioned(rest) && SortedByVersion(rest)
    requires forall y :: y in rest ==> LessEq(VersionOf(x), VersionOf(y))
    ensures AllVersioned([x] + rest) && SortedByVersion([x] + rest)
  {
  }

  lemma SortedHead(t: seq<InstallReq>)
    requires t != [] && AllVersioned(t) && SortedByVersion(t)
    ensures AllVersioned(t[1..]) && SortedByVersion(t[1..])
    ensures forall y :: y in t ==> LessEq(VersionOf(t[0]), VersionOf(y))
  {
  }

  lemma {:induction false} InsertKeepsSorted(c: InstallReq, t: seq<InstallReq>)
    requires HasVersion(c) && AllVersioned(t) && SortedByVersion(t)
    ensures SortedByVersion(InsertByVersion(c, t))
  {
    if t != [] {
      SortedHead(t);
      if Less(VersionOf(c), VersionOf(t[0])) {
        SortedCons(c, t);
      } else {
        InsertKeepsSorted(c, t[1..]);
        LessTotal(VersionOf(c), VersionOf(t[0]));
        SortedCons(t[0], InsertByVersion(c, t[1..]));
      }
    }
  }

  lemma DistinctCons<T>(x: T, rest: seq<T>)
    requires x !in rest && NoDuplicates(rest)
    ensures NoDuplicates([x] + rest)
  {
  }

  lemma {:induction false} InsertKeepsDistinct(c: InstallReq, t: seq<InstallReq>)
    requires HasVersion(c) && AllVersioned(t) && c !in t && NoDuplicates(t)
    ensures NoDuplicates(InsertByVersion(c, t))
  {
    if t == [] {
    } else if Less(VersionOf(c), VersionOf(t[0])) {
      DistinctCons(c, t);
    } else {
      assert t == [t[0]] + t[1..];
      assert NoDuplicates(t[1..]) && t[0] !in t[1..] by {
        forall i, j | 0 <= i < j < |t[1..]| ensures t[1..][i] != t[1..][j] {
          assert t[1..][i] == t[i + 1] && t[1..][j] == t[j + 1];
        }
      }
      InsertKeepsDistinct(c, t[1..]);
      DistinctCons(t[0], InsertByVersion(c, t[1..]));
    }
  }

  /** `sorted(s, key=version)` over a set: ascending by version, each element once. */
  method SortByVersion(s: set<InstallReq>) returns (t: seq<InstallReq>)
    requires forall c :: c in s ==> HasVersion(c)
    ensures AllVersioned(t) && SortedByVersion(t) && NoDuplicates(t)
    ensures forall c :: c in t <==> c in s
  {
    t := [];
    var rest := s;
    while rest != {}
      invariant rest <= s
      invariant AllVersioned(t) && SortedByVersion(t) && NoDuplicates(t)
      invariant forall c :: c in t <==> c in s && c !in rest
      decreases rest
    {
      // set iteration order is arbitrary, so is the order of candidates of equal version
      var c :| c in rest;
      InsertKeepsSorted(c, t);
      InsertKeepsDistinct(c, t);
      t := InsertByVersion(c, t);
      rest := rest - {c};
    }
  }

  /** The candidate `from_requirement` builds from one index match. */
  function MadeCandidate(name: string, m: IndexCandidate, requirement: InstallReq,
                         parent: Option<InstallReq>): (c: InstallReq)
    ensures HasVersion(c) && VersionOf(c) == m.version && IsPinned(c)
    ensures c.reqLink == Some(m.location) && c.link.None?
    ensures c.parent == parent && c.constraint == parent.Some?
  {
    MakeInstallRequirement(name, m.version, requirement.extras, requirement.markers, parent.Some?)
      .(reqLink := Some(m.location), parent := parent)
  }

  function MadeCandidates(name: string, matches: set<IndexCandidate>, requirement: InstallReq,
                          parent: Option<InstallReq>): set<InstallReq>
  {
    set m | m in matches :: MadeCandidate(name, m, requirement, parent)
  }

  class AbstractDependency {
    const name: string
    const specifiers: DepSpecifier
    const markers: Option<Marker>
    const candidates: seq<InstallReq>
    const requirement: InstallReq
    const parent: Option<InstallReq>
    const finder: Finder
    /** Memo from `format_requirement(candidate)` to that candidate's abstract dependencies. */
    var depDict: map<string, seq<AbstractDependency>>

    constructor (name: string, specifiers: DepSpecifier, markers: Option<Marker>,
                 candidates: seq<InstallReq>, requirement: InstallReq, parent: Option<InstallReq>,
                 finder: Finder, depDict: map<string, seq<AbstractDependency>>)
      ensures this.name == name && this.specifiers == specifiers && this.markers == markers
      ensures this.candidates == candidates && this.requirement == requirement
      ensures this.parent == parent && this.finder == finder && this.depDict == depDict
    {
      this.name := name;
      this.specifiers := specifiers;
      this.markers := markers;
      this.candidates := candidates;
      this.requirement := requirement;
      this.parent := parent;
      this.finder := finder;
      this.depDict := depDict;
    }

    /** Every candidate has a version to compare, except a lone editable one. */
    predicate Valid() {
      forall c :: c in candidates ==> HasVersion(c) || (|candidates| == 1 && c.editable)
    }

    /** `len(self.candidates) == 1 and first(self.candidates).editable`: one candidate, and it is editable. */
    function LoneEditable(): (b: bool)
      ensures b <==> |candidates| == 1 && forall c :: c in candidates ==> c.editable
      ensures b ==> forall c :: c in candidates ==> c == candidates[0]
    {
      |candidates| == 1 && candidates[0].editable
    }

    /** `version_set`: empty for a single candidate, else the candidates' versions. */
    function VersionSet(): (vs: set<Version>)
      requires Valid()
      ensures |candidates| == 1 ==> vs == {}
      ensures |candidates| != 1 ==> AllVersioned(candidates) && vs == CandidateVersions(candidates)
    {
      if |candidates| == 1 then {} else set c | c in candidates :: VersionOf(c)
    }

    /** `compatible_versions`: a lone editable side wins, else the common versions. */
    function CompatibleVersions(other: AbstractDependency): (r: Compatible)
      requires Valid() && other.Valid()
      ensures LoneEditable() ==> r == EditableWins(this)
      ensures !LoneEditable() && other.LoneEditable() ==> r == EditableWins(other)
      ensures !LoneEditable() && !other.LoneEditable() ==>
                r.CommonVersions? && forall v :: v in r.versions <==> v in VersionSet() && v in other.VersionSet()
    {
      if LoneEditable() then EditableWins(this)
      else if other.LoneEditable() then EditableWins(other)
      else CommonVersions(VersionSet() * other.VersionSet())
    }

    /** Outside the lone-editable case every candidate is versioned. */
    lemma VersionedUnlessLoneEditable()
      requires Valid() && !LoneEditable()
      ensures AllVersioned(candidates)
    {
    }

    /**
     * `compatible_abstract_dep`: a lone editable side wins; otherwise a new dependency whose
     * candidates are this one's of compatible version and whose memo keeps only their entries.
     * An empty candidate list is returned as is, not raised.
     */
    method CompatibleAbstractDep(other: AbstractDependency, format: InstallReq -> string)
      returns (r: MergeResult)
      requires Valid() && other.Valid()
      ensures LoneEditable() ==> r == Merged(this)
      ensures !LoneEditable() && other.LoneEditable() ==> r == Merged(other)
      ensures !LoneEditable() && !other.LoneEditable() && ConjoinDep(specifiers, other.specifiers).None? ==>
                r == MergeRaised(SpecifierTypeError)
      ensures !LoneEditable() && !other.LoneEditable() && ConjoinDep(specifiers, other.specifiers).Some? ==>
                AllVersioned(candidates) && r.Merged? && fresh(r.dep) && r.dep.Valid()
                && r.dep.name == name && r.dep.markers == markers && r.dep.parent == parent
                && r.dep.finder == finder
                && r.dep.specifiers == Specs(ConjoinDep(specifiers, other.specifiers).value)
                && r.dep.requirement == requirement.(specifier := ConjoinDep(specifiers, other.specifiers).value)
                && r.dep.candidates == SurvivingCandidates(candidates, VersionSet() * other.VersionSet())
                && (forall k :: k in r.dep.depDict <==> k in depDict && k in FormatAll(r.dep.candidates, format))
                && (forall k :: k in r.dep.depDict ==> r.dep.depDict[k] == depDict[k])
    {
      if LoneEditable() {
        return Merged(this);
      } else if other.LoneEditable() {
        return Merged(other);
      }
      var newSpecifiers := ConjoinDep(specifiers, other.specifiers);
      if newSpecifiers.None? {
        return MergeRaised(SpecifierTypeError);
      }
      var newRequirement := requirement.(specifier := newSpecifiers.value);
      // both sides are past the editable test, so compatible_versions yields a version set
      var compatible := CompatibleVersions(other);
      VersionedUnlessLoneEditable();
      var survivors := SurvivingCandidates(candidates, compatible.versions);
      var pruned := PruneDepDict(depDict, FormatAll(survivors, format));
      var dep := new AbstractDependency(name, Specs(newSpecifiers.value), markers, survivors,
                                        newRequirement, parent, finder, pruned);
      assert compatible.versions == VersionSet() * other.VersionSet();
      return Merged(dep);
    }

    /**
     * `get_deps`: the memoised dependencies of a candidate, computed by `expand` (the
     * candidate's `Requirement.get_abstract_dependencies()`) only when its key is missing.
     */
    method GetDeps(candidate: InstallReq, format: InstallReq -> string,
                   expand: string -> seq<AbstractDependency>) returns (deps: seq<AbstractDependency>)
      modifies this
      ensures format(candidate) in depDict && deps == depDict[format(candidate)]
      ensures format(candidate) in old(depDict) ==> depDict == old(depDict)
      ensures format(candidate) !in old(depDict) ==>
                depDict == old(depDict)[format(candidate) := expand(format(candidate))]
    {
      var key := format(candidate);
      if key !in depDict {
        depDict := depDict[key := expand(key)];
      }
      deps := depDict[key];
    }

    /**
     * What `from_requirement` promises of the dependency it builds: a pinned or editable
     * requirement is its own only candidate, anything else gets one candidate per match,
     * sorted by version.
     */
    ghost predicate BuiltFrom(req: InstallReq, parent: Option<InstallReq>, finder: Finder,
                              normalize: string -> string)
      reads this
    {
      && Valid()
      && name == normalize(req.name)
      && specifiers == (if req.editable then EmptyString else Specs(req.specifier))
      && markers == req.markers && requirement == req && this.parent == parent
      && this.finder == finder && depDict == map[]
      && (IsPinned(req) || req.editable ==> candidates == [req])
      && (!IsPinned(req) && !req.editable ==>
            AllVersioned(candidates) && SortedByVersion(candidates) && NoDuplicates(candidates)
            && forall c :: c in candidates <==>
                 c in MadeCandidates(normalize(req.name), FindAllMatches(finder, req, false), req, parent))
    }

    /** `from_requirement`, called as `AbstractDependency.from_requirement(requirement, parent)`. */
    static method FromRequirement(requirement: InstallReq, parent: Option<InstallReq>, finder: Finder,
                                  normalize: string -> string) returns (dep: AbstractDependency)
      ensures fresh(dep) && dep.BuiltFrom(requirement, parent, finder, normalize)
    {
      var name := normalize(requirement.name);
      var specifiers := if !requirement.editable then Specs(requirement.specifier) else EmptyString;
      var candidates: seq<InstallReq> := [];
      if !IsPinned(requirement) && !requirement.editable {
        var matches := FindAllMatches(finder, requirement, false);
        var rest := matches;
        while rest != {}
          invariant rest <= matches
          invariant AllVersioned(candidates) && SortedByVersion(candidates) && NoDuplicates(candidates)
          invariant forall c :: c in candidates <==> c in MadeCandidates(name, matches - rest, requirement, parent)
          decreases rest
        {
          var r :| r in rest;
          var req := MadeCandidate(name, r, requirement, parent);
          candidates := candidates + [req];
          candidates := SortByVersion(set c | c in candidates);
          rest := rest - {r};
          assert forall c :: c in MadeCandidates(name, matches - rest, requirement, parent) <==>
                   c == req || c in MadeCandidates(name, matches - (rest + {r}), requirement, parent);
        }
        assert matches - rest == matches;
      } else {
        candidates := [requirement];
        assert IsPinned(requirement) ==> HasVersion(requirement);
      }
      dep := new AbstractDependency(name, specifiers, requirement.markers, candidates, requirement,
                                    parent, finder, map[]);
    }
  }

  /** `version_set` is empty exactly when at most one candidate is left. */
  lemma VersionSetEmpty(d: AbstractDependency)
    requires d.Valid()
    ensures d.VersionSet() == {} <==> |d.candidates| <= 1
  {
    if |d.candidates| >= 2 {
      assert VersionOf(d.candidates[0]) in d.VersionSet();
    }
  }

  /** Away from the editable short-circuit, the compatible versions do not depend on the order of the sides. */
  lemma CompatibleVersionsCommute(a: AbstractDependency, b: AbstractDependency)
    requires a.Valid() && b.Valid() && !a.LoneEditable() && !b.LoneEditable()
    ensures a.CompatibleVersions(b) == b.CompatibleVersions(a)
  {
  }

  /** A side with exactly one, non-editable, candidate has no version set, so no candidate survives the merge. */
  lemma LoneCandidateEmptiesMerge(a: AbstractDependency, b: AbstractDependency)
    requires a.Valid() && b.Valid() && !a.LoneEditable() && !b.LoneEditable()
    requires |a.candidates| == 1 || |b.candidates| == 1
    ensures AllVersioned(a.candidates)
    ensures SurvivingCandidates(a.candidates, a.VersionSet() * b.VersionSet()) == []
  {
    a.VersionedUnlessLoneEditable();
    assert a.VersionSet() * b.VersionSet() == {};
    SurvivingNone(a.candidates, a.VersionSet() * b.VersionSet());
  }

  /** Merging a dependency of two or more candidates with itself keeps every candidate. */
  lemma SelfMergeKeepsAll(a: AbstractDependency)
    requires a.Valid() && |a.candidates| >= 2
    ensures AllVersioned(a.candidates)
    ensures SurvivingCandidates(a.candidates, a.VersionSet() * a.VersionSet()) == a.candidates
  {
    a.VersionedUnlessLoneEditable();
    SurvivingAll(a.candidates, a.VersionSet() * a.VersionSet());
  }

  /**
   * Away from the editable short-circuit, the merged candidates carry exactly the versions the
   * two sides have in common; so merging `a` with `b` and `b` with `a` give the same versions.
   */
  lemma MergedVersions(a: AbstractDependency, b: AbstractDependency)
    requires a.Valid() && b.Valid() && !a.LoneEditable() && !b.LoneEditable()
    ensures AllVersioned(a.candidates) && AllVersioned(b.candidates)
    ensures CandidateVersions(SurvivingCandidates(a.candidates, a.VersionSet() * b.VersionSet()))
            == a.VersionSet() * b.VersionSet()
            == CandidateVersions(SurvivingCandidates(b.candidates, b.VersionSet() * a.VersionSet()))
  {
  }

  lemma SurvivorVersions(cands: seq<InstallReq>, compatible: set<Version>)
    requires AllVersioned(cands) && compatible <= CandidateVersions(cands)
    ensures CandidateVersions(SurvivingCandidates(cands, compatible)) == compatible
  {
  }

  /** `get_abstract_dependencies`: one dependency per requirement, in order, all with one parent. */
  method GetAbstractDependencies(reqs: seq<InstallReq>, finder: Finder, parent: Option<InstallReq>,
                                 normalize: string -> string) returns (deps: seq<AbstractDependency>)
    ensures |deps| == |reqs|
    ensures forall i :: 0 <= i < |reqs| ==> fresh(deps[i]) && deps[i].BuiltFrom(reqs[i], parent, finder, normalize)
  {
    deps := [];
    var i := 0;
    while i < |reqs|
      invariant 0 <= i <= |reqs| && |deps| == i
      invariant forall j :: 0 <= j < i ==> fresh(deps[j]) && deps[j].BuiltFrom(reqs[j], parent, finder, normalize)
    {
      var dep := AbstractDependency.FromRequirement(reqs[i], parent, finder, normalize);
      deps := deps + [dep];
      i := i + 1;
    }
  }
}
