/**
 * Candidate resolution: `_get_filtered_versions` and `find_all_matches`.
 *
 * The package finder is reduced to what the engine asks of it: the list of index
 * candidates known for a project name.
 */
module Matching {
  import opened Optional
  import opened Versions
  import opened Requirements

  /** pip's `InstallationCandidate`: one file of one version of a project. */
  datatype IndexCandidate = IndexCandidate(project: string, version: Version, location: string)

  /** A package finder, as the candidates it knows per project name. */
  datatype Finder = Finder(index: map<string, seq<IndexCandidate>>)

  /** `finder.find_all_candidates(name)`; a name the index does not know has no candidates. */
  function FindAllCandidates(finder: Finder, name: string): seq<IndexCandidate> {
    if name in finder.index then finder.index[name] else []
  }

  /** `_get_filtered_versions`: the versions the requirement's specifier admits. */
  function GetFilteredVersions(ireq: InstallReq, versions: set<Version>, prereleases: bool): (r: set<Version>)
    ensures forall v :: v in r <==> v in versions && Admits(ireq.specifier, v, prereleases)
  {
    set v | v in versions && Admits(ireq.specifier, v, prereleases)
  }

  /** Some candidate passes the specifier with pre-releases excluded. */
  predicate HasStrictMatch(cands: seq<IndexCandidate>, ireq: InstallReq) {
    exists c :: c in cands && Admits(ireq.specifier, c.version, false)
  }

  /**
   * `find_all_matches`: the finder's candidates whose version passes the specifier,
   * retrying with pre-releases allowed only when the strict filter found nothing.
   */
  function FindAllMatches(finder: Finder, ireq: InstallReq, pre: bool): (r: set<IndexCandidate>)
    ensures forall c :: c in r ==> c in FindAllCandidates(finder, ireq.name)
    ensures forall c :: c in r ==> Contains(ireq.specifier, c.version)
    ensures !pre && HasStrictMatch(FindAllCandidates(finder, ireq.name), ireq) ==>
              forall c :: c in r ==> !IsPrerelease(c.version)
    ensures forall c :: c in FindAllCandidates(finder, ireq.name) ==>
              (c in r <==> Admits(ireq.specifier, c.version, pre)
                           || (!pre && !HasStrictMatch(FindAllCandidates(finder, ireq.name), ireq)
                               && Contains(ireq.specifier, c.version)))
  {
    var candidates := FindAllCandidates(finder, ireq.name);
    var versions := set c | c in candidates :: c.version;
    var strict := GetFilteredVersions(ireq, versions, pre);
    var allowed := if !pre && strict == {} then GetFilteredVersions(ireq, versions, true) else strict;
    assert !pre ==> (strict == {} <==> !HasStrictMatch(candidates, ireq)) by {
      if !pre && HasStrictMatch(candidates, ireq) {
        var c :| c in candidates && Admits(ireq.specifier, c.version, false);
        assert c.version in strict;
      }
    }
    set c | c in candidates && c.version in allowed
  }

  /**
   * With no stable candidate admitted, the pre-releases the specifier admits are returned
   * (and with none of those either, nothing is).
   */
  lemma PrereleaseWidening(finder: Finder, ireq: InstallReq)
    requires !HasStrictMatch(FindAllCandidates(finder, ireq.name), ireq)
    ensures forall c :: c in FindAllMatches(finder, ireq, false) <==>
              c in FindAllCandidates(finder, ireq.name) && Contains(ireq.specifier, c.version)
              && IsPrerelease(c.version)
  {
  }

  /** Allowing pre-releases from the start never returns fewer candidates. */
  lemma PreReleasesOnlyWiden(finder: Finder, ireq: InstallReq)
    ensures FindAllMatches(finder, ireq, false) <= FindAllMatches(finder, ireq, true)
  {
  }

  /** A range admitting only a pre-release: `>1.0` over `1.0` and `2.0rc1` yields the pre-release. */
  lemma PrereleaseOnlyExample(ireq: InstallReq)
    requires ireq.name == "pkg" && ireq.specifier == SpecSet([Clause(GreaterThan, Version(1, None))])
    ensures var stable := IndexCandidate("pkg", Version(1, None), "pkg-1.0.tar.gz");
            var rc := IndexCandidate("pkg", Version(2, Some(1)), "pkg-2.0rc1.tar.gz");
            FindAllMatches(Finder(map["pkg" := [stable, rc]]), ireq, false) == {rc}
  {
    var stable := IndexCandidate("pkg", Version(1, None), "pkg-1.0.tar.gz");
    var rc := IndexCandidate("pkg", Version(2, Some(1)), "pkg-2.0rc1.tar.gz");
    var finder := Finder(map["pkg" := [stable, rc]]);
    assert FindAllCandidates(finder, "pkg") == [stable, rc];
    assert !Contains(ireq.specifier, stable.version) by {
      assert !Holds(ireq.specifier.specs[0], stable.version);
    }
    assert Contains(ireq.specifier, rc.version);
    assert !HasStrictMatch([stable, rc], ireq);
    var r := FindAllMatches(finder, ireq, false);
    assert rc in r;
    assert forall c :: c in r ==> c == rc;
  }

  /** `<2.0` refuses `2.0rc1` even in the widened retry, so over `2.0rc1` alone nothing matches. */
  lemma ExclusiveBelowFinalExample(ireq: InstallReq)
    requires ireq.name == "pkg" && ireq.specifier == SpecSet([Clause(LessThan, Version(2, None))])
    ensures var rc := IndexCandidate("pkg", Version(2, Some(1)), "pkg-2.0rc1.tar.gz");
            FindAllMatches(Finder(map["pkg" := [rc]]), ireq, false) == {}
  {
    var rc := IndexCandidate("pkg", Version(2, Some(1)), "pkg-2.0rc1.tar.gz");
    var finder := Finder(map["pkg" := [rc]]);
    assert FindAllCandidates(finder, "pkg") == [rc];
    assert !Holds(ireq.specifier.specs[0], rc.version);
  }
}
