/**
 * Install requirements, environment markers and the exceptions the dependency engine can raise.
 *
 * `InstallReq` is pip's `InstallRequirement` as the engine sees it; the requirementslib
 * `Requirement` wrapper is identified with the install requirement it carries.
 */
module Requirements {
  import opened Optional
  import opened Versions

  /** The two sides of a PEP 508 marker atom: a marker variable or a quoted literal. */
  datatype MarkerTerm = Variable(name: string) | Literal(value: string)

  /**
   * An element of packaging's `Marker._markers` list: a `(lhs, op, rhs)` tuple, a boolean
   * word (`"and"`, `"or"`), or a parenthesised sub-list.
   */
  datatype MarkerNode =
    | Atom(lhs: MarkerTerm, op: string, rhs: MarkerTerm)
    | Word(word: string)
    | Nested(nodes: seq<MarkerNode>)

  /** A packaging `Marker`; `nodes` is its `_markers` list. */
  datatype Marker = Marker(nodes: seq<MarkerNode>)

  /**
   * pip's `InstallRequirement`, reduced to the fields the dependency logic reads or sets.
   * `link` is the install requirement's own link; `reqLink` is the `link` attribute set on
   * its inner packaging requirement `req`.
   */
  datatype InstallReq = InstallReq(
    name: string,
    specifier: Specifier,
    markers: Option<Marker>,
    extras: seq<string>,
    editable: bool,
    constraint: bool,
    link: Option<string>,
    reqLink: Option<string>,
    parent: Option<InstallReq>)

  /** The exceptions that escape the modelled operations. */
  datatype Error =
    | ExpectedPinned(ireq: InstallReq)          // TypeError: "Expected pinned InstallRequirement, got ..."
    | FailedToGetDependencies(ireq: InstallReq)  // RuntimeError: "failed to get dependencies for ..."
    | JsonDecodeError                            // the metadata reply is not JSON
    | MissingInfo                                // KeyError: the reply has no "info" object
    | SpecifierTypeError                         // TypeError raised by a specifier `&`
    | MarkerIndexError                           // IndexError: `_markers[0]` of an empty marker list
    | MissingMarkers                              // AttributeError: `None` has no `_markers`

  // ---- rendering of markers (what `repr(marker)` shows) ----

  function RenderTerm(t: MarkerTerm): string {
    match t
    case Variable(n) => n
    case Literal(v) => "\"" + v + "\""
  }

  function Join(parts: seq<string>, sep: string): string {
    if |parts| == 0 then "" else if |parts| == 1 then parts[0] else parts[0] + sep + Join(parts[1..], sep)
  }

  /** packaging's `_format_marker`: lists are joined by blanks and parenthesised below the top. */
  function RenderNode(n: MarkerNode, first: bool): string
    decreases n
  {
    match n
    case Atom(l, o, r) => RenderTerm(l) + " " + o + " " + RenderTerm(r)
    case Word(w) => w
    case Nested(ns) =>
      if |ns| == 1 && !ns[0].Word? then RenderNode(ns[0], true)
      else
        var inner := Join(seq(|ns|, i requires 0 <= i < |ns| => RenderNode(ns[i], false)), " ");
        if first then inner else "(" + inner + ")"
  }

  function RenderMarker(m: Marker): string {
    RenderNode(Nested(m.nodes), true)
  }

  /** `p` occurs as a contiguous piece of `s`. */
  function IsInfix(p: string, s: string): (b: bool)
    decreases |s|
    ensures b <==> exists i :: 0 <= i && i + |p| <= |s| && Window(s, i, |p|) == p
  {
    if |p| > |s| then false
    else if p <= s then
      assert Window(s, 0, |p|) == p;
      true
    else
      assert forall j :: 0 <= j && j + |p| <= |s| - 1 ==> Window(s[1..], j, |p|) == Window(s, j + 1, |p|);
      assert forall i :: 0 <= i && i + |p| <= |s| && Window(s, i, |p|) == p ==>
               i > 0 && Window(s[1..], i - 1, |p|) == p;
      IsInfix(p, s[1..])
  }

  /** The `n` characters of `s` starting at `i`. */
  function Window(s: string, i: nat, n: nat): string
    requires i + n <= |s|
  {
    s[i..i + n]
  }

  /** `"extra" in repr(markers)`: the marker text mentions `extra` anywhere. */
  function MentionsExtra(markers: Option<Marker>): (b: bool)
    ensures b <==> markers.Some? &&
                   exists i :: 0 <= i && i + 5 <= |RenderMarker(markers.value)|
                               && Window(RenderMarker(markers.value), i, 5) == "extra"
  {
    markers.Some? && IsInfix("extra", RenderMarker(markers.value))
  }

  // ---- pins and versions of install requirements ----

  /** `_specs` of the requirement's specifier, as a set. */
  function ClauseSet(r: InstallReq): set<Clause> {
    set c | c in r.specifier.specs
  }

  /**
   * `is_pinned_requirement`: a non-editable requirement whose specifier is a single `==` clause.
   */
  function IsPinned(r: InstallReq): (b: bool)
    ensures b <==> !r.editable && |r.specifier.specs| > 0 && r.specifier.specs[0].op == Equal
                   && forall i :: 0 <= i < |r.specifier.specs| ==> r.specifier.specs[i] == r.specifier.specs[0]
  {
    SingleClause(r);
    !r.editable && |r.specifier.specs| > 0 && |ClauseSet(r)| == 1 && r.specifier.specs[0].op == Equal
  }

  /** The clause set has one element exactly when every clause repeats the first. */
  lemma SingleClause(r: InstallReq)
    ensures |r.specifier.specs| > 0 ==>
              (|ClauseSet(r)| == 1 <==>
               forall i :: 0 <= i < |r.specifier.specs| ==> r.specifier.specs[i] == r.specifier.specs[0])
  {
    var specs := r.specifier.specs;
    if |specs| > 0 {
      if forall i :: 0 <= i < |specs| ==> specs[i] == specs[0] {
        assert ClauseSet(r) == {specs[0]};
      }
      if |ClauseSet(r)| == 1 {
        forall i | 0 <= i < |specs|
          ensures specs[i] == specs[0]
        {
          if specs[i] != specs[0] {
            SubsetCardinality({specs[0], specs[i]}, ClauseSet(r));
          }
        }
      }
    }
  }

  /** `version_from_ireq` is defined when the specifier has a clause to read the version from. */
  predicate HasVersion(r: InstallReq) {
    |r.specifier.specs| > 0
  }

  /** `version_from_ireq`: the version of the specifier's first clause. */
  function VersionOf(r: InstallReq): Version
    requires HasVersion(r)
  {
    r.specifier.specs[0].version
  }

  lemma PinnedAdmitsOnlyItsVersion(r: InstallReq, v: Version)
    requires IsPinned(r)
    ensures Contains(r.specifier, v) <==> v == VersionOf(r)
  {
  }

  lemma SubsetCardinality<T>(a: set<T>, b: set<T>)
    requires a <= b
    ensures |a| <= |b|
  {
    if a != {} {
      var x :| x in a;
      SubsetCardinality(a - {x}, b - {x});
    }
  }

  /**
   * `make_install_requirement(name, version, extras, markers, constraint)`: the requirement
   * `name==version` carrying the given extras, markers and constraint flag.
   */
  function MakeInstallRequirement(name: string, version: Version, extras: seq<string>,
                                  markers: Option<Marker>, constraint: bool): (r: InstallReq)
    ensures IsPinned(r) && VersionOf(r) == version && !r.editable
    ensures r.name == name && r.extras == extras && r.markers == markers && r.constraint == constraint
    ensures r.link.None? && r.reqLink.None? && r.parent.None?
  {
    var r := InstallReq(name, SpecSet([Clause(Equal, version)]), markers, extras, false, constraint, None, None, None);
    assert ClauseSet(r) == {Clause(Equal, version)};
    r
  }

  /** `[format_requirement(r) for r in reqs]`, with `format_requirement` as a key function. */
  function FormatAll(reqs: seq<InstallReq>, format: InstallReq -> string): (lines: seq<string>)
    ensures |lines| == |reqs| && forall i :: 0 <= i < |reqs| ==> lines[i] == format(reqs[i])
  {
    seq(|reqs|, i requires 0 <= i < |reqs| => format(reqs[i]))
  }

  predicate NoDuplicates<T(==)>(s: seq<T>) {
    forall i, j :: 0 <= i < j < |s| ==> s[i] != s[j]
  }
}
