/**
 * `get_grouped_dependencies`: each group of requirements for one package key becomes one
 * requirement.  A group with an editable entry yields that entry; any other group is folded,
 * left to right, into a copy of its first entry.
 */
module Grouping {
  import opened Optional
  import opened Versions
  import opened Requirements

  // ---- `sorted(set(extras))` ----

  /** Python's `<` on `str`: lexicographic by code point, a proper prefix first. */
  predicate StrLess(a: string, b: string) {
    |b| > 0 && (|a| == 0 || a[0] < b[0] || (a[0] == b[0] && StrLess(a[1..], b[1..])))
  }

  lemma {:induction false} StrLessIrreflexive(a: string)
    ensures !StrLess(a, a)
  {
    if |a| > 0 {
      StrLessIrreflexive(a[1..]);
    }
  }

  lemma {:induction false} StrLessTransitive(a: string, b: string, c: string)
    requires StrLess(a, b) && StrLess(b, c)
    ensures StrLess(a, c)
  {
    if |a| > 0 && a[0] == b[0] && b[0] == c[0] {
      StrLessTransitive(a[1..], b[1..], c[1..]);
    }
  }

  lemma {:induction false} StrLessTotal(a: string, b: string)
    requires a != b
    ensures StrLess(a, b) || StrLess(b, a)
  {
    if |a| > 0 && |b| > 0 && a[0] == b[0] {
      assert a == [a[0]] + a[1..] && b == [b[0]] + b[1..];
      StrLessTotal(a[1..], b[1..]);
    }
  }

  predicate StrictlySorted(s: seq<string>) {
    forall i, j :: 0 <= i < j < |s| ==> StrLess(s[i], s[j])
  }

  lemma StrictlySortedTail(t: seq<string>)
    requires t != [] && StrictlySorted(t)
    ensures StrictlySorted(t[1..]) && forall y :: y in t[1..] ==> StrLess(t[0], y)
  {
  }

  lemma StrictlySortedCons(x: string, t: seq<string>)
    requires StrictlySorted(t) && forall y :: y in t ==> StrLess(x, y)
    ensures StrictlySorted([x] + t)
  {
  }

  /** Insertion of `x` into a strictly sorted list, unless it is there already. */
  function InsertUnique(x: string, t: seq<string>): (r: seq<string>)
    requires StrictlySorted(t)
    ensures StrictlySorted(r)
    ensures forall y :: y in r <==> y == x || y in t
  {
    if t == [] then [x]
    else if x == t[0] then t
    else
      StrictlySortedTail(t);
      if StrLess(x, t[0]) then
        assert forall y :: y in t ==> StrLess(x, y) by {
          forall y | y in t ensures StrLess(x, y) {
            if y != t[0] { StrLessTransitive(x, t[0], y); }
          }
        }
        StrictlySortedCons(x, t);
        [x] + t
      else
        StrLessTotal(x, t[0]);
        var rest := InsertUnique(x, t[1..]);
        assert forall y :: y in t <==> y == t[0] || y in t[1..];
        StrictlySortedCons(t[0], rest);
        [t[0]] + rest
  }

  /** `sorted(set(s))` */
  function SortedUnique(s: seq<string>): (r: seq<string>)
    ensures StrictlySorted(r)
    ensures forall y :: y in r <==> y in s
  {
    if s == [] then []
    else
      assert forall y :: y in s <==> y == s[0] || y in s[1..];
      InsertUnique(s[0], SortedUnique(s[1..]))
  }

  lemma SameMembersEmpty(a: seq<string>, b: seq<string>)
    requires forall y :: y in a <==> y in b
    ensures a == [] <==> b == []
  {
    if a != [] { assert a[0] in b; }
    if b != [] { assert b[0] in a; }
  }

  /** There is one strictly sorted list of a given set of strings, so `SortedUnique` is `sorted(set(s))`. */
  lemma {:induction false} StrictlySortedUnique(a: seq<string>, b: seq<string>)
    requires StrictlySorted(a) && StrictlySorted(b)
    requires forall y :: y in a <==> y in b
    ensures a == b
  {
    SameMembersEmpty(a, b);
    if a != [] {
      assert a == [a[0]] + a[1..] && b == [b[0]] + b[1..];
      StrictlySortedTail(a);
      StrictlySortedTail(b);
      if a[0] != b[0] {
        assert a[0] in b && b[0] in a;
        assert a[0] in b[1..] && b[0] in a[1..];
        StrLessTransitive(a[0], b[0], a[0]);
        StrLessIrreflexive(a[0]);
      }
      forall y | y in a[1..] ensures y in b[1..] {
        StrLessIrreflexive(y);
        assert y in b;
      }
      forall y | y in b[1..] ensures y in a[1..] {
        StrLessIrreflexive(y);
        assert y in a;
      }
      StrictlySortedUnique(a[1..], b[1..]);
    }
  }

  // ---- one step of the fold ----

  /**
   * `combined.specifier &= next.specifier`; when `&` raises `TypeError`, the accumulator takes
   * the other entry's clauses only if it has none and the other has some.
   */
  function CombinedSpecifier(acc: Specifier, next: Specifier): (r: Specifier)
    ensures Conjoin(acc, next).Some? ==>
              r.SpecSet? && forall v :: Contains(r, v) <==> Contains(acc, v) && Contains(next, v)
    ensures Conjoin(acc, next).None? ==> r.SpecSet? == acc.SpecSet?
    ensures Conjoin(acc, next).None? && |acc.specs| > 0 ==> r == acc
    ensures Conjoin(acc, next).None? && |acc.specs| == 0 ==> r.specs == next.specs
  {
    match Conjoin(acc, next)
    case Some(s) => s
    case None => if |next.specs| > 0 && |acc.specs| == 0 then acc.(specs := next.specs) else acc
  }

  /**
   * The marker step: an accumulator without markers takes the other entry's; one whose marker
   * list starts with a word is AND-nested with the other's; any other is kept and the other
   * entry's markers are dropped.
   */
  function CombinedMarkers(acc: Option<Marker>, next: Option<Marker>): (r: Result<Option<Marker>, Error>)
    ensures acc.None? ==> r == Ok(next)
    ensures acc.Some? && acc.value.nodes == [] ==> r == Err(MarkerIndexError)
    ensures acc.Some? && acc.value.nodes != [] && !acc.value.nodes[0].Word? ==> r == Ok(acc)
    ensures acc.Some? && acc.value.nodes != [] && acc.value.nodes[0].Word? ==>
              if next.None? then r == Err(MissingMarkers)
              else r == Ok(Some(Marker([Nested(acc.value.nodes), Word("and"), Nested(next.value.nodes)])))
  {
    if acc.None? then Ok(next)
    else if acc.value.nodes == [] then Err(MarkerIndexError)
    else if !acc.value.nodes[0].Word? then Ok(acc)
    else if next.None? then Err(MissingMarkers)
    else Ok(Some(Marker([Nested(acc.value.nodes), Word("and"), Nested(next.value.nodes)])))
  }

  /** One pass of the inner loop: the accumulator after absorbing `next`, or the exception raised. */
  function Absorb(acc: InstallReq, next: InstallReq): (r: Result<InstallReq, Error>)
    ensures r.Err? <==> CombinedMarkers(acc.markers, next.markers).Err?
    ensures r.Ok? ==>
              r.value.name == acc.name && r.value.editable == acc.editable
              && r.value.link == acc.link && r.value.parent == acc.parent
              && r.value.specifier == CombinedSpecifier(acc.specifier, next.specifier)
              && r.value.markers == CombinedMarkers(acc.markers, next.markers).value
              && r.value.constraint == (acc.constraint && next.constraint)
              && StrictlySorted(r.value.extras)
              && forall e :: e in r.value.extras <==> e in acc.extras || e in next.extras
  {
    match CombinedMarkers(acc.markers, next.markers)
    case Err(e) => Err(e)
    case Ok(m) =>
      Ok(acc.(specifier := CombinedSpecifier(acc.specifier, next.specifier),
              constraint := acc.constraint && next.constraint,
              markers := m,
              extras := SortedUnique(acc.extras + next.extras)))
  }

  // ---- a group, and all groups ----

  /** The fold of the entries `rest` into the accumulator `acc`. */
  function FoldGroup(acc: InstallReq, rest: seq<InstallReq>): (r: Result<InstallReq, Error>)
    decreases |rest|
    ensures rest == [] ==> r == Ok(acc)
    ensures r.Err? ==> r.error == MarkerIndexError || r.error == MissingMarkers
    ensures r.Err? ==> acc.markers.Some? || exists i :: 0 <= i < |rest| && rest[i].markers.Some?
  {
    if rest == [] then Ok(acc)
    else
      match Absorb(acc, rest[0])
      case Err(e) => Err(e)
      case Ok(a) => FoldGroup(a, rest[1..])
  }

  /** `first(ireqs, key=lambda ireq: ireq.editable)` */
  function FirstEditable(group: seq<InstallReq>): (r: Option<InstallReq>)
    ensures r.None? <==> forall x :: x in group ==> !x.editable
    ensures r.Some? ==> exists i :: 0 <= i < |group| && group[i] == r.value && r.value.editable
                                   && forall j :: 0 <= j < i ==> !group[j].editable
  {
    if group == [] then None
    else if group[0].editable then Some(group[0])
    else
      var r := FirstEditable(group[1..]);
      assert forall x :: x in group ==> x == group[0] || x in group[1..];
      assert r.Some? ==> exists i :: 0 <= i < |group| && group[i] == r.value && r.value.editable
                                     && forall j :: 0 <= j < i ==> !group[j].editable by {
        if r.Some? {
          var i :| 0 <= i < |group[1..]| && group[1..][i] == r.value && r.value.editable
                   && forall j :: 0 <= j < i ==> !group[1..][j].editable;
          assert group[i + 1] == r.value;
          forall j | 0 < j < i + 1 ensures !group[j].editable { assert group[j] == group[1..][j - 1]; }
        }
      }
      r
  }

  /** What the generator yields for one group, or the exception it raises there. */
  function GroupResult(group: seq<InstallReq>): (r: Result<InstallReq, Error>)
    requires |group| > 0
    ensures (exists i :: 0 <= i < |group| && group[i].editable) ==> r.Ok? && r.value.editable && r.value in group
    ensures (forall i :: 0 <= i < |group| ==> !group[i].editable) ==> r == FoldGroup(group[0], group[1..])
  {
    match FirstEditable(group)
    case Some(e) => Ok(e)
    case None => FoldGroup(group[0], group[1..])
  }

  // ---- what the fold promises ----

  /** The combined `constraint` flag is the AND of all entries' flags. */
  lemma {:induction false} FoldConstraint(acc: InstallReq, rest: seq<InstallReq>)
    requires FoldGroup(acc, rest).Ok?
    ensures FoldGroup(acc, rest).value.constraint == (acc.constraint && forall x :: x in rest ==> x.constraint)
    decreases |rest|
  {
    if rest != [] {
      FoldConstraint(Absorb(acc, rest[0]).value, rest[1..]);
      assert forall x :: x in rest <==> x == rest[0] || x in rest[1..];
    }
  }

  /**
   * The combined extras are the union of all entries' extras; once a second entry has been
   * taken in they are sorted and free of duplicates.
   */
  lemma {:induction false} FoldExtras(acc: InstallReq, rest: seq<InstallReq>)
    requires FoldGroup(acc, rest).Ok?
    ensures forall e :: e in FoldGroup(acc, rest).value.extras <==>
              e in acc.extras || exists x :: x in rest && e in x.extras
    ensures rest != [] ==> StrictlySorted(FoldGroup(acc, rest).value.extras)
    decreases |rest|
  {
    if rest != [] {
      var a := Absorb(acc, rest[0]).value;
      FoldExtras(a, rest[1..]);
      forall e ensures e in FoldGroup(acc, rest).value.extras <==>
                        e in acc.extras || exists x :: x in rest && e in x.extras {
        if e in rest[0].extras { assert rest[0] in rest; }
        if exists x :: x in rest && e in x.extras {
          var x :| x in rest && e in x.extras;
          assert x == rest[0] || x in rest[1..];
        }
        if exists x :: x in rest[1..] && e in x.extras {
          var x :| x in rest[1..] && e in x.extras;
          assert x in rest;
        }
      }
    }
  }

  /**
   * When every specifier is a specifier set, the combined specifier admits exactly the versions
   * every entry's specifier admits.
   */
  lemma {:induction false} FoldSpecifier(acc: InstallReq, rest: seq<InstallReq>, v: Version)
    requires acc.specifier.SpecSet? && forall x :: x in rest ==> x.specifier.SpecSet?
    requires FoldGroup(acc, rest).Ok?
    ensures FoldGroup(acc, rest).value.specifier.SpecSet?
    ensures Contains(FoldGroup(acc, rest).value.specifier, v) <==>
              Contains(acc.specifier, v) && forall x :: x in rest ==> Contains(x.specifier, v)
    decreases |rest|
  {
    if rest != [] {
      assert forall x :: x in rest <==> x == rest[0] || x in rest[1..];
      FoldSpecifier(Absorb(acc, rest[0]).value, rest[1..], v);
    }
  }

  /** The combined entry is a copy of the first entry in everything else. */
  lemma {:induction false} FoldKeepsIdentity(acc: InstallReq, rest: seq<InstallReq>)
    requires FoldGroup(acc, rest).Ok?
    ensures var r := FoldGroup(acc, rest).value;
            r.name == acc.name && r.editable == acc.editable && r.link == acc.link && r.parent == acc.parent
    decreases |rest|
  {
    if rest != [] {
      FoldKeepsIdentity(Absorb(acc, rest[0]).value, rest[1..]);
    }
  }

  /** Markers as packaging parses them: a non-empty list whose first element is not a bare word. */
  predicate ParsedMarkers(m: Option<Marker>) {
    m.None? || (m.value.nodes != [] && !m.value.nodes[0].Word?)
  }

  /** The markers of the first entry that has any. */
  function FirstMarkers(entries: seq<InstallReq>): (m: Option<Marker>)
    ensures m.None? <==> forall x :: x in entries ==> x.markers.None?
  {
    if entries == [] then None
    else if entries[0].markers.Some? then entries[0].markers
    else
      assert forall x :: x in entries <==> x == entries[0] || x in entries[1..];
      FirstMarkers(entries[1..])
  }

  /**
   * With parsed markers the fold never raises and never AND-combines: the combined markers are
   * those of the first entry that has any, and the later entries' markers are dropped.
   */
  lemma {:induction false} FoldParsedMarkers(acc: InstallReq, rest: seq<InstallReq>)
    requires ParsedMarkers(acc.markers) && forall x :: x in rest ==> ParsedMarkers(x.markers)
    ensures FoldGroup(acc, rest).Ok?
    ensures FoldGroup(acc, rest).value.markers == FirstMarkers([acc] + rest)
    decreases |rest|
  {
    if rest != [] {
      var a := Absorb(acc, rest[0]).value;
      assert rest[0] in rest;
      assert forall x :: x in rest[1..] ==> x in rest;
      FoldParsedMarkers(a, rest[1..]);
      assert ([acc] + rest)[1..] == rest;
      assert ([a] + rest[1..])[1..] == rest[1..];
    }
  }

  /** A group with an editable entry yields its first editable entry, untouched. */
  lemma EditableWins(group: seq<InstallReq>, i: nat)
    requires i < |group| && group[i].editable && forall j :: 0 <= j < i ==> !group[j].editable
    ensures GroupResult(group) == Ok(group[i])
  {
  }

  /** The group `pkg>=1,<3`, `pkg>=2` combines to a requirement equivalent to `pkg>=2,<3`. */
  lemma RangeGroupExample(v: Version)
    ensures var one := Version(1, None);
            var two := Version(2, None);
            var three := Version(3, None);
            var first := InstallReq("pkg", SpecSet([Clause(GreaterEqual, one), Clause(LessThan, three)]),
                                    None, [], false, false, None, None, None);
            var second := InstallReq("pkg", SpecSet([Clause(GreaterEqual, two)]), None, [], false, false, None, None, None);
            var r := GroupResult([first, second]);
            r.Ok? && r.value.name == "pkg" && r.value.specifier.SpecSet?
            && (Contains(r.value.specifier, v) <==> Contains(SpecSet([Clause(GreaterEqual, two), Clause(LessThan, three)]), v))
  {
    var one := Version(1, None);
    var two := Version(2, None);
    var three := Version(3, None);
    var first := InstallReq("pkg", SpecSet([Clause(GreaterEqual, one), Clause(LessThan, three)]),
                            None, [], false, false, None, None, None);
    var second := InstallReq("pkg", SpecSet([Clause(GreaterEqual, two)]), None, [], false, false, None, None, None);
    assert FirstEditable([first, second]) == None;
    assert [second][1..] == [];
    FoldSpecifier(first, [second], v);
    FoldKeepsIdentity(first, [second]);
    var target := SpecSet([Clause(GreaterEqual, two), Clause(LessThan, three)]);
    assert Contains(target, v) <==> Holds(target.specs[0], v) && Holds(target.specs[1], v);
    assert Contains(first.specifier, v) <==> Holds(first.specifier.specs[0], v) && Holds(first.specifier.specs[1], v);
    assert Contains(second.specifier, v) <==> Holds(second.specifier.specs[0], v);
  }

  /** The group `pkg==1.0`, editable `pkg` yields only the editable entry. */
  lemma EditableGroupExample()
    ensures var pinned := MakeInstallRequirement("pkg", Version(1, None), [], None, false);
            var local := InstallReq("pkg", SpecSet([]), None, [], true, false, Some("file:///local"), None, None);
            GroupResult([pinned, local]) == Ok(local)
  {
  }

  /** What the generator yields before it is exhausted or raises, and what it raises. */
  datatype Grouped = Grouped(yielded: seq<InstallReq>, failure: Option<Error>)

  function GroupAll(groups: seq<seq<InstallReq>>): (g: Grouped)
    requires forall i :: 0 <= i < |groups| ==> |groups[i]| > 0
    ensures |g.yielded| <= |groups|
    ensures g.failure.None? <==> |g.yielded| == |groups|
  {
    if groups == [] then Grouped([], None)
    else
      match GroupResult(groups[0])
      case Err(e) => Grouped([], Some(e))
      case Ok(r) =>
        var rest := GroupAll(groups[1..]);
        Grouped([r] + rest.yielded, rest.failure)
  }

  /**
   * The inner loop for a group without editables: a copy of the first entry takes in the
   * others field by field, or the exception a marker step raises ends the fold.
   */
  method CombineGroup(group: seq<InstallReq>) returns (r: Result<InstallReq, Error>)
    requires |group| > 0
    ensures r == FoldGroup(group[0], group[1..])
  {
    var combined := group[0];
    var j := 1;
    while j < |group|
      invariant 1 <= j <= |group|
      invariant FoldGroup(group[0], group[1..]) == FoldGroup(combined, group[j..])
    {
      var ireq := group[j];
      assert group[j..][1..] == group[j + 1..];
      ghost var before := combined;
      combined := combined.(specifier := CombinedSpecifier(combined.specifier, ireq.specifier));
      combined := combined.(constraint := combined.constraint && ireq.constraint);
      if combined.markers.None? {
        combined := combined.(markers := ireq.markers);
      } else if combined.markers.value.nodes == [] {
        return Err(MarkerIndexError);
      } else if combined.markers.value.nodes[0].Word? {
        if ireq.markers.None? {
          return Err(MissingMarkers);
        }
        combined := combined.(markers := Some(Marker([Nested(combined.markers.value.nodes), Word("and"),
                                                      Nested(ireq.markers.value.nodes)])));
      }
      combined := combined.(extras := SortedUnique(combined.extras + ireq.extras));
      assert Absorb(before, ireq) == Ok(combined);
      j := j + 1;
    }
    assert group[j..] == [];
    return Ok(combined);
  }

  /**
   * The generator yields each group's result in order, and stops at the first group that
   * raises, with that group's exception.
   */
  lemma {:induction false} GroupAllYields(groups: seq<seq<InstallReq>>)
    requires forall i :: 0 <= i < |groups| ==> |groups[i]| > 0
    ensures |GroupAll(groups).yielded| <= |groups|
    ensures forall i :: 0 <= i < |GroupAll(groups).yielded| ==> GroupResult(groups[i]) == Ok(GroupAll(groups).yielded[i])
    ensures GroupAll(groups).failure.None? <==> |GroupAll(groups).yielded| == |groups|
    ensures GroupAll(groups).failure.Some? ==>
              GroupResult(groups[|GroupAll(groups).yielded|]) == Err(GroupAll(groups).failure.value)
  {
    if groups != [] && GroupResult(groups[0]).Ok? {
      GroupAllYields(groups[1..]);
      var g := GroupAll(groups);
      forall i | 0 < i < |g.yielded| ensures GroupResult(groups[i]) == Ok(g.yielded[i]) {
        assert groups[i] == groups[1..][i - 1];
      }
    }
  }

  lemma GroupAllStep(groups: seq<seq<InstallReq>>, i: nat)
    requires forall k :: 0 <= k < |groups| ==> |groups[k]| > 0
    requires i < |groups|
    ensures GroupAll(groups[i..]) == match GroupResult(groups[i])
              case Err(e) => Grouped([], Some(e))
              case Ok(r) => Grouped([r] + GroupAll(groups[i + 1..]).yielded, GroupAll(groups[i + 1..]).failure)
  {
  }

  /** One group's turn in the generator: the editable entry if there is one, else the fold. */
  method GroupOne(group: seq<InstallReq>) returns (r: Result<InstallReq, Error>)
    requires |group| > 0
    ensures r == GroupResult(group)
  {
    var editable := FirstEditable(group);
    if editable.Some? {
      r := Ok(editable.value);
    } else {
      r := CombineGroup(group);
    }
  }

  /**
   * `get_grouped_dependencies` over the groups `full_groupby` produces, driven to the end:
   * what it yields, and the exception that stopped it, if any.
   */
  method GetGroupedDependencies(groups: seq<seq<InstallReq>>) returns (yielded: seq<InstallReq>, failure: Option<Error>)
    requires forall i :: 0 <= i < |groups| ==> |groups[i]| > 0
    ensures Grouped(yielded, failure) == GroupAll(groups)
  {
    yielded := [];
    var i := 0;
    while i < |groups|
      invariant 0 <= i <= |groups|
      invariant GroupAll(groups) == Grouped(yielded + GroupAll(groups[i..]).yielded, GroupAll(groups[i..]).failure)
    {
      GroupAllStep(groups, i);
      var r := GroupOne(groups[i]);
      if r.Err? {
        return yielded, Some(r.error);
      }
      yielded := yielded + [r.value];
      i := i + 1;
    }
    assert groups[i..] == [];
    return yielded, None;
  }
}
