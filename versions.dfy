/**
 * Versions and version specifiers, as far as the dependency engine relies on them.
 *
 * A version is reduced to its place in release precedence (`release`) and an optional
 * pre-release number: `2.0rc1` is `Version(2, Some(1))`, `2.0` is `Version(2, None)`, and
 * every pre-release of a release sorts before the final release.  A specifier set is a
 * list of clauses; it admits a version when every clause does, and `&` joins the lists.
 */
module Versions {
  import opened Optional

  datatype Version = Version(release: nat, pre: Option<nat>)

  predicate IsPrerelease(v: Version) {
    v.pre.Some?
  }

  predicate PreLess(a: Option<nat>, b: Option<nat>) {
    match (a, b)
    case (Some(x), Some(y)) => x < y
    case (Some(_), None) => true
    case _ => false
  }

  /** Release precedence: strict order. */
  predicate Less(a: Version, b: Version) {
    a.release < b.release || (a.release == b.release && PreLess(a.pre, b.pre))
  }

  predicate LessEq(a: Version, b: Version) {
    a == b || Less(a, b)
  }

  lemma LessIrreflexive(a: Version)
    ensures !Less(a, a)
  {
  }

  lemma LessTransitive(a: Version, b: Version, c: Version)
    requires Less(a, b) && Less(b, c)
    ensures Less(a, c)
  {
  }

  lemma LessTotal(a: Version, b: Version)
    ensures a == b || Less(a, b) || Less(b, a)
  {
  }

  datatype Operator = Equal | NotEqual | LessThan | LessEqual | GreaterThan | GreaterEqual

  /** One clause of a specifier set, such as `>=2.0`. */
  datatype Clause = Clause(op: Operator, version: Version)

  /**
   * Whether a version satisfies a clause.  An exclusive `<V` also refuses the pre-releases of
   * `V` itself unless `V` is a pre-release, as PEP 440's exclusive ordered comparison demands.
   */
  predicate Holds(c: Clause, v: Version) {
    match c.op
    case Equal => v == c.version
    case NotEqual => v != c.version
    case LessThan =>
      Less(v, c.version) && !(!IsPrerelease(c.version) && IsPrerelease(v) && v.release == c.version.release)
    case LessEqual => LessEq(v, c.version)
    case GreaterThan => Less(c.version, v)
    case GreaterEqual => LessEq(c.version, v)
  }

  /**
   * `SpecSet` is packaging's `SpecifierSet`, whose `_specs` are the clauses.  `Foreign` is any
   * other specifier-like object that carries `_specs` but with which `&` raises `TypeError`.
   */
  datatype Specifier = SpecSet(specs: seq<Clause>) | Foreign(specs: seq<Clause>)

  /** The version satisfies every clause of the specifier. */
  predicate Contains(s: Specifier, v: Version) {
    forall i :: 0 <= i < |s.specs| ==> Holds(s.specs[i], v)
  }

  /** `specifier.filter(..., prereleases=p)` keeps exactly the versions this admits. */
  predicate Admits(s: Specifier, v: Version, prereleases: bool) {
    Contains(s, v) && (prereleases || !IsPrerelease(v))
  }

  /** `a & b`: defined on two specifier sets, where it is conjunction; `None` is the `TypeError`. */
  function Conjoin(a: Specifier, b: Specifier): (r: Option<Specifier>)
    ensures r.Some? <==> a.SpecSet? && b.SpecSet?
    ensures r.Some? ==> r.value.SpecSet?
    ensures r.Some? ==> forall v :: Contains(r.value, v) <==> Contains(a, v) && Contains(b, v)
    ensures r.Some? ==> (|r.value.specs| == 0 <==> |a.specs| == 0 && |b.specs| == 0)
  {
    if a.SpecSet? && b.SpecSet? then
      var joined := a.specs + b.specs;
      assert forall v :: Contains(SpecSet(joined), v) <==> Contains(a, v) && Contains(b, v) by {
        forall v ensures Contains(SpecSet(joined), v) <==> Contains(a, v) && Contains(b, v) {
          if Contains(a, v) && Contains(b, v) {
            forall i | 0 <= i < |joined| ensures Holds(joined[i], v) {
              if i >= |a.specs| { assert joined[i] == b.specs[i - |a.specs|]; }
            }
          }
          if Contains(SpecSet(joined), v) {
            forall i | 0 <= i < |a.specs| ensures Holds(a.specs[i], v) {
              assert joined[i] == a.specs[i];
            }
            forall i | 0 <= i < |b.specs| ensures Holds(b.specs[i], v) {
              assert joined[|a.specs| + i] == b.specs[i];
            }
          }
        }
      }
      Some(SpecSet(joined))
    else
      None
  }
}
