/**
 * `get_dependencies`: the dependencies of one install requirement, asked of four sources in
 * turn (the dependency cache, the wheel cache, the package index's JSON metadata API, pip's
 * resolver); the first answer wins.  The tiers share the dependency cache, each with its own
 * rule for reading and writing it.
 */
module DependencyLookup {
  import opened Optional
  import opened Versions
  import opened Requirements

  /** `DEPENDENCY_CACHE`: formatted dependency lines per requirement key. */
  class DependencyCache {
    var entries: map<string, seq<string>>

    constructor ()
      ensures entries == map[]
    {
      entries := map[];
    }

    /** `DEPENDENCY_CACHE[key] = lines` */
    method Store(key: string, lines: seq<string>)
      modifies this
      ensures entries == old(entries)[key := lines]
    {
      entries := entries[key := lines];
    }
  }

  /** A field of the JSON `info` object: missing, `null`, or a list of requirement lines. */
  datatype JsonField = Absent | Null | Items(lines: seq<string>)

  /** What the metadata request yields: no JSON at all, JSON without `info`, or the `info` object. */
  datatype JsonReply = NotJson | NoInfo | Info(requiresDist: JsonField, legacyRequires: JsonField)

  /** `resolver._resolve_one(reqset, dep)`: the requirements it returns, or an exception. */
  datatype ResolverOutcome = Resolved(reqs: seq<InstallReq>) | ResolverRaised

  /**
   * The services the lookup calls and does not define: `format_requirement`, the dependency
   * cache's key of a requirement, `WHEEL_CACHE.get(link, name)` (no entry reads as `[]`), the
   * metadata request for a name and pinned version, `InstallRequirement.from_line`, and the
   * pip resolver.
   */
  datatype Services = Services(
    format: InstallReq -> string,
    cacheKey: InstallReq -> string,
    wheelLookup: InstallReq -> seq<InstallReq>,
    fetchJson: (string, Version) -> JsonReply,
    parseLine: string -> InstallReq,
    resolveOne: InstallReq -> ResolverOutcome)

  /** An element of the returned set: a dependency line, or an install requirement. */
  datatype Dep = Line(line: string) | Ireq(ireq: InstallReq)

  /** What a tier returns: a set of dependencies, `None`, or an exception. */
  datatype Lookup = Found(deps: set<Dep>) | NoAnswer | Raised(error: Error)

  /**
   * What a tier writes to the cache under the requirement's key: nothing, the given lines, or
   * the formatted members of a set in the order the set is iterated.
   */
  datatype Write = NoWrite | WriteLines(lines: seq<string>) | WriteListing(reqs: set<InstallReq>)

  datatype Step = Step(result: Lookup, write: Write)

  function Lines(ls: seq<string>): set<Dep> {
    set l | l in ls :: Line(l)
  }

  function Ireqs(rs: set<InstallReq>): set<Dep> {
    set r | r in rs :: Ireq(r)
  }

  ghost predicate Enumerates(e: seq<InstallReq>, s: set<InstallReq>) {
    NoDuplicates(e) && forall x :: x in e <==> x in s
  }

  /** `[format_requirement(m) for m in s]` for some iteration order of the set `s`. */
  ghost predicate IsListing(lines: seq<string>, s: set<InstallReq>, format: InstallReq -> string) {
    exists e :: Enumerates(e, s) && lines == FormatAll(e, format)
  }

  /** The cache `after` is `before` with the write `w` done under `key`. */
  ghost predicate Applied(after: map<string, seq<string>>, before: map<string, seq<string>>, key: string,
                          w: Write, format: InstallReq -> string) {
    match w
    case NoWrite => after == before
    case WriteLines(ls) => after == before[key := ls]
    case WriteListing(s) => key in after && after == before[key := after[key]] && IsListing(after[key], s, format)
  }

  // ---- the four tiers, as functions of the cache contents ----

  /** `get_dependencies_from_cache` */
  function CacheTier(ireq: InstallReq, entries: map<string, seq<string>>, svc: Services): (s: Step)
    ensures s.write == NoWrite && !s.result.Raised?
    ensures s.result.NoAnswer? <==> ireq.editable || svc.cacheKey(ireq) !in entries
    ensures s.result.Found? ==> s.result.deps == Lines(entries[svc.cacheKey(ireq)])
  {
    var key := svc.cacheKey(ireq);
    if !ireq.editable && key in entries then Step(Found(Lines(entries[key])), NoWrite)
    else Step(NoAnswer, NoWrite)
  }

  /** `get_dependencies_from_wheel_cache` */
  function WheelTier(ireq: InstallReq, entries: map<string, seq<string>>, svc: Services): (s: Step)
    ensures !s.result.Raised?
    ensures s.result.NoAnswer? <==> ireq.editable || svc.wheelLookup(ireq) == []
    ensures s.result.NoAnswer? ==> s.write == NoWrite
    ensures s.result.Found? ==> s.result.deps == Ireqs(set m | m in svc.wheelLookup(ireq))
    // the cache is written exactly when there is an answer and no non-empty entry yet
    ensures s.write != NoWrite <==>
              s.result.Found? && (svc.cacheKey(ireq) !in entries || entries[svc.cacheKey(ireq)] == [])
    ensures s.write != NoWrite ==> s.write == WriteListing(set m | m in svc.wheelLookup(ireq))
  {
    var key := svc.cacheKey(ireq);
    var matches := svc.wheelLookup(ireq);
    if ireq.editable || matches == [] then Step(NoAnswer, NoWrite)
    else
      var found := set m | m in matches;
      Step(Found(Ireqs(found)),
           if key !in entries || entries[key] == [] then WriteListing(found) else NoWrite)
  }

  /** `info.get("requires_dist", info.get("requires"))`, with an absent, `null` or empty list all falsy. */
  function RequiresDist(reply: JsonReply): (entries: seq<string>)
    requires reply.Info?
    ensures reply.requiresDist.Items? ==> entries == reply.requiresDist.lines
    ensures reply.requiresDist.Null? ==> entries == []
    ensures reply.requiresDist.Absent? ==> entries == if reply.legacyRequires.Items? then reply.legacyRequires.lines else []
  {
    var field := if reply.requiresDist.Absent? then reply.legacyRequires else reply.requiresDist;
    if field.Items? then field.lines else []
  }

  /** What `gen` yields: each entry parsed and formatted, skipping those whose markers mention `extra`. */
  function JsonLines(entries: seq<string>, svc: Services): (lines: seq<string>)
    ensures forall l :: l in lines ==>
              exists e :: e in entries && !MentionsExtra(svc.parseLine(e).markers) && l == svc.format(svc.parseLine(e))
    ensures forall e :: e in entries && !MentionsExtra(svc.parseLine(e).markers) ==>
              svc.format(svc.parseLine(e)) in lines
    ensures |lines| <= |entries|
  {
    if entries == [] then []
    else
      var i := svc.parseLine(entries[0]);
      var rest := JsonLines(entries[1..], svc);
      assert forall e :: e in entries[1..] ==> e in entries;
      assert forall e :: e in entries ==> e == entries[0] || e in entries[1..];
      if !MentionsExtra(i.markers) then [svc.format(i)] + rest else rest
  }

  /** `list(gen(ireq))` after the metadata request: the lines, or the exception `gen` raises. */
  function JsonQuery(reply: JsonReply, svc: Services): (q: Result<seq<string>, Error>)
    ensures reply.NotJson? <==> q == Err(JsonDecodeError)
    ensures reply.NoInfo? <==> q == Err(MissingInfo)
    ensures reply.Info? ==> q == Ok(JsonLines(RequiresDist(reply), svc))
  {
    match reply
    case NotJson => Err(JsonDecodeError)
    case NoInfo => Err(MissingInfo)
    case Info(_, _) => Ok(JsonLines(RequiresDist(reply), svc))
  }

  /** `get_dependencies_from_json` */
  function JsonTier(ireq: InstallReq, entries: map<string, seq<string>>, svc: Services): (s: Step)
    ensures ireq.editable ==> s == Step(NoAnswer, NoWrite)
    ensures !ireq.editable && !IsPinned(ireq) ==> s == Step(Raised(ExpectedPinned(ireq)), NoWrite)
    ensures s.result.NoAnswer? ==> s.write == NoWrite
    // only a first query, under an absent key, writes; and it writes what it returns
    ensures s.write != NoWrite ==>
              svc.cacheKey(ireq) !in entries && s.write.WriteLines? && s.result == Found(Lines(s.write.lines))
    ensures IsPinned(ireq) && svc.cacheKey(ireq) !in entries ==>
              match JsonQuery(svc.fetchJson(ireq.name, VersionOf(ireq)), svc)
              case Ok(ls) => s == Step(Found(Lines(ls)), WriteLines(ls))
              case Err(JsonDecodeError) => s == Step(NoAnswer, NoWrite)
              case Err(e) => s == Step(Raised(e), NoWrite)
    // a key already cached gets a fresh query, whose decode error is not caught
    ensures IsPinned(ireq) && svc.cacheKey(ireq) in entries ==>
              s.write == NoWrite &&
              match JsonQuery(svc.fetchJson(ireq.name, VersionOf(ireq)), svc)
              case Ok(ls) => s.result == Found(Lines(ls))
              case Err(e) => s.result == Raised(e)
  {
    if ireq.editable then Step(NoAnswer, NoWrite)
    else if !IsPinned(ireq) then Step(Raised(ExpectedPinned(ireq)), NoWrite)
    else
      var q := JsonQuery(svc.fetchJson(ireq.name, VersionOf(ireq)), svc);
      if svc.cacheKey(ireq) !in entries then
        match q
        case Ok(ls) => Step(Found(Lines(ls)), WriteLines(ls))
        case Err(JsonDecodeError) => Step(NoAnswer, NoWrite)
        case Err(e) => Step(Raised(e), NoWrite)
      else
        match q
        case Ok(ls) => Step(Found(Lines(ls)), NoWrite)
        case Err(e) => Step(Raised(e), NoWrite)
  }

  /** `get_dependencies_from_index` */
  function IndexTier(ireq: InstallReq, svc: Services): (s: Step)
    ensures s.result.Found?
    ensures svc.resolveOne(ireq).ResolverRaised? ==> s == Step(Found({}), NoWrite)
    ensures svc.resolveOne(ireq).Resolved? ==>
              s.result.deps == Ireqs(set r | r in svc.resolveOne(ireq).reqs)
              && s.write == if ireq.editable then NoWrite else WriteListing(set r | r in svc.resolveOne(ireq).reqs)
  {
    match svc.resolveOne(ireq)
    case Resolved(reqs) =>
      var found := set r | r in reqs;
      Step(Found(Ireqs(found)), if ireq.editable then NoWrite else WriteListing(found))
    case ResolverRaised => Step(Found({}), NoWrite)
  }

  // ---- the chain ----

  datatype Tier = FromCache | FromWheelCache | FromJson | FromIndex

  /** The `getters` list, in order. */
  const TierOrder: seq<Tier> := [FromCache, FromWheelCache, FromJson, FromIndex]

  function TierStep(t: Tier, ireq: InstallReq, entries: map<string, seq<string>>, svc: Services): (s: Step)
    ensures s.result.NoAnswer? ==> s.write == NoWrite
  {
    match t
    case FromCache => CacheTier(ireq, entries, svc)
    case FromWheelCache => WheelTier(ireq, entries, svc)
    case FromJson => JsonTier(ireq, entries, svc)
    case FromIndex => IndexTier(ireq, svc)
  }

  /** Where the chain stops: the first tier with an answer (a set or an exception), or nowhere. */
  datatype Run = Answered(tier: nat, step: Step) | Exhausted

  /**
   * The chain from tier `from` on.  A tier that answers `None` writes nothing, so every tier
   * sees the cache as it was when the lookup began.
   */
  function Pipeline(ireq: InstallReq, entries: map<string, seq<string>>, svc: Services, from: nat): (r: Run)
    requires from <= |TierOrder|
    ensures r.Answered? ==>
              from <= r.tier < |TierOrder| && !r.step.result.NoAnswer?
              && r.step == TierStep(TierOrder[r.tier], ireq, entries, svc)
              && forall j :: from <= j < r.tier ==> TierStep(TierOrder[j], ireq, entries, svc).result.NoAnswer?
    ensures r.Exhausted? ==>
              forall j :: from <= j < |TierOrder| ==> TierStep(TierOrder[j], ireq, entries, svc).result.NoAnswer?
    decreases |TierOrder| - from
  {
    if from == |TierOrder| then Exhausted
    else
      var s := TierStep(TierOrder[from], ireq, entries, svc);
      if s.result.NoAnswer? then Pipeline(ireq, entries, svc, from + 1) else Answered(from, s)
  }

  /** What `get_dependencies` returns or raises. */
  function Dependencies(ireq: InstallReq, entries: map<string, seq<string>>, svc: Services): (r: Lookup)
    ensures !r.NoAnswer?
    ensures r.Found? ==> exists t :: t in TierOrder && TierStep(t, ireq, entries, svc).result == r
  {
    match Pipeline(ireq, entries, svc, 0)
    case Answered(_, s) => s.result
    case Exhausted => Raised(FailedToGetDependencies(ireq))
  }

  // ---- properties of the chain ----

  /** The index tier always answers, so the chain never runs out and the `RuntimeError` is never raised. */
  lemma ChainAlwaysAnswers(ireq: InstallReq, entries: map<string, seq<string>>, svc: Services)
    ensures Pipeline(ireq, entries, svc, 0).Answered?
    ensures Dependencies(ireq, entries, svc) != Raised(FailedToGetDependencies(ireq))
  {
  }

  /** A cached, non-editable requirement is answered by the cache tier from the cached lines. */
  lemma CacheHitAnswersFirst(ireq: InstallReq, entries: map<string, seq<string>>, svc: Services)
    requires !ireq.editable && svc.cacheKey(ireq) in entries
    ensures Pipeline(ireq, entries, svc, 0) == Answered(0, Step(Found(Lines(entries[svc.cacheKey(ireq)])), NoWrite))
    ensures Dependencies(ireq, entries, svc) == Found(Lines(entries[svc.cacheKey(ireq)]))
  {
  }

  /** Every tier but the index declines an editable requirement, and the index does not cache it. */
  lemma EditableReachesIndex(ireq: InstallReq, entries: map<string, seq<string>>, svc: Services)
    requires ireq.editable
    ensures Pipeline(ireq, entries, svc, 0) == Answered(3, IndexTier(ireq, svc))
    ensures IndexTier(ireq, svc).write == NoWrite
  {
  }

  /**
   * Within the chain the JSON tier is reached only for a key the cache lacks, so its branch
   * for an already cached key never runs there.
   */
  lemma JsonTierSeesNoCachedKey(ireq: InstallReq, entries: map<string, seq<string>>, svc: Services)
    requires Pipeline(ireq, entries, svc, 0).Answered? && Pipeline(ireq, entries, svc, 0).tier >= 2
    ensures !ireq.editable ==> svc.cacheKey(ireq) !in entries
  {
  }

  /**
   * A pinned requirement that neither cache knows is answered by the metadata tier, which
   * caches what it returns; a reply that is not JSON passes on to the index.
   */
  lemma UncachedPinnedUsesJson(ireq: InstallReq, entries: map<string, seq<string>>, svc: Services)
    requires IsPinned(ireq) && svc.cacheKey(ireq) !in entries && svc.wheelLookup(ireq) == []
    ensures var q := JsonQuery(svc.fetchJson(ireq.name, VersionOf(ireq)), svc);
            match q
            case Ok(ls) => Pipeline(ireq, entries, svc, 0) == Answered(2, Step(Found(Lines(ls)), WriteLines(ls)))
            case Err(JsonDecodeError) => Pipeline(ireq, entries, svc, 0) == Answered(3, IndexTier(ireq, svc))
            case Err(e) => Dependencies(ireq, entries, svc) == Raised(e)
  {
  }

  /**
   * An unpinned, non-editable requirement that neither cache knows makes the metadata tier
   * raise `TypeError` before the index tier is asked.
   */
  lemma UncachedUnpinnedRaises(ireq: InstallReq, entries: map<string, seq<string>>, svc: Services)
    requires !ireq.editable && !IsPinned(ireq)
    requires svc.cacheKey(ireq) !in entries && svc.wheelLookup(ireq) == []
    ensures Dependencies(ireq, entries, svc) == Raised(ExpectedPinned(ireq))
  {
  }

  // ---- the tiers and the chain, as methods over the shared cache ----

  /** `[format_requirement(m) for m in s]`, iterating the set in an arbitrary order. */
  method FormatEach(s: set<InstallReq>, format: InstallReq -> string) returns (lines: seq<string>)
    ensures IsListing(lines, s, format)
  {
    lines := [];
    ghost var e: seq<InstallReq> := [];
    var rest := s;
    while rest != {}
      invariant rest <= s
      invariant NoDuplicates(e) && (forall x :: x in e <==> x in s && x !in rest)
      invariant lines == FormatAll(e, format)
      decreases rest
    {
      var m :| m in rest;
      assert m !in e;
      forall i, j | 0 <= i < j < |e + [m]| ensures (e + [m])[i] != (e + [m])[j] {
        if j == |e| { assert (e + [m])[i] == e[i] && e[i] in e; }
      }
      e := e + [m];
      lines := lines + [format(m)];
      rest := rest - {m};
    }
    assert Enumerates(e, s);
  }

  /** The loop of `gen` over the `requires_dist` entries. */
  method GenLines(entries: seq<string>, svc: Services) returns (lines: seq<string>)
    ensures lines == JsonLines(entries, svc)
  {
    lines := [];
    var i := 0;
    while i < |entries|
      invariant 0 <= i <= |entries|
      invariant lines == JsonLines(entries[..i], svc)
    {
      var r := svc.parseLine(entries[i]);
      JsonLinesAppend(entries[..i], entries[i], svc);
      assert entries[..i + 1] == entries[..i] + [entries[i]];
      if !MentionsExtra(r.markers) {
        lines := lines + [svc.format(r)];
      }
      i := i + 1;
    }
    assert entries[..i] == entries;
  }

  /** Lines of a longer metadata list extend the lines of its prefix. */
  lemma {:induction false} JsonLinesAppend(a: seq<string>, e: string, svc: Services)
    ensures JsonLines(a + [e], svc) == JsonLines(a, svc) + JsonLines([e], svc)
  {
    if a != [] {
      assert (a + [e])[1..] == a[1..] + [e];
      JsonLinesAppend(a[1..], e, svc);
    }
  }

  method CacheLookup(ireq: InstallReq, cache: DependencyCache, svc: Services) returns (r: Lookup)
    ensures r == CacheTier(ireq, cache.entries, svc).result
  {
    var key := svc.cacheKey(ireq);
    if !ireq.editable && key in cache.entries {
      return Found(Lines(cache.entries[key]));
    }
    return NoAnswer;
  }

  method WheelLookup(ireq: InstallReq, cache: DependencyCache, svc: Services) returns (r: Lookup)
    modifies cache
    ensures r == WheelTier(ireq, old(cache.entries), svc).result
    ensures Applied(cache.entries, old(cache.entries), svc.cacheKey(ireq),
                    WheelTier(ireq, old(cache.entries), svc).write, svc.format)
  {
    if ireq.editable {
      return NoAnswer;
    }
    var matches := svc.wheelLookup(ireq);
    if matches == [] {
      return NoAnswer;
    }
    var found := set m | m in matches;
    var key := svc.cacheKey(ireq);
    if key !in cache.entries || cache.entries[key] == [] {
      var lines := FormatEach(found, svc.format);
      cache.Store(key, lines);
    }
    return Found(Ireqs(found));
  }

  method JsonLookup(ireq: InstallReq, cache: DependencyCache, svc: Services) returns (r: Lookup)
    modifies cache
    ensures r == JsonTier(ireq, old(cache.entries), svc).result
    ensures Applied(cache.entries, old(cache.entries), svc.cacheKey(ireq),
                    JsonTier(ireq, old(cache.entries), svc).write, svc.format)
  {
    if ireq.editable {
      return NoAnswer;
    }
    if !IsPinned(ireq) {
      return Raised(ExpectedPinned(ireq));
    }
    var reply := svc.fetchJson(ireq.name, VersionOf(ireq));
    var key := svc.cacheKey(ireq);
    var lines: seq<string> := [];
    match reply {
      case NotJson =>
        if key !in cache.entries {
          return NoAnswer;
        }
        return Raised(JsonDecodeError);
      case NoInfo =>
        return Raised(MissingInfo);
      case Info(_, _) =>
        lines := GenLines(RequiresDist(reply), svc);
    }
    if key !in cache.entries {
      cache.Store(key, lines);
    }
    return Found(Lines(lines));
  }

  method IndexLookup(ireq: InstallReq, cache: DependencyCache, svc: Services) returns (r: Lookup)
    modifies cache
    ensures r == IndexTier(ireq, svc).result
    ensures Applied(cache.entries, old(cache.entries), svc.cacheKey(ireq), IndexTier(ireq, svc).write, svc.format)
  {
    match svc.resolveOne(ireq) {
      case ResolverRaised =>
        return Found({});
      case Resolved(reqs) =>
        var found := set x | x in reqs;
        if !ireq.editable {
          var lines := FormatEach(found, svc.format);
          cache.Store(svc.cacheKey(ireq), lines);
        }
        return Found(Ireqs(found));
    }
  }

  method RunTier(t: Tier, ireq: InstallReq, cache: DependencyCache, svc: Services) returns (r: Lookup)
    modifies cache
    ensures r == TierStep(t, ireq, old(cache.entries), svc).result
    ensures Applied(cache.entries, old(cache.entries), svc.cacheKey(ireq),
                    TierStep(t, ireq, old(cache.entries), svc).write, svc.format)
  {
    match t {
      case FromCache => r := CacheLookup(ireq, cache, svc);
      case FromWheelCache => r := WheelLookup(ireq, cache, svc);
      case FromJson => r := JsonLookup(ireq, cache, svc);
      case FromIndex => r := IndexLookup(ireq, cache, svc);
    }
  }

  /**
   * `get_dependencies`: the tiers in order until one answers.  Only the answering tier's write
   * reaches the cache; the tiers after it do not run.
   */
  method GetDependencies(ireq: InstallReq, cache: DependencyCache, svc: Services) returns (r: Lookup)
    modifies cache
    ensures r == Dependencies(ireq, old(cache.entries), svc)
    ensures Pipeline(ireq, old(cache.entries), svc, 0).Answered? ==>
              Applied(cache.entries, old(cache.entries), svc.cacheKey(ireq),
                      Pipeline(ireq, old(cache.entries), svc, 0).step.write, svc.format)
    ensures Pipeline(ireq, old(cache.entries), svc, 0).Exhausted? ==> cache.entries == old(cache.entries)
  {
    var i := 0;
    while i < |TierOrder|
      invariant 0 <= i <= |TierOrder|
      invariant cache.entries == old(cache.entries)
      invariant Pipeline(ireq, old(cache.entries), svc, 0) == Pipeline(ireq, old(cache.entries), svc, i)
    {
      r := RunTier(TierOrder[i], ireq, cache, svc);
      if !r.NoAnswer? {
        return r;
      }
      i := i + 1;
    }
    return Raised(FailedToGetDependencies(ireq));
  }
}
