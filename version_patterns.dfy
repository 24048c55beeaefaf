/**
 * Version patterns of the newer code: a single version id, or a range
 * `a..b` (releases only) or `a...b` (snapshots too) whose start defaults to
 * the version after the latest one already in the repository and whose end
 * defaults to the newest version; and lists of patterns, where a leading
 * `-` removes the versions a pattern selects.
 */
module VersionPatterns {
  import opened Wrappers
  import opened MinecraftVersions

  /** The position of the first release at or after position `k`; `|vs|` when there is none. */
  function NextRelease(vs: seq<Version>, k: nat): (r: nat)
    requires k <= |vs|
    ensures k <= r <= |vs|
    ensures r < |vs| ==> vs[r].kind == Release
    ensures forall j :: k <= j < r ==> vs[j].kind != Release
    decreases |vs| - k
  {
    if k == |vs| || vs[k].kind == Release then k else NextRelease(vs, k + 1)
  }

  /** `Version.of` of an id that the pattern gave, lifted to a list result. */
  function Single(m: Manifest, id: string): (r: Result<seq<Version>, VersionError>)
    requires m.Wellformed()
    ensures r.Success? <==> Of(m, Some(id)).Success?
    ensures r.Success? ==> r.value == [Of(m, Some(id)).value]
    ensures r.Failure? ==> r.error == NoSuchVersion(id)
  {
    var v := Of(m, Some(id));
    if v.Failure? then Failure(v.error) else Success([v.value])
  }

  /**
   * Where a range starts, as a position in the manifest (`|vs|` for none):
   * the given start version, else the version after the latest one in the
   * repository, skipped forward to a release when snapshots are excluded.
   */
  function RangeStart(m: Manifest, start: string, snapshots: bool, latest: Version?): (r: Result<nat, VersionError>)
    requires m.Wellformed() && (latest == null || latest in m.versions)
    ensures r.Success? ==> r.value <= |m.versions|
    ensures start != [] && r.Success? ==> r.value < |m.versions| && m.versions[r.value].id == start
    ensures start == [] && latest != null ==> r.Success? && Pos(m.versions, latest) < r.value
    ensures start == [] && latest != null && !snapshots && r.value < |m.versions| ==>
      m.versions[r.value].kind == Release
  {
    if start != [] then
      var v := Of(m, Some(start));
      if v.Failure? then Failure(v.error) else Success(Pos(m.versions, v.value))
    else if latest == null then Failure(NoCommits)
    else
      var k := Pos(m.versions, latest) + 1;
      Success(if snapshots then k else NextRelease(m.versions, k))
  }

  /** Where a range ends: the given end version, or `null` for the newest one. */
  function RangeEnd(m: Manifest, end: string): (r: Result<Version?, VersionError>)
    requires m.Wellformed()
    ensures r.Success? ==> r.value == null || r.value in m.versions
    ensures r.Success? && end != [] ==> r.value != null && r.value.id == end
    ensures end == [] ==> r == Success(null)
  {
    if end == [] then Success(null)
    else
      var v := Of(m, Some(end));
      if v.Failure? then Failure(v.error) else Success(v.value)
  }

  /**
   * What `Version.pattern` returns for `p`: a pattern that is no range
   * names one version; for a range the start is resolved first, no start
   * version left means nothing to generate, then the end is resolved and
   * the versions between are walked.
   */
  function PatternSpec(m: Manifest, p: string, latest: Version?): Result<seq<Version>, VersionError>
    requires m.Wellformed() && (latest == null || latest in m.versions)
  {
    match RangeSplit(p)
    case None => Single(m, p)
    case Some(parts) => RangeSpec(m, parts, latest)
  }

  /** What `Version.pattern` returns for a range. */
  function RangeSpec(m: Manifest, parts: RangeParts, latest: Version?): Result<seq<Version>, VersionError>
    requires m.Wellformed() && (latest == null || latest in m.versions)
  {
    var snapshots := parts.dots == "...";
    var a := RangeStart(m, parts.start, snapshots, latest);
    if a.Failure? then Failure(a.error)
    else if a.value == |m.versions| then Success([])
    else
      var b := RangeEnd(m, parts.end);
      if b.Failure? then Failure(b.error)
      else Walk(m.versions, a.value, b.value, snapshots)
  }

  /**
   * `Version.pattern`: the versions a pattern selects, given the latest
   * version already in the repository (`null` when it has no commits).
   */
  method Pattern(m: Manifest, p: string, latestInRepo: Version?) returns (r: Result<seq<Version>, VersionError>)
    requires m.Valid() && (latestInRepo == null || latestInRepo in m.versions)
    ensures r == PatternSpec(m, p, latestInRepo)
  {
    var split := RangeSplit(p);
    if split.None? {
      var v := Of(m, Some(p));
      if v.Failure? {
        return Failure(v.error);
      }
      return Success([v.value]);
    }
    r := Range(m, split.value, latestInRepo);
  }

  /** The range branch of `Version.pattern`. */
  method Range(m: Manifest, parts: RangeParts, latestInRepo: Version?) returns (r: Result<seq<Version>, VersionError>)
    requires m.Valid() && (latestInRepo == null || latestInRepo in m.versions)
    ensures r == RangeSpec(m, parts, latestInRepo)
  {
    var snapshots := parts.dots == "...";
    var a, start := ResolveStart(m, parts.start, snapshots, latestInRepo);
    if a.Failure? {
      return Failure(a.error);
    }
    if a.value == null {
      return Success([]);
    }
    var b: Version? := null;
    if parts.end != [] {
      var v := Of(m, Some(parts.end));
      if v.Failure? {
        return Failure(v.error);
      }
      b := v.value;
    }
    assert RangeEnd(m, parts.end) == Success(b);
    PosOf(m.versions, start);
    r := a.value.To(m.versions, b, snapshots);
  }

  /**
   * The start of a range in `Version.pattern`: the version with the given
   * id, else the version after the latest one in the repository (moved on
   * to the next release when snapshots are excluded); raises when there is
   * neither. Also returns the position of the result in the chain.
   */
  method ResolveStart(m: Manifest, start: string, snapshots: bool, latestInRepo: Version?)
    returns (a: Result<Version?, VersionError>, ghost k: nat)
    requires m.Valid() && (latestInRepo == null || latestInRepo in m.versions)
    ensures a.Failure? <==> RangeStart(m, start, snapshots, latestInRepo).Failure?
    ensures a.Failure? ==> a.error == RangeStart(m, start, snapshots, latestInRepo).error
    ensures a.Success? ==> RangeStart(m, start, snapshots, latestInRepo) == Success(k)
    ensures a.Success? ==> k <= |m.versions| && a.value == (if k < |m.versions| then m.versions[k] else null)
  {
    if start != [] {
      var v := Of(m, Some(start));
      if v.Failure? {
        return Failure(v.error), 0;
      }
      return Success(v.value), Pos(m.versions, v.value);
    } else if latestInRepo != null {
      k := Pos(m.versions, latestInRepo) + 1;
      NextInChain(m.versions, latestInRepo);
      var next := latestInRepo.next;
      if !snapshots {
        next, k := SkipToRelease(m.versions, next, k);
      }
      return Success(next), k;
    } else {
      return Failure(NoCommits), 0;
    }
  }

  /**
   * `while a is not None and not isinstance(a, Release): a = a.next`,
   * started at position `k` of the chain; returns the position reached.
   */
  method SkipToRelease(ghost vs: seq<Version>, a: Version?, ghost k: nat) returns (curr: Version?, ghost r: nat)
    requires Chained(vs) && k <= |vs| && a == (if k < |vs| then vs[k] else null)
    ensures r == NextRelease(vs, k)
    ensures curr == (if r < |vs| then vs[r] else null)
    ensures curr == null || curr.kind == Release
  {
    curr := a;
    r := k;
    while curr != null && curr.kind != Release
      invariant k <= r <= |vs| && curr == (if r < |vs| then vs[r] else null)
      invariant forall j :: k <= j < r ==> vs[j].kind != Release
      decreases |vs| - r
    {
      curr := curr.next;
      r := r + 1;
    }
    NextReleaseIs(vs, k, r);
  }

  lemma NextInChain(vs: seq<Version>, v: Version)
    requires Chained(vs) && v in vs
    ensures v.next == (if Pos(vs, v) + 1 < |vs| then vs[Pos(vs, v) + 1] else null)
  {
  }

  lemma NextReleaseIs(vs: seq<Version>, k: nat, r: nat)
    requires k <= r <= |vs| && (r < |vs| ==> vs[r].kind == Release)
    requires forall j :: k <= j < r ==> vs[j].kind != Release
    ensures NextRelease(vs, k) == r
    decreases |vs| - k
  {
    if k < r {
      NextReleaseIs(vs, k + 1, r);
    }
  }

  /** `set(vs)`. */
  function Elems(vs: seq<Version>): (r: set<Version>)
    ensures forall q :: 0 <= q < |vs| ==> vs[q] in r
    ensures forall v :: v in r ==> v in vs
  {
    set v | v in vs
  }

  /** Pattern `p` removes versions: it starts with `-`. */
  predicate Excludes(p: string)
  {
    |p| > 0 && p[0] == '-'
  }

  /** The pattern proper: without its leading `-`. */
  function Body(p: string): string
  {
    if Excludes(p) then p[1..] else p
  }

  /**
   * The set `Version.patterns` builds from `ps`, pattern by pattern: each
   * adds the versions it selects, or removes them when it starts with `-`;
   * the first pattern that raises ends the fold with its error.
   */
  function Selected(m: Manifest, ps: seq<string>, latest: Version?): Result<set<Version>, VersionError>
    requires m.Wellformed() && (latest == null || latest in m.versions)
    decreases |ps|
  {
    if ps == [] then Success({})
    else
      var prev := Selected(m, ps[..|ps| - 1], latest);
      var p := ps[|ps| - 1];
      if prev.Failure? then prev
      else
        var got := PatternSpec(m, Body(p), latest);
        if got.Failure? then Failure(got.error)
        else if Excludes(p) then Success(prev.value - Elems(got.value))
        else Success(prev.value + Elems(got.value))
  }

  /**
   * `list(versions)` sorted: the versions of `s` in the order of the chain
   * `vs`, which within a manifest is the order of `<`.
   */
  function InOrder(vs: seq<Version>, s: set<Version>): (r: seq<Version>)
    ensures forall q :: 0 <= q < |r| ==> r[q] in s && r[q] in vs
    decreases |vs|
  {
    if vs == [] then []
    else
      var init := vs[..|vs| - 1];
      assert forall q :: 0 <= q < |init| ==> init[q] in vs;
      InOrder(init, s) + (if vs[|vs| - 1] in s then [vs[|vs| - 1]] else [])
  }

  /** What `Version.patterns` returns. */
  function PatternsSpec(m: Manifest, ps: seq<string>, latest: Version?): Result<seq<Version>, VersionError>
    requires m.Wellformed() && (latest == null || latest in m.versions)
  {
    var sel := Selected(m, ps, latest);
    if sel.Failure? then Failure(sel.error) else Success(InOrder(m.versions, sel.value))
  }

  /**
   * `Version.patterns`: the union of what the patterns select, minus what
   * the `-` patterns select, each applied in turn, sorted.
   */
  method Patterns(m: Manifest, patterns: seq<string>, latestInRepo: Version?) returns (r: Result<seq<Version>, VersionError>)
    requires m.Valid() && (latestInRepo == null || latestInRepo in m.versions)
    ensures r == PatternsSpec(m, patterns, latestInRepo)
  {
    var versions: set<Version> := {};
    for i := 0 to |patterns|
      invariant Selected(m, patterns[..i], latestInRepo) == Success(versions)
    {
      var pattern := patterns[i];
      assert patterns[..i + 1][..i] == patterns[..i];
      if |pattern| > 0 && pattern[0] == '-' {
        var got := Pattern(m, pattern[1..], latestInRepo);
        if got.Failure? {
          SelectedStopsAtFailure(m, patterns, i + 1, latestInRepo);
          assert patterns[..|patterns|] == patterns;
          return Failure(got.error);
        }
        versions := versions - Elems(got.value);
      } else {
        var got := Pattern(m, pattern, latestInRepo);
        if got.Failure? {
          SelectedStopsAtFailure(m, patterns, i + 1, latestInRepo);
          assert patterns[..|patterns|] == patterns;
          return Failure(got.error);
        }
        versions := versions + Elems(got.value);
      }
    }
    assert patterns[..|patterns|] == patterns;
    return Success(InOrder(m.versions, versions));
  }

  /** Once a pattern raises, the patterns after it are not looked at. */
  lemma {:induction false} SelectedStopsAtFailure(m: Manifest, ps: seq<string>, i: nat, latest: Version?)
    requires m.Wellformed() && (latest == null || latest in m.versions)
    requires i <= |ps| && Selected(m, ps[..i], latest).Failure?
    ensures Selected(m, ps, latest) == Selected(m, ps[..i], latest)
    decreases |ps| - i
  {
    if i < |ps| {
      assert ps[..i + 1][..i] == ps[..i];
      SelectedStopsAtFailure(m, ps, i + 1, latest);
    } else {
      assert ps[..i] == ps;
    }
  }

  /**
   * A pattern on one line without `..` names one version: it selects that
   * version when the manifest has it and raises otherwise.
   */
  lemma PatternNamesOne(m: Manifest, p: string, latest: Version?)
    requires m.Wellformed() && (latest == null || latest in m.versions)
    requires '\n' !in p && NoDoubleDot(p)
    ensures PatternSpec(m, p, latest).Success? <==> exists k :: 0 <= k < |m.versions| && m.versions[k].id == p
    ensures PatternSpec(m, p, latest).Success? ==>
      |PatternSpec(m, p, latest).value| == 1 && PatternSpec(m, p, latest).value[0].id == p
    ensures PatternSpec(m, p, latest).Failure? ==> PatternSpec(m, p, latest).error == NoSuchVersion(p)
  {
    RangeIffDots(p);
    assert RangeSplit(p) == None;
  }

  /**
   * A range without a start version needs the latest version in the
   * repository: with no commits it raises.
   */
  lemma OpenStartNeedsCommits(m: Manifest, dots: string, end: string)
    requires m.Wellformed()
    requires '\n' !in end && NoDoubleDot(end)
    requires dots == "..." || (dots == ".." && (end == [] || end[0] != '.'))
    ensures PatternSpec(m, dots + end, null) == Failure(NoCommits)
  {
    RangeSplitJoin([], dots, end);
    assert [] + dots + end == dots + end;
  }

  /**
   * A range without a start version selects nothing when the repository is
   * up to date: nothing follows its latest version, or with `..` no release
   * does. The end is then not looked up at all.
   */
  lemma UpToDate(m: Manifest, dots: string, end: string, latest: Version)
    requires m.Wellformed() && latest in m.versions
    requires '\n' !in end && NoDoubleDot(end)
    requires dots == "..." || (dots == ".." && (end == [] || end[0] != '.'))
    requires forall j :: Pos(m.versions, latest) < j < |m.versions| ==> dots == ".." && m.versions[j].kind != Release
    ensures PatternSpec(m, dots + end, latest) == Success([])
  {
    RangeSplitJoin([], dots, end);
    assert [] + dots + end == dots + end;
    var k := Pos(m.versions, latest) + 1;
    if dots == ".." {
      NextReleaseIs(m.versions, k, |m.versions|);
    }
  }

  /** A range written without a start version splits into an empty start, the dots and the end. */
  lemma OpenRange(m: Manifest, dots: string, end: string, latest: Version?)
    requires m.Wellformed() && (latest == null || latest in m.versions)
    requires '\n' !in end && NoDoubleDot(end)
    requires dots == "..." || (dots == ".." && (end == [] || end[0] != '.'))
    ensures PatternSpec(m, dots + end, latest) == RangeSpec(m, RangeParts([], dots, end), latest)
  {
    RangeSplitJoin([], dots, end);
    assert [] + dots + end == dots + end;
  }

  /** The manifest position of the newest version a range may reach: its end's, or the newest version's. */
  function LastIndex(m: Manifest, end: string): int
    requires m.Wellformed()
  {
    if end != [] && Of(m, Some(end)).Success? then Of(m, Some(end)).value.index
    else if m.versions == [] then 0
    else m.versions[|m.versions| - 1].index
  }

  /** A range's end that resolves bounds it at its own position, an empty end at the newest version. */
  lemma LastIndexOfEnd(m: Manifest, end: string)
    requires m.Wellformed() && m.versions != [] && RangeEnd(m, end).Success?
    ensures LastIndex(m, end) ==
      if RangeEnd(m, end).value == null then m.versions[|m.versions| - 1].index else RangeEnd(m, end).value.index
  {
  }

  /**
   * `r` holds, in manifest order, versions newer than `latest` and no newer
   * than position `last`, releases only unless `snapshots`.
   */
  predicate NewerOnly(r: seq<Version>, latest: Version, snapshots: bool, last: int)
  {
    && Ascending(r)
    && forall q :: 0 <= q < |r| ==>
      latest.Lt(r[q]) && r[q].index <= last && (snapshots || r[q].kind == Release)
  }

  /** `r` holds every version of `vs` that is newer than `latest`, no newer than `last` and of the right kind. */
  predicate AllNewer(vs: seq<Version>, r: seq<Version>, latest: Version, snapshots: bool, last: int)
  {
    forall p :: 0 <= p < |vs| && latest.Lt(vs[p]) && vs[p].index <= last && (snapshots || vs[p].kind == Release) ==>
      vs[p] in r
  }

  /** A range from the latest version in the repository selects only newer versions, up to its end. */
  lemma RangeFromLatestNewer(m: Manifest, parts: RangeParts, latest: Version)
    requires m.Wellformed() && Ascending(m.versions) && latest in m.versions && parts.start == []
    requires RangeSpec(m, parts, latest).Success?
    ensures NewerOnly(RangeSpec(m, parts, latest).value, latest, parts.dots == "...", LastIndex(m, parts.end))
  {
    var vs := m.versions;
    var snapshots := parts.dots == "...";
    var r := RangeSpec(m, parts, latest).value;
    var k := Pos(vs, latest) + 1;
    var a := RangeStart(m, [], snapshots, latest).value;
    if a < |vs| {
      var b := RangeEnd(m, parts.end).value;
      assert vs[k - 1] == latest;
      WalkNewer(vs, a, b, snapshots, latest);
      LastIndexOfEnd(m, parts.end);
    } else {
      assert r == [];
    }
  }

  /** Walking from a version newer than `latest` yields only newer versions, up to the end of the walk. */
  lemma WalkNewer(vs: seq<Version>, a: nat, b: Version?, snapshots: bool, latest: Version)
    requires a < |vs| && Ascending(vs) && (b == null || b in vs) && Walk(vs, a, b, snapshots).Success?
    requires latest.Lt(vs[a])
    ensures NewerOnly(Walk(vs, a, b, snapshots).value, latest, snapshots, if b == null then vs[|vs| - 1].index else b.index)
  {
    WalkOrdered(vs, a, b, snapshots);
    WalkMembers(vs, a, b, snapshots);
  }

  /** A range from the latest version in the repository selects every newer version up to its end. */
  lemma RangeFromLatestAll(m: Manifest, parts: RangeParts, latest: Version)
    requires m.Wellformed() && Ascending(m.versions) && latest in m.versions && parts.start == []
    requires RangeSpec(m, parts, latest).Success?
    ensures AllNewer(m.versions, RangeSpec(m, parts, latest).value, latest, parts.dots == "...", LastIndex(m, parts.end))
  {
    var vs := m.versions;
    var snapshots := parts.dots == "...";
    var r := RangeSpec(m, parts, latest).value;
    var a := RangeStart(m, [], snapshots, latest).value;
    var last := LastIndex(m, parts.end);
    if a < |vs| {
      var b := RangeEnd(m, parts.end).value;
      assert r == Walk(vs, a, b, snapshots).value;
      WalkMembers(vs, a, b, snapshots);
      LastIndexOfEnd(m, parts.end);
      forall p | 0 <= p < |vs| && latest.Lt(vs[p]) && vs[p].index <= last && (snapshots || vs[p].kind == Release)
        ensures vs[p] in r
      {
        PosAfter(vs, latest, p);
        if b != null {
          PosUpTo(vs, b, p);
        }
      }
    } else {
      forall p | 0 <= p < |vs| && latest.Lt(vs[p]) && (snapshots || vs[p].kind == Release)
        ensures false
      {
        PosAfter(vs, latest, p);
      }
    }
  }

  /**
   * A range without a start version generates what is new since the
   * latest version in the repository: every version it selects is newer
   * than that one and no newer than the end, they come in manifest order,
   * they are releases unless the range has three dots, and every such
   * version is selected.
   */
  lemma OpenStartSelectsNewer(m: Manifest, dots: string, end: string, latest: Version)
    requires m.Wellformed() && Ascending(m.versions) && latest in m.versions
    requires '\n' !in end && NoDoubleDot(end)
    requires dots == "..." || (dots == ".." && (end == [] || end[0] != '.'))
    requires PatternSpec(m, dots + end, latest).Success?
    ensures NewerOnly(PatternSpec(m, dots + end, latest).value, latest, dots == "...", LastIndex(m, end))
    ensures AllNewer(m.versions, PatternSpec(m, dots + end, latest).value, latest, dots == "...", LastIndex(m, end))
  {
    OpenRange(m, dots, end, latest);
    RangeFromLatestNewer(m, RangeParts([], dots, end), latest);
    RangeFromLatestAll(m, RangeParts([], dots, end), latest);
  }

  /** In a manifest, a version newer than `v` comes after it. */
  lemma PosAfter(vs: seq<Version>, v: Version, p: nat)
    requires Ascending(vs) && v in vs && p < |vs| && v.Lt(vs[p])
    ensures Pos(vs, v) < p
  {
    var k := Pos(vs, v);
    assert forall j :: 0 <= j <= k ==> vs[j].index <= vs[k].index;
  }

  /** In a manifest, a version no newer than `v` comes no later than it. */
  lemma PosUpTo(vs: seq<Version>, v: Version, p: nat)
    requires Ascending(vs) && v in vs && p < |vs| && vs[p].index <= v.index
    ensures p <= Pos(vs, v)
  {
    var k := Pos(vs, v);
    assert forall j :: k < j < |vs| ==> vs[k].index < vs[j].index;
  }

  /** Every version a pattern selects is one of the manifest's. */
  lemma PatternInManifest(m: Manifest, p: string, latest: Version?)
    requires m.Wellformed() && Ascending(m.versions) && (latest == null || latest in m.versions)
    requires PatternSpec(m, p, latest).Success?
    ensures forall q :: 0 <= q < |PatternSpec(m, p, latest).value| ==> PatternSpec(m, p, latest).value[q] in m.versions
  {
    match RangeSplit(p)
    case None =>
    case Some(parts) =>
      var snapshots := parts.dots == "...";
      var a := RangeStart(m, parts.start, snapshots, latest).value;
      if a < |m.versions| {
        var b := RangeEnd(m, parts.end).value;
        WalkMembers(m.versions, a, b, snapshots);
      }
  }

  /** Every version the patterns select is one of the manifest's. */
  lemma {:induction false} SelectedInManifest(m: Manifest, ps: seq<string>, latest: Version?)
    requires m.Wellformed() && Ascending(m.versions) && (latest == null || latest in m.versions)
    requires Selected(m, ps, latest).Success?
    ensures forall v :: v in Selected(m, ps, latest).value ==> v in m.versions
    decreases |ps|
  {
    if ps != [] {
      SelectedInManifest(m, ps[..|ps| - 1], latest);
      PatternInManifest(m, Body(ps[|ps| - 1]), latest);
    }
  }

  /** Sorting keeps the manifest order. */
  lemma {:induction false} InOrderAscending(vs: seq<Version>, s: set<Version>)
    requires Ascending(vs)
    ensures Ascending(InOrder(vs, s))
    decreases |vs|
  {
    if vs != [] {
      var init := vs[..|vs| - 1];
      InOrderAscending(init, s);
      var r := InOrder(init, s);
      forall q | 0 <= q < |r|
        ensures r[q].index < vs[|vs| - 1].index
      {
        var j :| 0 <= j < |init| && init[j] == r[q];
      }
    }
  }

  /** Sorting loses no selected version of the manifest. */
  lemma {:induction false} InOrderComplete(vs: seq<Version>, s: set<Version>)
    ensures forall q :: 0 <= q < |vs| && vs[q] in s ==> vs[q] in InOrder(vs, s)
    decreases |vs|
  {
    if vs != [] {
      var init := vs[..|vs| - 1];
      InOrderComplete(init, s);
      assert forall q :: 0 <= q < |init| ==> init[q] == vs[q];
    }
  }

  /**
   * `Version.patterns` returns the selected versions sorted: in manifest
   * order, each once, and exactly the versions the patterns select.
   */
  lemma PatternsSorted(m: Manifest, ps: seq<string>, latest: Version?)
    requires m.Wellformed() && Ascending(m.versions) && (latest == null || latest in m.versions)
    requires PatternsSpec(m, ps, latest).Success?
    ensures Ascending(PatternsSpec(m, ps, latest).value)
    ensures forall q :: 0 <= q < |PatternsSpec(m, ps, latest).value| ==> PatternsSpec(m, ps, latest).value[q] in m.versions
    ensures forall v :: v in PatternsSpec(m, ps, latest).value <==> v in Selected(m, ps, latest).value
  {
    var sel := Selected(m, ps, latest).value;
    SelectedInManifest(m, ps, latest);
    InOrderAscending(m.versions, sel);
    InOrderComplete(m.versions, sel);
    forall v | v in sel
      ensures v in PatternsSpec(m, ps, latest).value
    {
      var q :| 0 <= q < |m.versions| && m.versions[q] == v;
    }
  }

  /**
   * Each pattern acts on what the patterns before it selected: a version is
   * in the result of `ps + [p]` exactly when `p` selects it and is no `-`
   * pattern, or the earlier patterns selected it and `-p` does not remove
   * it. A failure of the last pattern is a failure of the whole.
   */
  lemma PatternsStep(m: Manifest, ps: seq<string>, p: string, latest: Version?)
    requires m.Wellformed() && Ascending(m.versions) && (latest == null || latest in m.versions)
    requires PatternsSpec(m, ps, latest).Success?
    ensures PatternsSpec(m, ps + [p], latest).Failure? <==> PatternSpec(m, Body(p), latest).Failure?
    ensures PatternsSpec(m, ps + [p], latest).Success? ==>
      forall v :: v in PatternsSpec(m, ps + [p], latest).value <==>
        if Excludes(p) then v in PatternsSpec(m, ps, latest).value && v !in PatternSpec(m, Body(p), latest).value
        else v in PatternsSpec(m, ps, latest).value || v in PatternSpec(m, Body(p), latest).value
  {
    assert (ps + [p])[..|ps|] == ps;
    if PatternsSpec(m, ps + [p], latest).Success? {
      PatternsSorted(m, ps, latest);
      PatternsSorted(m, ps + [p], latest);
    }
  }

  /** A range written with both a start and an end splits into the two and the dots. */
  lemma ClosedSplit(m: Manifest, start: string, dots: string, end: string, latest: Version?)
    requires m.Wellformed() && (latest == null || latest in m.versions)
    requires start != [] && start[|start| - 1] != '.' && '\n' !in start
    requires '\n' !in end && NoDoubleDot(end)
    requires dots == "..." || (dots == ".." && (end == [] || end[0] != '.'))
    ensures PatternSpec(m, start + dots + end, latest) == RangeSpec(m, RangeParts(start, dots, end), latest)
  {
    RangeSplitJoin(start, dots, end);
  }

  /** With snapshots, walking to a version at or after the start yields the stretch of the chain between. */
  lemma WalkStretch(vs: seq<Version>, i: nat, b: Version)
    requires i < |vs| && Ascending(vs) && b in vs
    ensures Walk(vs, i, b, true) == if Pos(vs, b) < i then Failure(ReversedRange) else Success(vs[i..Pos(vs, b) + 1])
  {
    WalkFails(vs, i, b, true);
    if i <= Pos(vs, b) {
      VisitedAll(vs, i, Pos(vs, b) + 1);
    }
  }

  /** A range between two named versions walks from the one to the other. */
  lemma ClosedWalk(m: Manifest, start: string, end: string, latest: Version?)
    requires m.Wellformed() && (latest == null || latest in m.versions)
    requires start != [] && end != []
    requires Of(m, Some(start)).Success? && Of(m, Some(end)).Success?
    ensures RangeSpec(m, RangeParts(start, "...", end), latest) ==
      Walk(m.versions, Pos(m.versions, Of(m, Some(start)).value), Of(m, Some(end)).value, true)
  {
    var i := Pos(m.versions, Of(m, Some(start)).value);
    assert RangeStart(m, start, true, latest) == Success(i);
  }

  /**
   * A range between two named versions, `start...end`, selects every
   * version from the start to the end inclusive, whatever the latest
   * version in the repository; with the end before the start it raises.
   */
  lemma ClosedRange(m: Manifest, start: string, end: string, latest: Version?)
    requires m.Wellformed() && Ascending(m.versions) && (latest == null || latest in m.versions)
    requires start != [] && start[|start| - 1] != '.' && '\n' !in start
    requires end != [] && '\n' !in end && NoDoubleDot(end)
    requires Of(m, Some(start)).Success? && Of(m, Some(end)).Success?
    ensures var i, j := Pos(m.versions, Of(m, Some(start)).value), Pos(m.versions, Of(m, Some(end)).value);
      PatternSpec(m, start + "..." + end, latest) ==
        if j < i then Failure(ReversedRange) else Success(m.versions[i..j + 1])
  {
    ClosedSplit(m, start, "...", end, latest);
    ClosedWalk(m, start, end, latest);
    WalkStretch(m.versions, Pos(m.versions, Of(m, Some(start)).value), Of(m, Some(end)).value);
  }
}
