/**
 * Version patterns of the older code: the same `a..b` / `a...b` syntax,
 * but a range without a start version begins at the manifest's earliest
 * release (or earliest version, with three dots) instead of after the
 * latest version in a repository. The older code shares the version chain
 * and manifest with the newer one.
 */
module LegacyVersionPatterns {
  import opened Wrappers
  import opened MinecraftVersions
  import opened VersionPatterns

  /**
   * Where an older range starts: the given start version, else the
   * manifest's earliest version with three dots or its earliest release
   * with two; `null` when the manifest has no such version.
   */
  function LegacyStart(m: Manifest, start: string, snapshots: bool): (r: Result<Version?, VersionError>)
    requires m.Wellformed()
    ensures r.Success? ==> r.value == null || r.value in m.versions
    ensures start != [] && r.Success? ==> r.value != null && r.value.id == start
    ensures start == [] ==> r == Success(if snapshots then m.earliestSnapshot else m.earliestRelease)
  {
    if start != [] then
      var v := Of(m, Some(start));
      if v.Failure? then Failure(v.error) else Success(v.value)
    else if snapshots then Success(m.earliestSnapshot)
    else Success(m.earliestRelease)
  }

  /**
   * What the older `Version.pattern` returns for `p`: one version, or a
   * range whose start and end are resolved in that order before walking;
   * a missing start version makes the walk itself fail.
   */
  function LegacyPatternSpec(m: Manifest, p: string): Result<seq<Version>, VersionError>
    requires m.Wellformed()
  {
    match RangeSplit(p)
    case None => Single(m, p)
    case Some(parts) =>
      var snapshots := parts.dots == "...";
      var a := LegacyStart(m, parts.start, snapshots);
      if a.Failure? then Failure(a.error)
      else
        var b := RangeEnd(m, parts.end);
        if b.Failure? then Failure(b.error)
        else if a.value == null then Failure(NoStartVersion)
        else Walk(m.versions, Pos(m.versions, a.value), b.value, snapshots)
  }

  /** The older `Version.pattern`. */
  method LegacyPattern(m: Manifest, p: string) returns (r: Result<seq<Version>, VersionError>)
    requires m.Valid()
    ensures r == LegacyPatternSpec(m, p)
  {
    var split := RangeSplit(p);
    if split.None? {
      var v := Of(m, Some(p));
      if v.Failure? {
        return Failure(v.error);
      }
      return Success([v.value]);
    }
    var parts := split.value;
    var snapshots := parts.dots == "...";
    var a: Version?;
    if parts.start != [] {
      var v := Of(m, Some(parts.start));
      if v.Failure? {
        return Failure(v.error);
      }
      a := v.value;
    } else if snapshots {
      a := m.earliestSnapshot;
    } else {
      a := m.earliestRelease;
    }
    var b: Version? := null;
    if parts.end != [] {
      var v := Of(m, Some(parts.end));
      if v.Failure? {
        return Failure(v.error);
      }
      b := v.value;
    }
    if a == null {
      return Failure(NoStartVersion);
    }
    r := a.To(m.versions, b, snapshots);
  }

  /**
   * The set the older `Version.patterns` builds: each pattern adds the
   * versions it selects, or removes them when it starts with `-`; the
   * first pattern that raises ends the fold with its error.
   */
  function LegacySelected(m: Manifest, ps: seq<string>): Result<set<Version>, VersionError>
    requires m.Wellformed()
    decreases |ps|
  {
    if ps == [] then Success({})
    else
      var prev := LegacySelected(m, ps[..|ps| - 1]);
      var p := ps[|ps| - 1];
      if prev.Failure? then prev
      else
        var got := LegacyPatternSpec(m, Body(p));
        if got.Failure? then Failure(got.error)
        else if Excludes(p) then Success(prev.value - Elems(got.value))
        else Success(prev.value + Elems(got.value))
  }

  /** What the older `Version.patterns` returns. */
  function LegacyPatternsSpec(m: Manifest, ps: seq<string>): Result<seq<Version>, VersionError>
    requires m.Wellformed()
  {
    var sel := LegacySelected(m, ps);
    if sel.Failure? then Failure(sel.error) else Success(InOrder(m.versions, sel.value))
  }

  /** The older `Version.patterns`: the patterns applied in turn, then sorted. */
  method LegacyPatterns(m: Manifest, patterns: seq<string>) returns (r: Result<seq<Version>, VersionError>)
    requires m.Valid()
    ensures r == LegacyPatternsSpec(m, patterns)
  {
    var versions: set<Version> := {};
    for i := 0 to |patterns|
      invariant LegacySelected(m, patterns[..i]) == Success(versions)
    {
      var pattern := patterns[i];
      assert patterns[..i + 1][..i] == patterns[..i];
      if |pattern| > 0 && pattern[0] == '-' {
        var got := LegacyPattern(m, pattern[1..]);
        if got.Failure? {
          LegacyStopsAtFailure(m, patterns, i + 1);
          assert patterns[..|patterns|] == patterns;
          return Failure(got.error);
        }
        versions := versions - Elems(got.value);
      } else {
        var got := LegacyPattern(m, pattern);
        if got.Failure? {
          LegacyStopsAtFailure(m, patterns, i + 1);
          assert patterns[..|patterns|] == patterns;
          return Failure(got.error);
        }
        versions := versions + Elems(got.value);
      }
    }
    assert patterns[..|patterns|] == patterns;
    return Success(InOrder(m.versions, versions));
  }

  /** Once a pattern raises, the patterns after it are not looked at. */
  lemma {:induction false} LegacyStopsAtFailure(m: Manifest, ps: seq<string>, i: nat)
    requires m.Wellformed()
    requires i <= |ps| && LegacySelected(m, ps[..i]).Failure?
    ensures LegacySelected(m, ps) == LegacySelected(m, ps[..i])
    decreases |ps| - i
  {
    if i < |ps| {
      assert ps[..i + 1][..i] == ps[..i];
      LegacyStopsAtFailure(m, ps, i + 1);
    } else {
      assert ps[..i] == ps;
    }
  }

  /**
   * A range with neither a start nor an end walks from the manifest's
   * earliest version, or earliest release without snapshots, to its newest.
   */
  lemma BareRange(m: Manifest, p: string)
    requires m.Wellformed() && RangeSplit(p).Some?
    requires RangeSplit(p).value.start == [] && RangeSplit(p).value.end == []
    ensures var snapshots := RangeSplit(p).value.dots == "...";
      var a := if snapshots then m.earliestSnapshot else m.earliestRelease;
      LegacyPatternSpec(m, p) ==
        if a == null then Failure(NoStartVersion) else Walk(m.versions, Pos(m.versions, a), null, snapshots)
  {
    assert RangeEnd(m, []) == Success(null);
  }

  /** `...` alone selects every supported version; with none, there is nothing to start from. */
  lemma AllVersions(m: Manifest)
    requires m.Wellformed()
    ensures LegacyPatternSpec(m, "...") == if m.versions == [] then Failure(NoStartVersion) else Success(m.versions)
  {
    BareDots();
    BareRange(m, "...");
    if m.versions != [] {
      PosOf(m.versions, 0);
      WalkStretchAll(m.versions);
    }
  }

  /** Walking the whole chain with snapshots yields all of it. */
  lemma WalkStretchAll(vs: seq<Version>)
    requires vs != [] && Ascending(vs)
    ensures Walk(vs, 0, null, true) == Success(vs)
  {
    VisitedAll(vs, 0, |vs|);
    assert vs[0..|vs|] == vs;
  }

  /**
   * `..` alone selects exactly the supported releases, in manifest order;
   * with no release there is nothing to start from.
   */
  lemma AllReleases(m: Manifest)
    requires m.Wellformed()
    ensures LegacyPatternSpec(m, "..").Failure? <==> forall k :: 0 <= k < |m.versions| ==> m.versions[k].kind != Release
    ensures LegacyPatternSpec(m, "..").Failure? ==> LegacyPatternSpec(m, "..").error == NoStartVersion
    ensures LegacyPatternSpec(m, "..").Success? ==>
      && Ascending(LegacyPatternSpec(m, "..").value)
      && (forall q :: 0 <= q < |LegacyPatternSpec(m, "..").value| ==> LegacyPatternSpec(m, "..").value[q].kind == Release)
      && (forall k :: 0 <= k < |m.versions| && m.versions[k].kind == Release ==> m.versions[k] in LegacyPatternSpec(m, "..").value)
  {
    BareDots();
    BareRange(m, "..");
    var vs := m.versions;
    var a := m.earliestRelease;
    if a != null {
      var i := Pos(vs, a);
      WalkOrdered(vs, i, null, false);
      WalkMembers(vs, i, null, false);
      assert End(vs, null) == |vs|;
    }
  }

  /**
   * A range from a named version to the newest, `start..` or `start...`,
   * raises only when the start is unknown, and otherwise selects from the
   * start on, releases only with two dots.
   */
  lemma FromVersion(m: Manifest, start: string, dots: string)
    requires m.Wellformed()
    requires start != [] && start[|start| - 1] != '.' && '\n' !in start
    requires dots == "..." || dots == ".."
    ensures LegacyPatternSpec(m, start + dots).Failure? <==> Of(m, Some(start)).Failure?
    ensures LegacyPatternSpec(m, start + dots).Success? ==>
      && Ascending(LegacyPatternSpec(m, start + dots).value)
      && forall k :: Pos(m.versions, Of(m, Some(start)).value) <= k < |m.versions| ==>
        (m.versions[k] in LegacyPatternSpec(m, start + dots).value <==> dots == "..." || m.versions[k].kind == Release)
  {
    RangeSplitJoin(start, dots, []);
    assert start + dots + [] == start + dots;
    if Of(m, Some(start)).Success? {
      var vs := m.versions;
      var i := Pos(vs, Of(m, Some(start)).value);
      var snapshots := dots == "...";
      var r := Walk(vs, i, null, snapshots).value;
      WalkOrdered(vs, i, null, snapshots);
      WalkMembers(vs, i, null, snapshots);
      forall k | i <= k < |vs| && vs[k] in r
        ensures snapshots || vs[k].kind == Release
      {
        var q :| 0 <= q < |r| && r[q] == vs[k];
      }
    }
  }

  /** The older `Version.patterns` returns exactly the selected versions, in manifest order. */
  lemma LegacyPatternsSorted(m: Manifest, ps: seq<string>)
    requires m.Wellformed()
    requires LegacyPatternsSpec(m, ps).Success?
    ensures Ascending(LegacyPatternsSpec(m, ps).value)
    ensures forall v :: v in LegacyPatternsSpec(m, ps).value <==> v in LegacySelected(m, ps).value
  {
    var sel := LegacySelected(m, ps).value;
    LegacySelectedInManifest(m, ps);
    InOrderAscending(m.versions, sel);
    InOrderComplete(m.versions, sel);
    forall v | v in sel
      ensures v in LegacyPatternsSpec(m, ps).value
    {
      var q :| 0 <= q < |m.versions| && m.versions[q] == v;
    }
  }

  /** Every version the older patterns select is one of the manifest's. */
  lemma {:induction false} LegacySelectedInManifest(m: Manifest, ps: seq<string>)
    requires m.Wellformed()
    requires LegacySelected(m, ps).Success?
    ensures forall v :: v in LegacySelected(m, ps).value ==> v in m.versions
    decreases |ps|
  {
    if ps != [] {
      LegacySelectedInManifest(m, ps[..|ps| - 1]);
      var p := Body(ps[|ps| - 1]);
      match RangeSplit(p)
      case None =>
      case Some(parts) =>
        var a := LegacyStart(m, parts.start, parts.dots == "...");
        var b := RangeEnd(m, parts.end);
        if a.Success? && b.Success? && a.value != null {
          WalkMembers(m.versions, Pos(m.versions, a.value), b.value, parts.dots == "...");
        }
    }
  }

  /**
   * The two generations of `Version.pattern` differ only for ranges
   * without a start version: a single id, or a range that names its start,
   * selects the same versions or raises the same error in both, whatever
   * the latest version in the repository.
   */
  lemma SameWithStart(m: Manifest, p: string, latest: Version?)
    requires m.Wellformed() && (latest == null || latest in m.versions)
    requires RangeSplit(p).None? || RangeSplit(p).value.start != []
    ensures LegacyPatternSpec(m, p) == PatternSpec(m, p, latest)
  {
    if RangeSplit(p).Some? {
      var parts := RangeSplit(p).value;
      var snapshots := parts.dots == "...";
      var v := Of(m, Some(parts.start));
      if v.Success? {
        assert RangeStart(m, parts.start, snapshots, latest) == Success(Pos(m.versions, v.value));
        assert LegacyStart(m, parts.start, snapshots) == Success(v.value);
      }
    }
  }
}
