/**
 * Minecraft versions as the version manifest lists them: a chain of
 * version objects, oldest first, each linked to the next by `next` and
 * carrying its position in the manifest, which orders them. The manifest
 * is passed explicitly wherever a lookup needs it.
 */
module MinecraftVersions {
  import opened Wrappers
  import opened PyStr

  /** The manifest's version types, one subclass of `Version` each. */
  datatype VersionType = Snapshot | Release | OldAlpha | OldBeta

  datatype VersionError =
    | UnknownVersionType(t: string)   // `Version.parse`
    | NoSuchVersion(id: string)       // `Version.of`: `NoSuchVersionError`
    | NotARelease                     // `Release.of`: `ValueError`
    | ReversedRange                   // `Version.to`: `ValueError`
    | NoCommits                       // `Version.pattern`: `ValueError`
    | NoStartVersion                  // calling `to` on `None`: `AttributeError`
    | MissingLatest(id: string)       // `Manifest.parse`: `KeyError`

  /** One entry of the manifest's `versions` list: its `id` and `type`. */
  datatype RawVersion = RawVersion(id: string, vtype: string)

  /**
   * The downloaded manifest: its entries, newest first, and the ids under
   * `latest`.
   */
  datatype RawManifest = RawManifest(versions: seq<RawVersion>, latestRelease: string, latestSnapshot: string)

  /** The manifest's name for each version type. */
  function TypeName(k: VersionType): string
  {
    match k
    case Snapshot => "snapshot"
    case Release => "release"
    case OldAlpha => "old_alpha"
    case OldBeta => "old_beta"
  }

  /** `Version.parse`'s dispatch on an entry's `type`. */
  function ParseType(t: string): (r: Result<VersionType, VersionError>)
    ensures forall k :: TypeName(k) == t ==> r == Success(k)
    ensures r.Failure? <==> forall k :: TypeName(k) != t
    ensures r.Failure? ==> r.error == UnknownVersionType(t)
  {
    if t == "snapshot" then Success(Snapshot)
    else if t == "release" then Success(Release)
    else if t == "old_alpha" then Success(OldAlpha)
    else if t == "old_beta" then Success(OldBeta)
    else Failure(UnknownVersionType(t))
  }

  class Version {
    const id: string
    /** The position of the version in the manifest's full, oldest-first list. */
    const index: int
    const kind: VersionType
    /** The next version of the manifest, `null` for the latest. */
    var next: Version?

    constructor (id: string, index: int, kind: VersionType)
      ensures this.id == id && this.index == index && this.kind == kind && next == null
    {
      this.id := id;
      this.index := index;
      this.kind := kind;
      next := null;
    }

    /** `self < other`; anything that is not a version is not greater. */
    predicate Lt(other: Version?)
    {
      other != null && index < other.index
    }

    /** `self > other`; anything that is not a version is not smaller. */
    predicate Gt(other: Version?)
    {
      other != null && index > other.index
    }

    /**
     * `to`: the versions from this one up to and including `other`
     * (to the end of the chain when `other` is `null`), following `next`,
     * keeping only releases unless `snapshots`. Raises when `other`
     * precedes this version. `vs` is the manifest's chain of versions.
     */
    method To(ghost vs: seq<Version>, other: Version?, snapshots: bool) returns (r: Result<seq<Version>, VersionError>)
      requires Chained(vs) && Ascending(vs) && this in vs && (other == null || other in vs)
      ensures r.Failure? <==> other != null && other.Lt(this)
      ensures r == Walk(vs, Pos(vs, this), other, snapshots)
    {
      if other != null && other.Lt(this) {
        return Failure(ReversedRange);
      }
      ghost var i := Pos(vs, this);
      ghost var j := End(vs, other);
      AscendingPos(vs, i, other);
      var acc := [];
      var curr: Version? := this;
      ghost var k := i;
      while curr != null && (other == null || curr != other.next)
        invariant i <= k <= j
        invariant curr == (if k < |vs| then vs[k] else null)
        invariant acc == Visited(vs, i, k, snapshots)
        decreases |vs| - k
      {
        NotPastEnd(vs, k, other);
        if snapshots || curr.kind == Release {
          acc := acc + [curr];
        }
        assert curr.next == (if k + 1 < |vs| then vs[k + 1] else null);
        curr := curr.next;
        k := k + 1;
      }
      StopsAtEnd(vs, k, j, other);
      return Success(acc);
    }

    /**
     * `Version.parse`: a new, unlinked version of the entry's type at
     * position `index`; an entry of any other type raises.
     */
    static method Parse(raw: RawVersion, index: int) returns (r: Result<Version, VersionError>)
      ensures r.Failure? <==> ParseType(raw.vtype).Failure?
      ensures r.Failure? ==> r.error == UnknownVersionType(raw.vtype)
      ensures r.Success? ==>
        && fresh(r.value) && r.value.next == null
        && r.value.id == raw.id && r.value.index == index && ParseType(raw.vtype) == Success(r.value.kind)
    {
      var kind := ParseType(raw.vtype);
      if kind.Failure? {
        return Failure(kind.error);
      }
      var v := new Version(raw.id, index, kind.value);
      return Success(v);
    }
  }

  /** Each version's `next` is the one after it in `vs`, and the last one's is `null`. */
  ghost predicate Chained(vs: seq<Version>)
    reads vs
  {
    forall i :: 0 <= i < |vs| ==> vs[i].next == (if i + 1 < |vs| then vs[i + 1] else null)
  }

  /** Manifest positions strictly increase along `vs`. */
  predicate Ascending(vs: seq<Version>)
  {
    forall i, j :: 0 <= i < j < |vs| ==> vs[i].index < vs[j].index
  }

  /** The position of `v` in `vs`. */
  function Pos(vs: seq<Version>, v: Version): (k: nat)
    requires v in vs
    ensures k < |vs| && vs[k] == v
    ensures forall j :: 0 <= j < k ==> vs[j] != v
  {
    if vs[0] == v then 0 else 1 + Pos(vs[1..], v)
  }

  /** In an ascending chain each version sits at one position only. */
  lemma PosOf(vs: seq<Version>, k: nat)
    requires Ascending(vs) && k < |vs|
    ensures Pos(vs, vs[k]) == k
  {
    var p := Pos(vs, vs[k]);
    assert vs[p].index == vs[k].index;
  }

  /** One past the last position `to` visits: after `other`, or the end of the chain. */
  function End(vs: seq<Version>, other: Version?): (e: nat)
    requires other == null || other in vs
    ensures e <= |vs|
  {
    if other == null then |vs| else Pos(vs, other) + 1
  }

  /**
   * The versions `to` keeps among positions `i` to `k - 1` of `vs`: all of
   * them, or only the releases.
   */
  function Visited(vs: seq<Version>, i: nat, k: nat, snapshots: bool): (r: seq<Version>)
    requires i <= k <= |vs|
    ensures forall q :: 0 <= q < |r| ==> snapshots || r[q].kind == Release
    ensures forall p :: i <= p < k && (snapshots || vs[p].kind == Release) ==> vs[p] in r
    decreases k
  {
    if k == i then []
    else
      var r := Visited(vs, i, k - 1, snapshots);
      r + (if snapshots || vs[k - 1].kind == Release then [vs[k - 1]] else [])
  }

  /** What `to` returns, started from the `i`-th version of the manifest's chain `vs`. */
  function Walk(vs: seq<Version>, i: nat, other: Version?, snapshots: bool): Result<seq<Version>, VersionError>
    requires i < |vs| && Ascending(vs) && (other == null || other in vs)
  {
    if other != null && other.Lt(vs[i]) then Failure(ReversedRange)
    else
      AscendingPos(vs, i, other);
      Success(Visited(vs, i, End(vs, other), snapshots))
  }

  lemma AscendingPos(vs: seq<Version>, i: nat, other: Version?)
    requires i < |vs| && Ascending(vs) && (other == null || other in vs)
    requires !(other != null && other.Lt(vs[i]))
    ensures i < End(vs, other)
  {
    if other != null {
      var p := Pos(vs, other);
      assert vs[p] == other;
    }
  }

  lemma NotPastEnd(vs: seq<Version>, k: nat, other: Version?)
    requires Ascending(vs) && (other == null || other in vs) && k < End(vs, other)
    ensures k < |vs|
    ensures other != null && other.next == (if Pos(vs, other) + 1 < |vs| then vs[Pos(vs, other) + 1] else null) ==>
      vs[k] != other.next
  {
  }

  lemma StopsAtEnd(vs: seq<Version>, k: nat, j: nat, other: Version?)
    requires Chained(vs) && Ascending(vs) && (other == null || other in vs) && j == End(vs, other) && k <= j
    requires !((if k < |vs| then vs[k] else null) != null && (other == null || (if k < |vs| then vs[k] else null) != other.next))
    ensures k == j
  {
    if k < j {
      NotPastEnd(vs, k, other);
    }
  }

  /** `{version.id: version for version in versions}`: a later version wins an id. */
  function IdMap(vs: seq<Version>): (r: map<string, Version>)
    ensures forall id :: id in r <==> exists k :: 0 <= k < |vs| && vs[k].id == id
    ensures forall id :: id in r ==> r[id] in vs && r[id].id == id
  {
    if vs == [] then map[]
    else
      var init := vs[..|vs| - 1];
      assert forall k :: 0 <= k < |init| ==> init[k] == vs[k];
      IdMap(init)[vs[|vs| - 1].id := vs[|vs| - 1]]
  }

  /** The first release of `vs`, `null` when there is none. */
  function FirstRelease(vs: seq<Version>): (r: Version?)
    ensures r == null <==> forall k :: 0 <= k < |vs| ==> vs[k].kind != Release
    ensures r != null ==> r in vs && r.kind == Release && forall k :: 0 <= k < Pos(vs, r) ==> vs[k].kind != Release
  {
    if vs == [] then null
    else if vs[0].kind == Release then vs[0]
    else
      var r := FirstRelease(vs[1..]);
      assert forall k :: 1 <= k < |vs| ==> vs[k] == vs[1..][k - 1];
      r
  }

  class Manifest {
    /** The supported versions, oldest first. */
    const versions: seq<Version>
    const versionForId: map<string, Version>
    const earliestRelease: Version?
    const earliestSnapshot: Version?
    const latestRelease: Version
    const latestSnapshot: Version

    constructor (versions: seq<Version>, earliestRelease: Version?, earliestSnapshot: Version?, latestRelease: Version, latestSnapshot: Version)
      ensures this.versions == versions && versionForId == IdMap(versions)
      ensures this.earliestRelease == earliestRelease && this.earliestSnapshot == earliestSnapshot
      ensures this.latestRelease == latestRelease && this.latestSnapshot == latestSnapshot
    {
      this.versions := versions;
      versionForId := IdMap(versions);
      this.earliestRelease := earliestRelease;
      this.earliestSnapshot := earliestSnapshot;
      this.latestRelease := latestRelease;
      this.latestSnapshot := latestSnapshot;
    }

    /** What holds of every parsed manifest, apart from the `next` links. */
    predicate Wellformed()
    {
      && Ascending(versions)
      && versionForId == IdMap(versions)
      && latestRelease in versions && latestSnapshot in versions
      && earliestSnapshot == (if versions == [] then null else versions[0])
      && earliestRelease == FirstRelease(versions)
    }

    ghost predicate Valid()
      reads versions
    {
      Wellformed() && Chained(versions)
    }

    /**
     * `Manifest.parse`: the entries oldest first, from the one whose id is
     * `earliestSupported` on (none when no entry has it), each parsed with
     * its position in the full reversed list and linked to the next; the
     * latest release and snapshot are looked up among them. An entry of an
     * unknown type raises while parsing; a latest id that is not among the
     * supported versions raises afterwards, the release's first.
     */
    static method Parse(raw: RawManifest, earliestSupported: Option<string>) returns (r: Result<Manifest, VersionError>)
      ensures r.Failure? <==> ParseError(raw, earliestSupported).Some?
      ensures r.Failure? ==> r.error == ParseError(raw, earliestSupported).value
      ensures r.Success? ==> ParsedFrom(r.value.versions, Entries(raw), Start(raw, earliestSupported))
      ensures r.Success? ==> |r.value.versions| == |Entries(raw)| - Start(raw, earliestSupported)
      ensures r.Success? ==>
        && fresh(r.value) && r.value.Valid()
        && r.value.latestRelease.id == raw.latestRelease && r.value.latestSnapshot.id == raw.latestSnapshot
    {
      var rev := Reverse(raw.versions);
      ghost var s := SupportedFrom(rev, earliestSupported);
      var supported := false;
      var earliestRelease: Version? := null;
      var earliestSnapshot: Version? := null;
      var versions: seq<Version> := [];
      var versionForId: map<string, Version> := map[];
      var prev: Version? := null;
      for i := 0 to |rev|
        invariant supported <==> s < i
        invariant Scanned(rev, s, i, versions)
        invariant Built(versions, versionForId, prev, earliestRelease, earliestSnapshot)
        invariant prev == null || fresh(prev)
      {
        var id := rev[i].id;
        if Some(id) == earliestSupported {
          supported := true;
        }
        if supported {
          var parsed := Version.Parse(rev[i], i);
          if parsed.Failure? {
            FirstUnknownAt(rev, s, i);
            return Failure(parsed.error);
          }
          var version := parsed.value;
          ScanAccept(rev, s, i, versions, version);
          versionForId, earliestRelease, earliestSnapshot :=
            Append(versions, version, versionForId, prev, earliestRelease, earliestSnapshot);
          versions := versions + [version];
          prev := version;
        } else {
          ScanSkip(rev, s, i, versions);
        }
      }
      FirstUnknownNone(rev, s);
      ParsedAscending(versions, rev, s);
      HasIdMap(versions, rev, s, raw.latestRelease);
      HasIdMap(versions, rev, s, raw.latestSnapshot);
      if raw.latestRelease !in versionForId {
        return Failure(MissingLatest(raw.latestRelease));
      }
      var latestRelease := versionForId[raw.latestRelease];
      if raw.latestSnapshot !in versionForId {
        return Failure(MissingLatest(raw.latestSnapshot));
      }
      var latestSnapshot := versionForId[raw.latestSnapshot];
      var m := new Manifest(versions, earliestRelease, earliestSnapshot, latestRelease, latestSnapshot);
      return Success(m);
    }
  }

  /** The position of the entry whose id is `earliest`: where support starts; `|rs|` when none has it. */
  function SupportedFrom(rs: seq<RawVersion>, earliest: Option<string>): (s: nat)
    ensures s <= |rs|
    ensures s < |rs| ==> earliest == Some(rs[s].id)
    ensures forall k :: 0 <= k < s ==> earliest != Some(rs[k].id)
  {
    if rs == [] then 0
    else if earliest == Some(rs[0].id) then 0
    else
      assert forall k :: 1 <= k < |rs| ==> rs[k] == rs[1..][k - 1];
      1 + SupportedFrom(rs[1..], earliest)
  }

  /** The manifest's entries, oldest first. */
  function Entries(raw: RawManifest): seq<RawVersion>
  {
    Reverse(raw.versions)
  }

  /** The position, among the entries oldest first, of the earliest supported version. */
  function Start(raw: RawManifest, earliest: Option<string>): nat
  {
    SupportedFrom(Entries(raw), earliest)
  }

  /**
   * What parsing the manifest raises, if anything: the first supported
   * entry of unknown type, else a latest release id, then a latest
   * snapshot id, that no supported entry has.
   */
  function ParseError(raw: RawManifest, earliest: Option<string>): (e: Option<VersionError>)
    ensures e.None? <==>
      && KnownFrom(Entries(raw), Start(raw, earliest), |Entries(raw)|)
      && HasId(Entries(raw), Start(raw, earliest), raw.latestRelease)
      && HasId(Entries(raw), Start(raw, earliest), raw.latestSnapshot)
  {
    var rs, s := Entries(raw), Start(raw, earliest);
    var u := FirstUnknown(rs, s);
    if u < |rs| then Some(UnknownVersionType(rs[u].vtype))
    else if !HasId(rs, s, raw.latestRelease) then Some(MissingLatest(raw.latestRelease))
    else if !HasId(rs, s, raw.latestSnapshot) then Some(MissingLatest(raw.latestSnapshot))
    else None
  }

  /** Every entry from position `from` up to `to` has a known type. */
  predicate KnownFrom(rs: seq<RawVersion>, from: nat, to: nat)
    requires from <= to <= |rs|
  {
    forall j :: from <= j < to ==> ParseType(rs[j].vtype).Success?
  }

  /**
   * `vs` is what parsing gives for the entries from position `from` on:
   * the same ids, in order, each carrying its position and its entry's type.
   */
  predicate ParsedFrom(vs: seq<Version>, rs: seq<RawVersion>, from: nat)
  {
    && from + |vs| <= |rs|
    && forall k :: 0 <= k < |vs| ==>
         && vs[k].id == rs[from + k].id && vs[k].index == from + k
         && ParseType(rs[from + k].vtype) == Success(vs[k].kind)
  }

  /**
   * After the first `i` entries, `vs` holds the parsed supported ones
   * (those from position `from` on), all of known type.
   */
  predicate Scanned(rs: seq<RawVersion>, from: nat, i: nat, vs: seq<Version>)
  {
    && |vs| == (if from < i then i - from else 0)
    && ParsedFrom(vs, rs, from)
    && (from < i ==> i <= |rs| && KnownFrom(rs, from, i))
  }

  lemma ScanAccept(rs: seq<RawVersion>, from: nat, i: nat, vs: seq<Version>, v: Version)
    requires Scanned(rs, from, i, vs) && from <= i < |rs|
    requires v.id == rs[i].id && v.index == i && ParseType(rs[i].vtype) == Success(v.kind)
    ensures Scanned(rs, from, i + 1, vs + [v])
    ensures Ascending(vs) && forall k :: 0 <= k < |vs| ==> vs[k].index < v.index
  {
    ParsedFromAppend(vs, v, rs, from);
    ParsedAscending(vs, rs, from);
    if from < i {
      KnownStep(rs, from, i);
    }
  }

  lemma ScanSkip(rs: seq<RawVersion>, from: nat, i: nat, vs: seq<Version>)
    requires Scanned(rs, from, i, vs) && i < from
    ensures Scanned(rs, from, i + 1, vs)
  {
  }

  lemma ParsedFromAppend(vs: seq<Version>, v: Version, rs: seq<RawVersion>, from: nat)
    requires ParsedFrom(vs, rs, from) && from + |vs| < |rs|
    requires v.id == rs[from + |vs|].id && v.index == from + |vs| && ParseType(rs[from + |vs|].vtype) == Success(v.kind)
    ensures ParsedFrom(vs + [v], rs, from)
  {
  }

  /** Parsed versions ascend, and a next parsed version comes after all of them. */
  lemma ParsedAscending(vs: seq<Version>, rs: seq<RawVersion>, from: nat)
    requires ParsedFrom(vs, rs, from)
    ensures Ascending(vs)
    ensures forall k :: 0 <= k < |vs| ==> vs[k].index < from + |vs|
  {
  }

  /** The first entry from position `from` on whose type is unknown; `|rs|` when there is none. */
  function FirstUnknown(rs: seq<RawVersion>, from: nat): (u: nat)
    requires from <= |rs|
    ensures from <= u <= |rs|
    ensures u < |rs| ==> ParseType(rs[u].vtype).Failure?
    ensures forall j :: from <= j < u ==> ParseType(rs[j].vtype).Success?
    decreases |rs| - from
  {
    if from == |rs| then from
    else if ParseType(rs[from].vtype).Failure? then from
    else FirstUnknown(rs, from + 1)
  }

  /** Some entry from position `from` on has the id `id`. */
  predicate HasId(rs: seq<RawVersion>, from: nat, id: string)
  {
    exists k :: from <= k < |rs| && rs[k].id == id
  }

  lemma FirstUnknownAt(rs: seq<RawVersion>, from: nat, i: nat)
    requires from <= i < |rs| && ParseType(rs[i].vtype).Failure? && KnownFrom(rs, from, i)
    ensures FirstUnknown(rs, from) == i
  {
  }

  lemma KnownStep(rs: seq<RawVersion>, from: nat, i: nat)
    requires from <= i < |rs| && KnownFrom(rs, from, i) && ParseType(rs[i].vtype).Success?
    ensures KnownFrom(rs, from, i + 1)
  {
  }

  lemma FirstUnknownNone(rs: seq<RawVersion>, from: nat)
    requires from <= |rs| && KnownFrom(rs, from, |rs|)
    ensures FirstUnknown(rs, from) == |rs|
  {
  }

  lemma FirstReleaseAppend(vs: seq<Version>, v: Version)
    ensures FirstRelease(vs + [v]) == if FirstRelease(vs) != null then FirstRelease(vs) else if v.kind == Release then v else null
  {
    if vs != [] {
      assert (vs + [v])[1..] == vs[1..] + [v];
      if vs[0].kind != Release {
        FirstReleaseAppend(vs[1..], v);
      }
    }
  }

  lemma IdMapAppend(vs: seq<Version>, v: Version)
    ensures IdMap(vs + [v]) == IdMap(vs)[v.id := v]
  {
    assert (vs + [v])[..|vs|] == vs;
  }

  /** The id map of the parsed versions holds exactly the ids of the supported entries. */
  lemma HasIdMap(vs: seq<Version>, rs: seq<RawVersion>, from: nat, id: string)
    requires from <= |rs| && |vs| == |rs| - from
    requires forall k :: 0 <= k < |vs| ==> vs[k].id == rs[from + k].id
    ensures id in IdMap(vs) <==> HasId(rs, from, id)
  {
    if HasId(rs, from, id) {
      var k :| from <= k < |rs| && rs[k].id == id;
      assert vs[k - from].id == id;
    }
  }

  /**
   * The state `Manifest.parse` keeps for the versions `vs` accepted so far:
   * they are linked in order, `prev` is the last of them, the id map and
   * the earliest snapshot and release are theirs.
   */
  ghost predicate Built(vs: seq<Version>, versionForId: map<string, Version>, prev: Version?, earliestRelease: Version?, earliestSnapshot: Version?)
    reads vs
  {
    && Chained(vs)
    && prev == (if vs == [] then null else vs[|vs| - 1])
    && versionForId == IdMap(vs)
    && earliestRelease == FirstRelease(vs)
    && earliestSnapshot == (if vs == [] then null else vs[0])
  }

  /**
   * The bookkeeping `Manifest.parse` does for each supported version `v`:
   * record it under its id, link the previous version to it, and take it
   * as the earliest snapshot and the earliest release when there is none yet.
   */
  method Append(
    ghost vs: seq<Version>, v: Version,
    versionForId: map<string, Version>, prev: Version?, earliestRelease: Version?, earliestSnapshot: Version?)
    returns (versionForId': map<string, Version>, earliestRelease': Version?, earliestSnapshot': Version?)
    requires Built(vs, versionForId, prev, earliestRelease, earliestSnapshot)
    requires Ascending(vs) && v.next == null
    requires forall k :: 0 <= k < |vs| ==> vs[k].index < v.index
    modifies prev
    ensures Built(vs + [v], versionForId', v, earliestRelease', earliestSnapshot')
  {
    IdMapAppend(vs, v);
    FirstReleaseAppend(vs, v);
    versionForId' := versionForId[v.id := v];
    if prev != null {
      prev.next := v;
      forall i | 0 <= i < |vs| + 1
        ensures (vs + [v])[i].next == (if i + 1 < |vs| + 1 then (vs + [v])[i + 1] else null)
      {
        if i + 1 < |vs| {
          assert vs[i].index < prev.index;
          assert vs[i].next == old(vs[i].next);
        }
      }
    }
    earliestSnapshot' := earliestSnapshot;
    if earliestSnapshot == null {
      earliestSnapshot' := v;
    }
    earliestRelease' := earliestRelease;
    if earliestRelease == null && v.kind == Release {
      earliestRelease' := v;
    }
  }

  /** `Version.of`: the latest snapshot for `None`, else the version with that id. */
  function Of(m: Manifest, id: Option<string>): (r: Result<Version, VersionError>)
    requires m.Wellformed()
    ensures id.None? ==> r == Success(m.latestSnapshot)
    ensures id.Some? ==> (r.Success? <==> exists k :: 0 <= k < |m.versions| && m.versions[k].id == id.value)
    ensures id.Some? && r.Success? ==> r.value.id == id.value
    ensures r.Success? ==> r.value in m.versions
    ensures r.Failure? ==> r.error == NoSuchVersion(id.value)
  {
    if id.None? then Success(m.latestSnapshot)
    else if id.value !in m.versionForId then Failure(NoSuchVersion(id.value))
    else Success(m.versionForId[id.value])
  }

  /** `Release.of`: the latest release for `None`, else the version with that id if it is a release. */
  function ReleaseOf(m: Manifest, id: Option<string>): (r: Result<Version, VersionError>)
    requires m.Wellformed()
    ensures id.None? ==> r == Success(m.latestRelease)
    ensures id.Some? && r.Success? ==> r.value.kind == Release && r.value.id == id.value && r.value in m.versions
    ensures id.Some? && r.Failure? ==>
      || (r.error == NoSuchVersion(id.value) && forall k :: 0 <= k < |m.versions| ==> m.versions[k].id != id.value)
      || (r.error == NotARelease && Of(m, id).Success? && Of(m, id).value.kind != Release)
  {
    if id.None? then Success(m.latestRelease)
    else
      var v := Of(m, id);
      if v.Failure? then v
      else if v.value.kind != Release then Failure(NotARelease)
      else v
  }

  /** Python's `list(reversed(s))`. */
  function Reverse<T>(s: seq<T>): (r: seq<T>)
    ensures |r| == |s| && forall i :: 0 <= i < |s| ==> r[i] == s[|s| - 1 - i]
  {
    if s == [] then [] else Reverse(s[1..]) + [s[0]]
  }

  /** Within a manifest, `<` and `>` follow the order of the chain. */
  lemma ChainOrder(vs: seq<Version>, i: int, j: int)
    requires Ascending(vs) && 0 <= i < |vs| && 0 <= j < |vs|
    ensures vs[i].Lt(vs[j]) <==> i < j
    ensures vs[j].Gt(vs[i]) <==> i < j
  {
    if j < i {
      assert vs[j].index < vs[i].index;
    }
  }

  /**
   * The versions `to` keeps come in chain order: they ascend, none repeats,
   * and each lies at or after the start and before the stop.
   */
  lemma {:induction false} VisitedAscends(vs: seq<Version>, i: nat, k: nat, snapshots: bool)
    requires i <= k <= |vs| && Ascending(vs)
    ensures Ascending(Visited(vs, i, k, snapshots))
    decreases k
  {
    if k > i {
      var prev := Visited(vs, i, k - 1, snapshots);
      var r := Visited(vs, i, k, snapshots);
      VisitedAscends(vs, i, k - 1, snapshots);
      if i < k - 1 && |r| > |prev| {
        VisitedBounds(vs, i, k - 1, snapshots);
        assert vs[k - 2].index < vs[k - 1].index;
        assert r == prev + [vs[k - 1]];
        forall p, q | 0 <= p < q < |r|
          ensures r[p].index < r[q].index
        {
          if q < |prev| {
            assert r[p] == prev[p] && r[q] == prev[q];
          } else {
            assert r[p] == prev[p] && r[q] == vs[k - 1];
          }
        }
      }
    }
  }

  /** Every version of `r` has its manifest position between `lo` and `hi`. */
  predicate Between(r: seq<Version>, lo: int, hi: int)
  {
    forall q :: 0 <= q < |r| ==> lo <= r[q].index <= hi
  }

  /** Each version `to` keeps lies between the start and the last position visited. */
  lemma {:induction false} VisitedBounds(vs: seq<Version>, i: nat, k: nat, snapshots: bool)
    requires i < k <= |vs| && Ascending(vs)
    ensures Between(Visited(vs, i, k, snapshots), vs[i].index, vs[k - 1].index)
    decreases k
  {
    var r := Visited(vs, i, k, snapshots);
    if i < k - 1 {
      var prev := Visited(vs, i, k - 1, snapshots);
      VisitedBounds(vs, i, k - 1, snapshots);
      assert vs[k - 2].index < vs[k - 1].index;
      assert vs[i].index < vs[k - 1].index;
      assert r == prev + (if snapshots || vs[k - 1].kind == Release then [vs[k - 1]] else []);
      forall q | 0 <= q < |r|
        ensures vs[i].index <= r[q].index <= vs[k - 1].index
      {
        if q < |prev| {
          assert r[q] == prev[q];
        }
      }
    } else {
      assert r == [] + (if snapshots || vs[k - 1].kind == Release then [vs[k - 1]] else []);
    }
  }

  /** With snapshots, `to` keeps every version of the chain from `i` to `k - 1`. */
  lemma {:induction false} VisitedAll(vs: seq<Version>, i: nat, k: nat)
    requires i <= k <= |vs|
    ensures Visited(vs, i, k, true) == vs[i..k]
    decreases k
  {
    if k > i {
      VisitedAll(vs, i, k - 1);
      assert vs[i..k] == vs[i..k - 1] + [vs[k - 1]];
    }
  }

  /** `to` fails exactly when `other` comes before the start in the chain. */
  lemma WalkFails(vs: seq<Version>, i: nat, other: Version?, snapshots: bool)
    requires i < |vs| && Ascending(vs) && (other == null || other in vs)
    ensures Walk(vs, i, other, snapshots).Failure? <==> other != null && Pos(vs, other) < i
  {
    if other != null {
      ChainOrder(vs, Pos(vs, other), i);
    }
  }

  /**
   * The versions `to` returns ascend, lie between the start and `other`,
   * and without snapshots are exactly the releases of that stretch.
   */
  lemma WalkOrdered(vs: seq<Version>, i: nat, other: Version?, snapshots: bool)
    requires i < |vs| && Ascending(vs) && (other == null || other in vs)
    requires Walk(vs, i, other, snapshots).Success?
    ensures Ascending(Walk(vs, i, other, snapshots).value)
    ensures Between(Walk(vs, i, other, snapshots).value, vs[i].index, if other == null then vs[|vs| - 1].index else other.index)
  {
    var e := End(vs, other);
    AscendingPos(vs, i, other);
    assert Walk(vs, i, other, snapshots).value == Visited(vs, i, e, snapshots);
    VisitedAscends(vs, i, e, snapshots);
    VisitedBounds(vs, i, e, snapshots);
    if other != null {
      assert vs[e - 1] == other;
    }
  }

  /**
   * `to` returns exactly the versions from the start up to `other` (or the
   * end) that are releases, or all of them with snapshots.
   */
  lemma WalkMembers(vs: seq<Version>, i: nat, other: Version?, snapshots: bool)
    requires i < |vs| && Ascending(vs) && (other == null || other in vs)
    requires Walk(vs, i, other, snapshots).Success?
    ensures forall q :: 0 <= q < |Walk(vs, i, other, snapshots).value| ==>
      && (snapshots || Walk(vs, i, other, snapshots).value[q].kind == Release)
      && exists p :: i <= p < End(vs, other) && vs[p] == Walk(vs, i, other, snapshots).value[q]
    ensures forall p :: i <= p < End(vs, other) && (snapshots || vs[p].kind == Release) ==>
      vs[p] in Walk(vs, i, other, snapshots).value
  {
    var e := End(vs, other);
    AscendingPos(vs, i, other);
    assert Walk(vs, i, other, snapshots).value == Visited(vs, i, e, snapshots);
    VisitedMembers(vs, i, e, snapshots);
  }

  /** Every version `to` keeps was visited. */
  lemma {:induction false} VisitedMembers(vs: seq<Version>, i: nat, k: nat, snapshots: bool)
    requires i <= k <= |vs|
    ensures forall q :: 0 <= q < |Visited(vs, i, k, snapshots)| ==>
      exists p :: i <= p < k && vs[p] == Visited(vs, i, k, snapshots)[q]
    decreases k
  {
    if k > i {
      VisitedMembers(vs, i, k - 1, snapshots);
      var prev := Visited(vs, i, k - 1, snapshots);
      var r := Visited(vs, i, k, snapshots);
      assert r == prev + (if snapshots || vs[k - 1].kind == Release then [vs[k - 1]] else []);
      forall q | 0 <= q < |r|
        ensures exists p :: i <= p < k && vs[p] == r[q]
      {
        if q < |prev| {
          assert r[q] == prev[q];
          var p :| i <= p < k - 1 && vs[p] == prev[q];
        } else {
          assert vs[k - 1] == r[q];
        }
      }
    } else {
      assert Visited(vs, i, k, snapshots) == [];
    }
  }

  /** With snapshots, `to` runs from the start to `other` inclusive, or to the latest version. */
  lemma WalkInclusive(vs: seq<Version>, i: nat, other: Version?)
    requires i < |vs| && Ascending(vs) && (other == null || other in vs)
    requires Walk(vs, i, other, true).Success?
    ensures var r := Walk(vs, i, other, true).value;
      |r| > 0 && r[0] == vs[i] && r[|r| - 1] == (if other == null then vs[|vs| - 1] else other)
  {
    VisitedAll(vs, i, End(vs, other));
  }

  /** The parts of a version range pattern: start id, `..` or `...`, end id. */
  datatype RangeParts = RangeParts(start: string, dots: string, end: string)

  /** A `..` begins at position `e` of `p`, right after a character other than `.`. */
  predicate CutAt(p: string, e: int)
  {
    0 < e && e + 2 <= |p| && p[e - 1] != '.' && p[e] == '.' && p[e + 1] == '.'
  }

  /** The greatest cut at or below `e`; 0 when there is none. */
  function LastCut(p: string, e: nat): (r: nat)
    ensures r <= e
    ensures r > 0 ==> CutAt(p, r)
    ensures forall k :: r < k <= e ==> !CutAt(p, k)
  {
    if e == 0 then 0
    else if CutAt(p, e) then e
    else LastCut(p, e - 1)
  }

  /** What `(.*)` takes of `s`: everything before the first newline. */
  function Line(s: string): (r: string)
    ensures r <= s && '\n' !in r
  {
    s[..IndexOf(s, '\n')]
  }

  /**
   * `re.match(r'(.*[^.])?(\.\.\.?)(.*)', p)`: the greedy start group is the
   * longest prefix that ends in a character other than `.`, has no newline
   * before that character, and is followed by `..`; failing that, the
   * pattern must itself begin with `..`. A third dot is taken when present,
   * and the end group runs to the first newline.
   */
  function RangeSplit(p: string): (r: Option<RangeParts>)
  {
    var e := Cut(p);
    if e == 0 && !LeadingDots(p) then None
    else
      var dots := DotsAt(p, e);
      Some(RangeParts(p[..e], dots, Line(p[e + |dots|..])))
  }

  /** Where the greedy start group ends: the last cut on the first line, or 0. */
  function Cut(p: string): (e: nat)
    ensures e == 0 || CutAt(p, e)
  {
    LastCut(p, IndexOf(p, '\n') + 1)
  }

  /** `p` begins with `..`. */
  predicate LeadingDots(p: string)
  {
    2 <= |p| && p[0] == '.' && p[1] == '.'
  }

  /** The dots group at position `e`: a third dot is taken when there is one. */
  function DotsAt(p: string, e: nat): string
  {
    if e + 2 < |p| && p[e + 2] == '.' then "..." else ".."
  }

  /** A split puts its parts back together as a prefix of the pattern. */
  lemma RangeSplitParts(p: string)
    requires RangeSplit(p).Some?
    ensures SplitOf(p, RangeSplit(p).value)
  {
    var r := RangeSplit(p).value;
    var e := Cut(p);
    var n := e + |r.dots|;
    assert r.start == p[..e];
    assert p[e..n] == r.dots by {
      assert p[e] == '.' && p[e + 1] == '.';
    }
    assert r.end <= p[n..];
    PartsPrefix(r.start, r.dots, r.end, p);
  }

  lemma PartsPrefix(x: string, y: string, z: string, p: string)
    requires |x| + |y| <= |p| && x == p[..|x|] && y == p[|x|..|x| + |y|] && z <= p[|x| + |y|..]
    ensures x + y + z <= p
  {
    var n := |x| + |y|;
    forall j | 0 <= j < |x + y + z|
      ensures (x + y + z)[j] == p[j]
    {
      if j < |x| {
        assert (x + y + z)[j] == x[j];
      } else if j < n {
        assert (x + y + z)[j] == y[j - |x|] == p[|x|..n][j - |x|];
      } else {
        assert (x + y + z)[j] == z[j - n] == p[n..][j - n];
      }
    }
  }

  /**
   * `r` is a split of `p`: its parts put back together are a prefix of
   * `p`, the dots are two or three, the start is empty or ends in a
   * character other than `.`, and the end holds no newline.
   */
  predicate SplitOf(p: string, r: RangeParts)
  {
    && (r.dots == ".." || r.dots == "...")
    && r.start + r.dots + r.end <= p
    && (r.start == [] || r.start[|r.start| - 1] != '.')
    && '\n' !in r.end
  }

  /** The start group is greedy: no later `..` on the first line could have ended it. */
  lemma RangeSplitGreedy(p: string)
    requires RangeSplit(p).Some?
    ensures forall k :: |RangeSplit(p).value.start| < k <= IndexOf(p, '\n') + 1 ==> !CutAt(p, k)
  {
  }

  /** On a single line, a pattern is a range exactly when it holds `..`. */
  lemma RangeIffDots(p: string)
    requires '\n' !in p
    ensures RangeSplit(p).Some? <==> exists k :: 0 <= k && k + 2 <= |p| && p[k] == '.' && p[k + 1] == '.'
  {
    IndexOfAbsent(p, '\n');
    if k :| 0 <= k && k + 2 <= |p| && p[k] == '.' && p[k + 1] == '.' {
      var f := FirstDots(p, k);
      if f > 0 {
        assert CutAt(p, f);
        assert Cut(p) >= f;
      }
    }
  }

  /** The first `..` of `p`, at or before position `k`, which holds one. */
  lemma {:induction false} FirstDots(p: string, k: nat) returns (f: nat)
    requires k + 2 <= |p| && p[k] == '.' && p[k + 1] == '.'
    ensures f <= k && p[f] == '.' && p[f + 1] == '.'
    ensures f == 0 || p[f - 1] != '.'
    decreases k
  {
    if k > 0 && p[k - 1] == '.' {
      f := FirstDots(p, k - 1);
    } else {
      f := k;
    }
  }

  /** Patterns from the version tests: a bare id is not a range. */
  lemma BareIdIsNoRange()
    ensures RangeSplit("1.0.0") == None
  {
    RangeIffDots("1.0.0");
  }

  /** Patterns from the version tests: `..` and `...` alone. */
  lemma BareDots()
    ensures RangeSplit("..") == Some(RangeParts("", "..", ""))
    ensures RangeSplit("...") == Some(RangeParts("", "...", ""))
  {
    IndexOfAbsent("..", '\n');
    IndexOfAbsent("...", '\n');
    IndexOfAbsent("", '\n');
    assert Cut("..") == 0;
    assert Cut("...") == 0;
  }

  /** `s` holds no `..`. */
  predicate NoDoubleDot(s: string)
  {
    forall j :: 0 <= j < |s| - 1 ==> !(s[j] == '.' && s[j + 1] == '.')
  }

  /**
   * Splitting undoes writing a range: an id `a` that does not end in `.`
   * (possibly empty), then `..` or `...`, then an id `b` without `..`
   * (not starting with `.` after two dots), all on one line, split back
   * into `a`, the dots and `b`.
   */
  lemma RangeSplitJoin(a: string, dots: string, b: string)
    requires a == [] || a[|a| - 1] != '.'
    requires '\n' !in a && '\n' !in b && NoDoubleDot(b)
    requires dots == "..." || (dots == ".." && (b == [] || b[0] != '.'))
    ensures RangeSplit(a + dots + b) == Some(RangeParts(a, dots, b))
  {
    var p := a + dots + b;
    var n := |a| + |dots|;
    assert p[..|a|] == a;
    assert p[n..] == b;
    assert p[|a|..n] == dots;
    NoNewline(a, dots, b);
    IndexOfAbsent(p, '\n');
    IndexOfAbsent(b, '\n');
    NoCutAfterStart(a, dots, b);
    if a != [] {
      assert CutAt(p, |a|);
    }
    assert Cut(p) == |a|;
    assert DotsAt(p, |a|) == dots;
    if a == [] {
      assert LeadingDots(p);
    }
    assert Line(b) == b;
  }

  lemma NoNewline(a: string, dots: string, b: string)
    requires '\n' !in a && '\n' !in b && (dots == "..." || dots == "..")
    ensures '\n' !in a + dots + b
  {
    var p := a + dots + b;
    forall j | 0 <= j < |p|
      ensures p[j] != '\n'
    {
      if j < |a| {
        assert p[j] == a[j];
      } else if j < |a| + |dots| {
        assert p[j] == dots[j - |a|];
      } else {
        assert p[j] == b[j - |a| - |dots|];
      }
    }
  }

  /** No cut lies after the end of `a`: the dots hold none and `b` holds no `..`. */
  lemma NoCutAfterStart(a: string, dots: string, b: string)
    requires NoDoubleDot(b)
    requires dots == "..." || (dots == ".." && (b == [] || b[0] != '.'))
    ensures forall k :: |a| < k ==> !CutAt(a + dots + b, k)
  {
    var p := a + dots + b;
    var n := |a| + |dots|;
    forall k | |a| < k && k + 2 <= |p|
      ensures p[k - 1] == '.' || p[k] != '.' || p[k + 1] != '.'
    {
      if k <= n {
        assert p[k - 1] == dots[k - 1 - |a|];
      } else {
        assert b[k - n] == p[k] && b[k - n + 1] == p[k + 1];
      }
    }
  }

  /** A pattern from the version tests: start id, three dots, end id. */
  lemma StartDotsEnd()
    ensures RangeSplit("abcdef" + "..." + "1.0.0") == Some(RangeParts("abcdef", "...", "1.0.0"))
  {
    assert NoDoubleDot("1.0.0");
    RangeSplitJoin("abcdef", "...", "1.0.0");
  }
}
