/**
 * Bookkeeping shared by both rename detectors: the renames found so far,
 * grouped by the path of the declaration they belong to, and the
 * hypotheses (pairs of nodes assumed to correspond) grouped by path.
 */
module Renames {
  import opened Wrappers
  import opened JavaAst
  import opened AstIndex

  /** `(old, new)`: a variable named `source` in the old code is named `target` in the new code. */
  datatype Rename = Rename(source: Value, target: Value)

  /** `(path, [(old, new), ...])` */
  datatype RenameEntry = RenameEntry(path: Path, renames: seq<Rename>)

  /** The `JavaAnalyzationError`s the detectors raise, with the offending value. */
  datatype ConflictKind =
    | DuplicateDeclaratorInSource(node: Value)
    | DuplicateDeclaratorInTarget(node: Value)
    | DuplicateNameInSource(name: Value)
    | DuplicateNameInTarget(name: Value)

  /** `None` on a syntax error, the list of renames, or a raised `JavaAnalyzationError`. */
  datatype Outcome = SyntaxError | Renamed(entries: seq<RenameEntry>) | Conflict(kind: ConflictKind)

  /** `(path, [hypothesis, ...])`: one entry of the detectors' `matches` list. */
  datatype HypEntry<H> = HypEntry(path: Path, hyps: seq<H>)

  /**
   * The state a detector's loops update: `matches`, `renamed_var_names`,
   * and the error once one is raised (after which nothing else happens).
   */
  datatype Search<H> = Search(matches: seq<HypEntry<H>>, renamed: seq<RenameEntry>, raised: Option<ConflictKind>)

  /** Every rename in every entry. */
  function AllRenames(rv: seq<RenameEntry>): set<Rename>
  {
    set e, rn | e in rv && rn in e.renames :: rn
  }

  /**
   * No entry is empty, no two entries have `==` paths, and within an entry
   * no old name and no new name occurs twice.
   */
  predicate WellGrouped(rv: seq<RenameEntry>)
  {
    && (forall i :: 0 <= i < |rv| ==> rv[i].renames != [])
    && (forall i, j :: 0 <= i < j < |rv| ==> !SamePath(rv[i].path, rv[j].path))
    && (forall i :: 0 <= i < |rv| ==> Distinct(rv[i].renames))
  }

  predicate Distinct(rs: seq<Rename>)
  {
    forall k, l :: 0 <= k < l < |rs| ==> !PyEq(rs[k].source, rs[l].source) && !PyEq(rs[k].target, rs[l].target)
  }

  /** `rn` shares its old or its new name with one of `rs`. */
  predicate Clash(rs: seq<Rename>, rn: Rename)
  {
    exists l :: 0 <= l < |rs| && (PyEq(rs[l].source, rn.source) || PyEq(rs[l].target, rn.target))
  }

  /** Every old name is a declarator name of the old code that the new code does not declare; every new name is one the new code declares. */
  predicate NamesFrom(rv: seq<RenameEntry>, sourceNames: seq<Value>, targetNames: seq<Value>)
  {
    forall rn :: rn in AllRenames(rv) ==>
      InValues(rn.source, sourceNames) && !InValues(rn.source, targetNames) && InValues(rn.target, targetNames)
  }

  /** The position of the first entry whose path is `==` to `path`, or `|rv|` when there is none. */
  function FirstAt(rv: seq<RenameEntry>, path: Path): (k: nat)
    ensures k <= |rv|
    ensures k < |rv| ==> SamePath(rv[k].path, path)
    ensures forall k' :: 0 <= k' < k ==> !SamePath(rv[k'].path, path)
  {
    if rv == [] then 0
    else if SamePath(rv[0].path, path) then 0
    else 1 + FirstAt(rv[1..], path)
  }

  /** The position of the first rename sharing its old or its new name with `rn`, or `|rs|`. */
  function FirstClash(rs: seq<Rename>, rn: Rename): (l: nat)
    ensures l <= |rs|
    ensures l < |rs| ==> PyEq(rs[l].source, rn.source) || PyEq(rs[l].target, rn.target)
    ensures forall l' :: 0 <= l' < l ==> !PyEq(rs[l'].source, rn.source) && !PyEq(rs[l'].target, rn.target)
  {
    if rs == [] then 0
    else if PyEq(rs[0].source, rn.source) || PyEq(rs[0].target, rn.target) then 0
    else 1 + FirstClash(rs[1..], rn)
  }

  /**
   * Recording rename `rn` at `path`: it joins the first entry at a `==`
   * path, or a new entry when there is none; it fails when that entry
   * already has a rename sharing a name with it, naming the first such
   * rename's old name when that is the shared one, else its new name.
   */
  function WithRename(rv: seq<RenameEntry>, path: Path, rn: Rename): (r: Result<seq<RenameEntry>, ConflictKind>)
    ensures r.Failure? <==> FirstAt(rv, path) < |rv| && Clash(rv[FirstAt(rv, path)].renames, rn)
    ensures r.Failure? ==>
      || (r.error.DuplicateNameInSource? && PyEq(r.error.name, rn.source))
      || (r.error.DuplicateNameInTarget? && PyEq(r.error.name, rn.target))
    ensures r.Success? ==> AllRenames(r.value) == AllRenames(rv) + {rn}
    ensures r.Success? && WellGrouped(rv) ==> WellGrouped(r.value)
  {
    var k := FirstAt(rv, path);
    if k == |rv| then
      NewEntryKeepsGrouped(rv, path, rn);
      Success(rv + [RenameEntry(path, [rn])])
    else
      var rs := rv[k].renames;
      var l := FirstClash(rs, rn);
      if l == |rs| then
        AppendKeepsNames(rv, k, rn);
        AppendKeepsGrouped(rv, k, rn);
        Success(rv[k := RenameEntry(rv[k].path, rs + [rn])])
      else if PyEq(rs[l].source, rn.source) then
        PyEqSymmetric(rs[l].source, rn.source);
        Failure(DuplicateNameInSource(rs[l].source))
      else
        PyEqSymmetric(rs[l].target, rn.target);
        Failure(DuplicateNameInTarget(rs[l].target))
  }

  /**
   * The `for path, mappings in renamed_var_names` loop of the newer
   * detector: the first entry whose path is `==` to `path` receives `rn`
   * unless `rn` shares a name with one of its renames, in which case the
   * candidate is skipped; with no such entry, a new entry is appended.
   */
  method RecordRename(rv: seq<RenameEntry>, path: Path, rn: Rename) returns (rv': seq<RenameEntry>, skipped: bool)
    ensures (forall k :: 0 <= k < |rv| ==> !SamePath(rv[k].path, path)) ==>
      !skipped && rv' == rv + [RenameEntry(path, [rn])]
    ensures forall k :: 0 <= k < |rv| && SamePath(rv[k].path, path) && (forall k' :: 0 <= k' < k ==> !SamePath(rv[k'].path, path)) ==>
      && (skipped <==> Clash(rv[k].renames, rn))
      && rv' == if skipped then rv else rv[k := RenameEntry(rv[k].path, rv[k].renames + [rn])]
    ensures WellGrouped(rv) ==> WellGrouped(rv')
    ensures AllRenames(rv') <= AllRenames(rv) + {rn}
    ensures skipped <==> WithRename(rv, path, rn).Failure?
    ensures rv' == if skipped then rv else WithRename(rv, path, rn).value
  {
    var i := 0;
    while i < |rv| && !SamePath(rv[i].path, path)
      invariant 0 <= i <= |rv|
      invariant forall k :: 0 <= k < i ==> !SamePath(rv[k].path, path)
    {
      i := i + 1;
    }
    if i == |rv| {
      rv', skipped := rv + [RenameEntry(path, [rn])], false;
      NewEntryKeepsGrouped(rv, path, rn);
      return;
    }
    var rs := rv[i].renames;
    var l := 0;
    while l < |rs| && !(PyEq(rs[l].source, rn.source) || PyEq(rs[l].target, rn.target))
      invariant 0 <= l <= |rs|
      invariant forall l' :: 0 <= l' < l ==> !(PyEq(rs[l'].source, rn.source) || PyEq(rs[l'].target, rn.target))
    {
      l := l + 1;
    }
    skipped := l < |rs|;
    if skipped {
      rv' := rv;
    } else {
      rv' := rv[i := RenameEntry(rv[i].path, rs + [rn])];
      AppendKeepsNames(rv, i, rn);
      AppendKeepsGrouped(rv, i, rn);
    }
  }

  lemma NewEntryKeepsGrouped(rv: seq<RenameEntry>, path: Path, rn: Rename)
    requires forall k :: 0 <= k < |rv| ==> !SamePath(rv[k].path, path)
    ensures WellGrouped(rv) ==> WellGrouped(rv + [RenameEntry(path, [rn])])
    ensures AllRenames(rv + [RenameEntry(path, [rn])]) == AllRenames(rv) + {rn}
  {
    var rv' := rv + [RenameEntry(path, [rn])];
    forall x | x in AllRenames(rv')
      ensures x in AllRenames(rv) + {rn}
    {
      var e :| e in rv' && x in e.renames;
      if e != RenameEntry(path, [rn]) {
        assert e in rv;
      }
    }
    assert rv'[|rv|] in rv' && rn in rv'[|rv|].renames;
    forall x | x in AllRenames(rv)
      ensures x in AllRenames(rv')
    {
      var e :| e in rv && x in e.renames;
      assert e in rv';
    }
  }

  lemma AppendKeepsGrouped(rv: seq<RenameEntry>, i: int, rn: Rename)
    requires 0 <= i < |rv| && !Clash(rv[i].renames, rn)
    ensures WellGrouped(rv) ==> WellGrouped(rv[i := RenameEntry(rv[i].path, rv[i].renames + [rn])])
  {
    if WellGrouped(rv) {
      var rs := rv[i].renames + [rn];
      forall k, l | 0 <= k < l < |rs|
        ensures !PyEq(rs[k].source, rs[l].source) && !PyEq(rs[k].target, rs[l].target)
      {
        if l == |rs| - 1 {
          assert !(PyEq(rv[i].renames[k].source, rn.source) || PyEq(rv[i].renames[k].target, rn.target));
        }
      }
    }
  }

  lemma AppendKeepsNames(rv: seq<RenameEntry>, i: int, rn: Rename)
    requires 0 <= i < |rv|
    ensures AllRenames(rv[i := RenameEntry(rv[i].path, rv[i].renames + [rn])]) == AllRenames(rv) + {rn}
  {
    var rv' := rv[i := RenameEntry(rv[i].path, rv[i].renames + [rn])];
    assert rv'[i] in rv' && rn in rv'[i].renames;
    forall x | x in AllRenames(rv)
      ensures x in AllRenames(rv')
    {
      var e :| e in rv && x in e.renames;
      var j :| 0 <= j < |rv| && rv[j] == e;
      assert rv'[j] in rv';
      assert x in rv'[j].renames;
    }
    forall x | x in AllRenames(rv')
      ensures x in AllRenames(rv) + {rn}
    {
      var e :| e in rv' && x in e.renames;
      var j :| 0 <= j < |rv'| && rv'[j] == e;
      if j != i {
        assert rv[j] == e;
      } else if x != rn {
        assert x in rv[i].renames;
      }
    }
  }

  /**
   * The `for path, v_name in renamed_variables` loop of the older detector:
   * like `RecordRename`, but a shared old or new name raises instead of
   * skipping the candidate.
   */
  method RecordRenameOrRaise(rv: seq<RenameEntry>, path: Path, rn: Rename) returns (r: Result<seq<RenameEntry>, ConflictKind>)
    ensures (forall k :: 0 <= k < |rv| ==> !SamePath(rv[k].path, path)) ==>
      r == Success(rv + [RenameEntry(path, [rn])])
    ensures forall k :: 0 <= k < |rv| && SamePath(rv[k].path, path) && (forall k' :: 0 <= k' < k ==> !SamePath(rv[k'].path, path)) ==>
      && (r.Failure? <==> Clash(rv[k].renames, rn))
      && (r.Success? ==> r.value == rv[k := RenameEntry(rv[k].path, rv[k].renames + [rn])])
    ensures r.Failure? ==>
      || (r.error.DuplicateNameInSource? && PyEq(r.error.name, rn.source))
      || (r.error.DuplicateNameInTarget? && PyEq(r.error.name, rn.target))
    ensures r.Success? && WellGrouped(rv) ==> WellGrouped(r.value)
    ensures r.Success? ==> AllRenames(r.value) <= AllRenames(rv) + {rn}
    ensures r == WithRename(rv, path, rn)
  {
    var i := 0;
    while i < |rv| && !SamePath(rv[i].path, path)
      invariant 0 <= i <= |rv|
      invariant forall k :: 0 <= k < i ==> !SamePath(rv[k].path, path)
    {
      i := i + 1;
    }
    if i == |rv| {
      r := Success(rv + [RenameEntry(path, [rn])]);
      NewEntryKeepsGrouped(rv, path, rn);
      return;
    }
    var rs := rv[i].renames;
    for l := 0 to |rs|
      invariant forall l' :: 0 <= l' < l ==> !(PyEq(rs[l'].source, rn.source) || PyEq(rs[l'].target, rn.target))
    {
      if PyEq(rs[l].source, rn.source) {
        return Failure(DuplicateNameInSource(rs[l].source));
      }
      if PyEq(rs[l].target, rn.target) {
        return Failure(DuplicateNameInTarget(rs[l].target));
      }
    }
    r := Success(rv[i := RenameEntry(rv[i].path, rs + [rn])]);
    AppendKeepsNames(rv, i, rn);
    AppendKeepsGrouped(rv, i, rn);
  }

  /** An entry after `h` has been added to it when its path is `==` to `path`. */
  function Grown<H>(e: HypEntry<H>, path: Path, h: H): HypEntry<H>
  {
    if SamePath(e.path, path) then HypEntry(e.path, e.hyps + [h]) else e
  }

  /** `ms` after `h` has been added to every entry at a `==` path and a new entry `(path, [h])` appended. */
  function WithHyp<H>(ms: seq<HypEntry<H>>, path: Path, h: H): (r: seq<HypEntry<H>>)
    ensures |r| == |ms| + 1
    ensures r[|ms|] == HypEntry(path, [h])
    ensures forall k :: 0 <= k < |ms| && !SamePath(ms[k].path, path) ==> r[k] == ms[k]
    ensures forall k :: 0 <= k < |ms| && SamePath(ms[k].path, path) ==> r[k] == HypEntry(ms[k].path, ms[k].hyps + [h])
  {
    seq(|ms|, k requires 0 <= k < |ms| => Grown(ms[k], path, h)) + [HypEntry(path, [h])]
  }

  /**
   * The `for path, mappings in matches: ... else: matches.append(...)` loop:
   * `h` is added to every entry whose path is `==` to `path`, and since the
   * loop never breaks, a new entry `(path, [h])` is always appended too.
   */
  method AppendToSamePath<H>(ms: seq<HypEntry<H>>, path: Path, h: H) returns (ms': seq<HypEntry<H>>)
    ensures |ms'| == |ms| + 1
    ensures forall k :: 0 <= k < |ms| ==> ms'[k] == Grown(ms[k], path, h)
    ensures ms'[|ms|] == HypEntry(path, [h])
    ensures ms' == WithHyp(ms, path, h)
  {
    ms' := ms;
    for k := 0 to |ms|
      invariant |ms'| == |ms|
      invariant forall k' :: 0 <= k' < k ==> ms'[k'] == Grown(ms[k'], path, h)
      invariant forall k' :: k <= k' < |ms| ==> ms'[k'] == ms[k']
    {
      if SamePath(ms[k].path, path) {
        ms' := ms'[k := HypEntry(ms[k].path, ms[k].hyps + [h])];
      }
    }
    ms' := ms' + [HypEntry(path, [h])];
    assert forall k :: 0 <= k < |ms'| ==> ms'[k] == WithHyp(ms, path, h)[k];
  }

  /** Some hypothesis of `e` already names `a` on its left or `b` on its right. */
  predicate Reuses<H>(e: HypEntry<H>, left: H -> Value, right: H -> Value, a: Value, b: Value)
  {
    exists l :: 0 <= l < |e.hyps| && (PyEq(left(e.hyps[l]), a) || PyEq(right(e.hyps[l]), b))
  }

  /** Hypothesis `o` already names `a` on its left or `b` on its right. */
  predicate Hits<H>(o: H, left: H -> Value, right: H -> Value, a: Value, b: Value)
  {
    PyEq(left(o), a) || PyEq(right(o), b)
  }

  /** The position of the first hypothesis of `hs` naming `a` or `b`, or `|hs|`. */
  function FirstHit<H>(hs: seq<H>, left: H -> Value, right: H -> Value, a: Value, b: Value): (l: nat)
    ensures l <= |hs|
    ensures l < |hs| ==> Hits(hs[l], left, right, a, b)
    ensures forall l' :: 0 <= l' < l ==> !Hits(hs[l'], left, right, a, b)
  {
    if hs == [] then 0
    else if Hits(hs[0], left, right, a, b) then 0
    else 1 + FirstHit(hs[1..], left, right, a, b)
  }

  /** The position of the first entry at a `==` path with a hypothesis naming `a` or `b`, or `|ms|`. */
  function FirstReuse<H>(ms: seq<HypEntry<H>>, path: Path, left: H -> Value, right: H -> Value, a: Value, b: Value): (k: nat)
    ensures k <= |ms|
    ensures k < |ms| ==> SamePath(ms[k].path, path) && Reuses(ms[k], left, right, a, b)
    ensures forall k' :: 0 <= k' < k ==> !(SamePath(ms[k'].path, path) && Reuses(ms[k'], left, right, a, b))
  {
    if ms == [] then 0
    else if SamePath(ms[0].path, path) && Reuses(ms[0], left, right, a, b) then 0
    else 1 + FirstReuse(ms[1..], path, left, right, a, b)
  }

  /**
   * Recording hypothesis `h` about declarators `a` and `b` at `path`: the
   * first entry at a `==` path that already names one of them raises,
   * about its first hypothesis that does, naming the source declarator
   * when that hypothesis names `a`, else the target declarator; with no
   * such entry, `h` is added as `WithHyp` adds it.
   */
  function DeclaratorRecorded<H>(ms: seq<HypEntry<H>>, path: Path, h: H, a: Value, b: Value, left: H -> Value, right: H -> Value)
    : (r: Result<seq<HypEntry<H>>, ConflictKind>)
    ensures r.Failure? <==> exists k :: 0 <= k < |ms| && SamePath(ms[k].path, path) && Reuses(ms[k], left, right, a, b)
    ensures r.Failure? ==>
      || (r.error.DuplicateDeclaratorInSource? && PyEq(r.error.node, a))
      || (r.error.DuplicateDeclaratorInTarget? && PyEq(r.error.node, b))
    ensures r.Success? ==>
      && r.value == WithHyp(ms, path, h)
      && |r.value| == |ms| + 1
      && (forall k :: 0 <= k < |ms| ==> r.value[k] == Grown(ms[k], path, h))
      && r.value[|ms|] == HypEntry(path, [h])
  {
    var k := FirstReuse(ms, path, left, right, a, b);
    if k == |ms| then Success(WithHyp(ms, path, h))
    else
      var l := FirstHit(ms[k].hyps, left, right, a, b);
      assert l < |ms[k].hyps|;
      var o := ms[k].hyps[l];
      Failure(if PyEq(left(o), a) then DuplicateDeclaratorInSource(left(o)) else DuplicateDeclaratorInTarget(right(o)))
  }

  /**
   * The closing loop of both detectors: every entry whose path is `==` to
   * `path` is searched for a hypothesis that already matches declarator `a`
   * (raising a duplicate in the source) or declarator `b` (a duplicate in
   * the target), then receives `h`; a new entry `(path, [h])` is always
   * appended at the end.
   */
  method RecordDeclaratorMatch<H>(ms: seq<HypEntry<H>>, path: Path, h: H, a: Value, b: Value, left: H -> Value, right: H -> Value)
    returns (r: Result<seq<HypEntry<H>>, ConflictKind>)
    ensures r == DeclaratorRecorded(ms, path, h, a, b, left, right)
  {
    var acc := ms;
    for k := 0 to |ms|
      invariant |acc| == |ms|
      invariant forall k' :: 0 <= k' < k ==> acc[k'] == Grown(ms[k'], path, h)
      invariant forall k' :: k <= k' < |ms| ==> acc[k'] == ms[k']
      invariant forall k' :: 0 <= k' < k && SamePath(ms[k'].path, path) ==> !Reuses(ms[k'], left, right, a, b)
    {
      if SamePath(ms[k].path, path) {
        var hs := ms[k].hyps;
        for l := 0 to |hs|
          invariant forall l' :: 0 <= l' < l ==> !PyEq(left(hs[l']), a) && !PyEq(right(hs[l']), b)
        {
          if Hits(hs[l], left, right, a, b) {
            RecordedAtReuse(ms, path, h, a, b, left, right, k, l);
          }
          if PyEq(left(hs[l]), a) {
            return Failure(DuplicateDeclaratorInSource(left(hs[l])));
          }
          if PyEq(right(hs[l]), b) {
            return Failure(DuplicateDeclaratorInTarget(right(hs[l])));
          }
        }
        acc := acc[k := HypEntry(ms[k].path, hs + [h])];
      }
    }
    r := Success(acc + [HypEntry(path, [h])]);
    RecordedWithoutReuse(ms, path, h, a, b, left, right, acc);
  }

  lemma RecordedAtReuse<H>(ms: seq<HypEntry<H>>, path: Path, h: H, a: Value, b: Value, left: H -> Value, right: H -> Value, k: nat, l: nat)
    requires k < |ms| && SamePath(ms[k].path, path) && l < |ms[k].hyps| && Hits(ms[k].hyps[l], left, right, a, b)
    requires forall k' :: 0 <= k' < k && SamePath(ms[k'].path, path) ==> !Reuses(ms[k'], left, right, a, b)
    requires forall l' :: 0 <= l' < l ==> !PyEq(left(ms[k].hyps[l']), a) && !PyEq(right(ms[k].hyps[l']), b)
    ensures var o := ms[k].hyps[l];
      DeclaratorRecorded(ms, path, h, a, b, left, right) ==
      Failure(if PyEq(left(o), a) then DuplicateDeclaratorInSource(left(o)) else DuplicateDeclaratorInTarget(right(o)))
  {
    var k' := FirstReuse(ms, path, left, right, a, b);
    assert k' == k by {
      assert Reuses(ms[k], left, right, a, b);
    }
    var l' := FirstHit(ms[k].hyps, left, right, a, b);
    assert l' == l;
  }

  lemma RecordedWithoutReuse<H>(ms: seq<HypEntry<H>>, path: Path, h: H, a: Value, b: Value, left: H -> Value, right: H -> Value, acc: seq<HypEntry<H>>)
    requires forall k :: 0 <= k < |ms| && SamePath(ms[k].path, path) ==> !Reuses(ms[k], left, right, a, b)
    requires |acc| == |ms| && forall k :: 0 <= k < |ms| ==> acc[k] == Grown(ms[k], path, h)
    ensures DeclaratorRecorded(ms, path, h, a, b, left, right) == Success(acc + [HypEntry(path, [h])])
  {
    assert FirstReuse(ms, path, left, right, a, b) == |ms|;
    assert acc + [HypEntry(path, [h])] == WithHyp(ms, path, h);
  }

  /** `[declarator for declarator in node.declarators]` */
  function DeclaratorsOf(n: Value): seq<Value>
  {
    Items(Get(n, "declarators"))
  }

  function NameOf(d: Value): Value
  {
    Get(d, "name")
  }

  /** The names of a declaration's declarators, in order. */
  function NodeNames(n: Value): (names: seq<Value>)
    ensures |names| == |DeclaratorsOf(n)|
    ensures forall m :: 0 <= m < |names| ==> names[m] == NameOf(DeclaratorsOf(n)[m])
  {
    seq(|DeclaratorsOf(n)|, m requires 0 <= m < |DeclaratorsOf(n)| => NameOf(DeclaratorsOf(n)[m]))
  }

  /** `[declarator.name for declaration in ns for declarator in declaration.declarators]` */
  function NodesNames(ns: seq<Value>): seq<Value>
  {
    if ns == [] then [] else NodeNames(ns[0]) + NodesNames(ns[1..])
  }

  /** The names of one declaration of one declarator. */
  lemma OneDeclarationNames(n: Value, d: Value)
    requires DeclaratorsOf(n) == [d]
    ensures NodesNames([n]) == [NameOf(d)]
  {
    assert [n][1..] == [];
    assert NodeNames(n) == [NameOf(d)];
  }

  /** The names of two declarations of one declarator each, in order. */
  lemma TwoDeclarationNames(n0: Value, n1: Value, d0: Value, d1: Value)
    requires DeclaratorsOf(n0) == [d0] && DeclaratorsOf(n1) == [d1]
    ensures NodesNames([n0, n1]) == [NameOf(d0), NameOf(d1)]
  {
    assert [n0, n1][1..] == [n1];
    assert NodeNames(n0) == [NameOf(d0)];
    OneDeclarationNames(n1, d1);
  }

  /** Every declarator of a listed declaration contributes its name. */
  lemma {:induction false} NameListed(ns: seq<Value>, k: int, m: int)
    requires 0 <= k < |ns| && 0 <= m < |DeclaratorsOf(ns[k])|
    ensures NameOf(DeclaratorsOf(ns[k])[m]) in NodesNames(ns)
  {
    if k == 0 {
      assert NodeNames(ns[0])[m] == NameOf(DeclaratorsOf(ns[k])[m]);
    } else {
      NameListed(ns[1..], k - 1, m);
    }
  }

  /** A node held by a chunk is among the chunks' nodes. */
  lemma {:induction false} ChunkNodeListed(cs: seq<Chunk>, j: int, n: int)
    requires 0 <= j < |cs| && 0 <= n < |cs[j].nodes|
    ensures cs[j].nodes[n] in NodesOf(Expand(cs))
  {
    var init, last := cs[..|cs| - 1], cs[|cs| - 1];
    assert cs == init + [last];
    AppendChunk(init, last);
    NodesOfAppend(Expand(init), Spread(last));
    if j == |cs| - 1 {
      assert NodesOf(Spread(last))[n] == cs[j].nodes[n];
    } else {
      assert init[j] == cs[j];
      ChunkNodeListed(init, j, n);
    }
  }

  lemma InValuesOfMember(x: Value, xs: seq<Value>)
    requires x in xs
    ensures InValues(x, xs)
  {
    var i :| 0 <= i < |xs| && xs[i] == x;
    InValuesOfElement(xs, i);
  }

  /** Each value of `xs` is `in` it. */
  lemma EveryValueIn(xs: seq<Value>)
    ensures forall k :: 0 <= k < |xs| ==> InValues(xs[k], xs)
  {
    forall k | 0 <= k < |xs|
      ensures InValues(xs[k], xs)
    {
      InValuesOfElement(xs, k);
    }
  }

  /** `[(path, ref) for path, ref in es if ref.member == name]` */
  function RefsTo(es: seq<Entry>, name: Value): seq<Entry>
  {
    if es == [] then []
    else (if PyEq(Get(es[0].node, "member"), name) then [es[0]] else []) + RefsTo(es[1..], name)
  }

  /** The references kept are exactly the records whose `member` is `==` to `name`. */
  lemma {:induction false} RefsToSelects(es: seq<Entry>, name: Value)
    ensures forall e :: e in RefsTo(es, name) <==> e in es && PyEq(Get(e.node, "member"), name)
  {
    if es != [] {
      RefsToSelects(es[1..], name);
      assert forall e :: e in es <==> e == es[0] || e in es[1..];
    }
  }

  const VariableDeclaration: string := "VariableDeclaration"
  const MemberReference: string := "MemberReference"

  /** `[declarator.name for ... in filter_ast_node(tree, VariableDeclaration) ...]` */
  function DeclNames(tree: Value): seq<Value>
  {
    NodesNames(NodesOf(FilterAstNode(tree, VariableDeclaration)))
  }

  /** Every name of `names` is `in` `among`. */
  predicate Covered(names: seq<Value>, among: seq<Value>)
  {
    forall k :: 0 <= k < |names| ==> InValues(names[k], among)
  }

  /** What every loop of the detector keeps true of the renames found so far. */
  predicate Found(renamed: seq<RenameEntry>, sourceNames: seq<Value>, targetNames: seq<Value>, covered: bool)
  {
    WellGrouped(renamed) && NamesFrom(renamed, sourceNames, targetNames) && (covered ==> renamed == [])
  }

  lemma NotCovered(names: seq<Value>, among: seq<Value>, x: Value)
    requires InValues(x, names) && !InValues(x, among)
    ensures !Covered(names, among)
  {
    var k :| 0 <= k < |names| && PyEq(names[k], x);
    if InValues(names[k], among) {
      var l :| 0 <= l < |among| && PyEq(among[l], names[k]);
      PyEqTransitive(among[l], names[k], x);
    }
  }

  lemma NamesStayFrom(before: seq<RenameEntry>, after: seq<RenameEntry>, rn: Rename, sourceNames: seq<Value>, targetNames: seq<Value>)
    requires NamesFrom(before, sourceNames, targetNames)
    requires AllRenames(after) <= AllRenames(before) + {rn}
    requires InValues(rn.source, sourceNames) && !InValues(rn.source, targetNames) && InValues(rn.target, targetNames)
    ensures NamesFrom(after, sourceNames, targetNames)
  {
  }
}
