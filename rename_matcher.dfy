/**
 * The newer rename detector: declarations and references are chunked by
 * path, chunk pairs are compared under the hypotheses collected so far, and
 * a source declarator is matched to a target declarator when both are equal
 * except for their names and their references correspond one to one.
 */
module RenameMatcher {
  import opened Wrappers
  import opened JavaAst
  import opened AstEquality
  import opened AstIndex
  import opened Renames

  /** `[(old, new, attrs) for path, v in matches for old, new, attrs in v if path in (sp, tp)]` */
  function PrevMatchesHere(ms: seq<HypEntry<Match>>, sp: Path, tp: Path): (r: seq<Match>)
    ensures forall k :: 0 <= k < |ms| && (SamePath(ms[k].path, sp) || SamePath(ms[k].path, tp)) ==>
      forall h :: h in ms[k].hyps ==> h in r
    ensures forall h :: h in r ==>
      exists k :: 0 <= k < |ms| && (SamePath(ms[k].path, sp) || SamePath(ms[k].path, tp)) && h in ms[k].hyps
  {
    if ms == [] then []
    else
      var rest := PrevMatchesHere(ms[1..], sp, tp);
      assert forall k :: 1 <= k < |ms| ==> ms[k] == ms[1..][k - 1];
      (if SamePath(ms[0].path, sp) || SamePath(ms[0].path, tp) then ms[0].hyps else []) + rest
  }

  /**
   * The two reference lists have the same length and each positional pair
   * of reference paths is equal, with the pair's nodes allowed to differ in
   * their `name`.
   */
  predicate SameReferences(ar: seq<Entry>, br: seq<Entry>, ms: seq<Match>)
  {
    |ar| == |br| && forall i :: 0 <= i < |ar| ==> ReferencePathsEqual(ar[i], br[i], ms)
  }

  /** `ast_paths_equal(a_ref_path, b_ref_path, matches=matches + [(a_ref_node, b_ref_node, 'name')])` */
  predicate ReferencePathsEqual(a: Entry, b: Entry, ms: seq<Match>)
  {
    AstPathsEqual(a.path, b.path, ms + [Match(a.node, b.node, "name")])
  }

  /** `_have_same_references` */
  method HaveSameReferences(aVar: Value, bVar: Value, aRefs: seq<Chunk>, bRefs: seq<Chunk>, ms: seq<Match>)
    returns (same: bool)
    ensures same <==> SameReferences(RefsTo(Expand(aRefs), aVar), RefsTo(Expand(bRefs), bVar), ms)
  {
    var ar := RefsTo(Expand(aRefs), aVar);
    var br := RefsTo(Expand(bRefs), bVar);
    if |ar| != |br| {
      return false;
    }
    for i := 0 to |ar|
      invariant forall k :: 0 <= k < i ==> ReferencePathsEqual(ar[k], br[k], ms)
    {
      if !ReferencePathsEqual(ar[i], br[i], ms) {
        return false;
      }
    }
    return true;
  }

  /**
   * Reference paths are compared non-recursively, so neither the hypotheses
   * passed in nor the pair's own name hypothesis change the verdict: only
   * the shapes of the path elements count.
   */
  lemma ReferencesCompareShapes(ar: seq<Entry>, br: seq<Entry>, ms: seq<Match>)
    ensures SameReferences(ar, br, ms) <==>
      |ar| == |br| && forall i :: 0 <= i < |ar| ==> AstPathsEqual(ar[i].path, br[i].path, [])
  {
    if |ar| == |br| {
      forall i | 0 <= i < |ar|
        ensures ReferencePathsEqual(ar[i], br[i], ms) == AstPathsEqual(ar[i].path, br[i].path, [])
      {
        PathsCompareShapes(ar[i].path, br[i].path, ms + [Match(ar[i].node, br[i].node, "name")]);
      }
    }
  }

  /** The source side of a hypothesis. */
  function MatchSource(m: Match): Value
  {
    m.a
  }

  /** The target side of a hypothesis. */
  function MatchTarget(m: Match): Value
  {
    m.b
  }

  /** `matches` after the reference pairs `(sr[i], tr[i])` from `i` on have been recorded at the target reference paths. */
  function RefMatches(ms: seq<HypEntry<Match>>, sr: seq<Entry>, tr: seq<Entry>, i: nat): seq<HypEntry<Match>>
    requires |sr| <= |tr|
    decreases |sr| - i
  {
    if i >= |sr| then ms
    else RefMatches(WithHyp(ms, tr[i].path, Match(sr[i].node, tr[i].node, "name")), sr, tr, i + 1)
  }

  /** Conditions 1c and 1d: equal except for `name`, and references that correspond. */
  predicate Admitted(prev: seq<Match>, sd: Value, td: Value, sr: seq<Entry>, tr: seq<Entry>)
  {
    AstNodesEqual(sd, td, true, prev + [Match(sd, td, "name")]) && SameReferences(sr, tr, prev)
  }

  /**
   * One `(source_declarator, target_declarator)` candidate, the body of the
   * innermost loop: an admitted pair records its reference pairs as
   * hypotheses; then the rename is recorded at the target declaration path
   * unless it clashes there, in which case nothing more happens; then the
   * declarator pair itself is recorded, which raises when either declarator
   * was already matched at that path.
   */
  function PairStep(st: Search<Match>, prev: seq<Match>, sd: Value, td: Value, sr: seq<Entry>, targetReferences: seq<Chunk>, tPath: Path)
    : Search<Match>
  {
    var tr := RefsTo(Expand(targetReferences), NameOf(td));
    if !Admitted(prev, sd, td, sr, tr) then st
    else
      var grown := RefMatches(st.matches, sr, tr, 0);
      match WithRename(st.renamed, tPath, Rename(NameOf(sd), NameOf(td)))
      case Failure(_) => Search(grown, st.renamed, st.raised)
      case Success(renamed) =>
        match DeclaratorRecorded(grown, tPath, Match(sd, td, "name"), sd, td, MatchSource, MatchTarget)
        case Success(ms) => Search(ms, renamed, st.raised)
        case Failure(e) => Search(grown, renamed, Some(e))
  }

  /** The `for q` loop: source declarator `sd` against the target declarators `tDecls` from `q` on. */
  function PairsFrom(
    st: Search<Match>, prev: seq<Match>, sd: Value, tDecls: seq<Value>, sr: seq<Entry>, targetReferences: seq<Chunk>, tPath: Path, q: nat)
    : Search<Match>
    decreases |tDecls| - q
  {
    if q >= |tDecls| || st.raised.Some? then st
    else PairsFrom(PairStep(st, prev, sd, tDecls[q], sr, targetReferences, tPath), prev, sd, tDecls, sr, targetReferences, tPath, q + 1)
  }

  /** The `for n` loop: source declarator `sd` against the target declarations `tNodes` from `n` on. */
  function TargetsFrom(
    st: Search<Match>, prev: seq<Match>, sd: Value, tNodes: seq<Value>, sr: seq<Entry>, targetReferences: seq<Chunk>, tPath: Path, n: nat)
    : Search<Match>
    decreases |tNodes| - n
  {
    if n >= |tNodes| || st.raised.Some? then st
    else
      var st' := PairsFrom(st, prev, sd, DeclaratorsOf(tNodes[n]), sr, targetReferences, tPath, 0);
      TargetsFrom(st', prev, sd, tNodes, sr, targetReferences, tPath, n + 1)
  }

  /**
   * The `for m` loop: the declarators `sDecls` of source declaration `k`
   * from `m` on; a declarator whose name the target declares is skipped
   * (condition 1b), any other is tried against target declarations `k` on.
   */
  function DeclaratorsFrom(
    st: Search<Match>, prev: seq<Match>, sDecls: seq<Value>, k: nat, tNodes: seq<Value>, targetVarNames: seq<Value>,
    sourceReferences: seq<Chunk>, targetReferences: seq<Chunk>, tPath: Path, m: nat)
    : Search<Match>
    decreases |sDecls| - m
  {
    if m >= |sDecls| || st.raised.Some? then st
    else
      var sd := sDecls[m];
      var st' :=
        if InValues(NameOf(sd), targetVarNames) then st
        else TargetsFrom(st, prev, sd, tNodes, RefsTo(Expand(sourceReferences), NameOf(sd)), targetReferences, tPath, k);
      DeclaratorsFrom(st', prev, sDecls, k, tNodes, targetVarNames, sourceReferences, targetReferences, tPath, m + 1)
  }

  /** The `for k` loop: the source declarations `sNodes` from `k` on against the target declarations `tNodes`. */
  function DeclarationsFrom(
    st: Search<Match>, prev: seq<Match>, sNodes: seq<Value>, tNodes: seq<Value>, targetVarNames: seq<Value>,
    sourceReferences: seq<Chunk>, targetReferences: seq<Chunk>, tPath: Path, k: nat)
    : Search<Match>
    decreases |sNodes| - k
  {
    if k >= |sNodes| || st.raised.Some? then st
    else
      var st' := DeclaratorsFrom(st, prev, DeclaratorsOf(sNodes[k]), k, tNodes, targetVarNames, sourceReferences, targetReferences, tPath, 0);
      DeclarationsFrom(st', prev, sNodes, tNodes, targetVarNames, sourceReferences, targetReferences, tPath, k + 1)
  }

  /**
   * The `for j` loop: source chunk `sc` against the target chunks `tcs` from
   * `j` on; a pair of chunks is looked into only when their paths are equal
   * under the hypotheses already recorded at either path (condition 1a).
   */
  function ChunkPairsFrom(
    st: Search<Match>, sc: Chunk, tcs: seq<Chunk>, targetVarNames: seq<Value>,
    sourceReferences: seq<Chunk>, targetReferences: seq<Chunk>, j: nat)
    : Search<Match>
    decreases |tcs| - j
  {
    if j >= |tcs| || st.raised.Some? then st
    else
      var prev := PrevMatchesHere(st.matches, sc.path, tcs[j].path);
      var st' :=
        if AstPathsEqual(sc.path, tcs[j].path, prev)
        then DeclarationsFrom(st, prev, sc.nodes, tcs[j].nodes, targetVarNames, sourceReferences, targetReferences, tcs[j].path, 0)
        else st;
      ChunkPairsFrom(st', sc, tcs, targetVarNames, sourceReferences, targetReferences, j + 1)
  }

  /** The `for i` loop: source chunks `scs` from `i` on, each against the target chunks from `i` on. */
  function ChunksFrom(
    st: Search<Match>, scs: seq<Chunk>, tcs: seq<Chunk>, targetVarNames: seq<Value>,
    sourceReferences: seq<Chunk>, targetReferences: seq<Chunk>, i: nat)
    : Search<Match>
    decreases |scs| - i
  {
    if i >= |scs| || st.raised.Some? then st
    else
      var st' := ChunkPairsFrom(st, scs[i], tcs, targetVarNames, sourceReferences, targetReferences, i);
      ChunksFrom(st', scs, tcs, targetVarNames, sourceReferences, targetReferences, i + 1)
  }

  /** What `get_renamed_variables` returns for the chunked declarations and references of two trees. */
  function Detected(scs: seq<Chunk>, tcs: seq<Chunk>, sourceReferences: seq<Chunk>, targetReferences: seq<Chunk>): Outcome
  {
    var st := ChunksFrom(Search([], [], None), scs, tcs, NodesNames(NodesOf(Expand(tcs))), sourceReferences, targetReferences, 0);
    if st.raised.Some? then Conflict(st.raised.value) else Renamed(st.renamed)
  }

  /**
   * One candidate pair, as `PairStep` describes it: a rename is recorded
   * only for an admitted pair, the entries stay well grouped and gain no
   * other rename, and a raise names one of the two declarators.
   */
  method TryPair(
    st: Search<Match>, prev: seq<Match>, sd: Value, td: Value,
    sr: seq<Entry>, sourceReferences: seq<Chunk>, targetReferences: seq<Chunk>, tPath: Path)
    returns (st': Search<Match>)
    requires sr == RefsTo(Expand(sourceReferences), NameOf(sd))
    requires st.raised.None?
    ensures st' == PairStep(st, prev, sd, td, sr, targetReferences, tPath)
    ensures WellGrouped(st.renamed) ==> WellGrouped(st'.renamed)
    ensures AllRenames(st'.renamed) <= AllRenames(st.renamed) + {Rename(NameOf(sd), NameOf(td))}
    ensures st'.renamed != st.renamed ==> Admitted(prev, sd, td, sr, RefsTo(Expand(targetReferences), NameOf(td)))
    ensures st'.raised.Some? ==>
      || (st'.raised.value.DuplicateDeclaratorInSource? && PyEq(st'.raised.value.node, sd))
      || (st'.raised.value.DuplicateDeclaratorInTarget? && PyEq(st'.raised.value.node, td))
  {
    var declaratorMatch := Match(sd, td, "name");
    if !AstNodesEqual(sd, td, true, prev + [declaratorMatch]) {
      return st;
    }
    var same := HaveSameReferences(NameOf(sd), NameOf(td), sourceReferences, targetReferences, prev);
    if !same {
      return st;
    }
    var tr := RefsTo(Expand(targetReferences), NameOf(td));
    var matches := st.matches;
    for i := 0 to |sr|
      invariant RefMatches(matches, sr, tr, i) == RefMatches(st.matches, sr, tr, 0)
    {
      matches := AppendToSamePath(matches, tr[i].path, Match(sr[i].node, tr[i].node, "name"));
    }
    var renamed, skipped := RecordRename(st.renamed, tPath, Rename(NameOf(sd), NameOf(td)));
    if skipped {
      return Search(matches, st.renamed, None);
    }
    var recorded := RecordDeclaratorMatch(matches, tPath, declaratorMatch, sd, td, MatchSource, MatchTarget);
    if recorded.Failure? {
      return Search(matches, renamed, Some(recorded.error));
    }
    return Search(recorded.value, renamed, None);
  }

  /** Each declarator of the declarations `ns` has its name among `names`. */
  predicate Declares(ns: seq<Value>, names: seq<Value>)
  {
    forall n, q :: 0 <= n < |ns| && 0 <= q < |DeclaratorsOf(ns[n])| ==> InValues(NameOf(DeclaratorsOf(ns[n])[q]), names)
  }

  /**
   * The `for q` loop for one source declarator `sd` that the target does
   * not declare and the declarators `tDecls` of one target declaration: it
   * computes `PairsFrom`, and keeps the renames well grouped and drawn from
   * source-only names to target names.
   */
  method TryDeclarators(
    st: Search<Match>, prev: seq<Match>, sd: Value, tDecls: seq<Value>, sr: seq<Entry>,
    sourceReferences: seq<Chunk>, targetReferences: seq<Chunk>, tPath: Path,
    ghost sourceNames: seq<Value>, ghost targetNames: seq<Value>)
    returns (st': Search<Match>)
    requires sr == RefsTo(Expand(sourceReferences), NameOf(sd))
    requires st.raised.None?
    requires forall q :: 0 <= q < |tDecls| ==> InValues(NameOf(tDecls[q]), targetNames)
    requires InValues(NameOf(sd), sourceNames) && !InValues(NameOf(sd), targetNames)
    requires Found(st.renamed, sourceNames, targetNames, false)
    ensures st' == PairsFrom(st, prev, sd, tDecls, sr, targetReferences, tPath, 0)
    ensures Found(st'.renamed, sourceNames, targetNames, false)
  {
    st' := st;
    for q := 0 to |tDecls|
      invariant st'.raised.None?
      invariant PairsFrom(st', prev, sd, tDecls, sr, targetReferences, tPath, q) == PairsFrom(st, prev, sd, tDecls, sr, targetReferences, tPath, 0)
      invariant Found(st'.renamed, sourceNames, targetNames, false)
    {
      var td := tDecls[q];
      ghost var before := st'.renamed;
      st' := TryPair(st', prev, sd, td, sr, sourceReferences, targetReferences, tPath);
      NamesStayFrom(before, st'.renamed, Rename(NameOf(sd), NameOf(td)), sourceNames, targetNames);
      if st'.raised.Some? {
        return;
      }
    }
  }

  /**
   * The `for n` loop for one source declarator `sd` that the target does not
   * declare: it computes `TargetsFrom`, and keeps the renames well grouped
   * and drawn from source-only names to target names.
   */
  method TryTargets(
    st: Search<Match>, prev: seq<Match>, sd: Value, tNodes: seq<Value>, k: nat, sr: seq<Entry>,
    sourceReferences: seq<Chunk>, targetReferences: seq<Chunk>, tPath: Path,
    ghost sourceNames: seq<Value>, ghost targetNames: seq<Value>)
    returns (st': Search<Match>)
    requires sr == RefsTo(Expand(sourceReferences), NameOf(sd))
    requires st.raised.None?
    requires Declares(tNodes, targetNames)
    requires InValues(NameOf(sd), sourceNames) && !InValues(NameOf(sd), targetNames)
    requires Found(st.renamed, sourceNames, targetNames, false)
    ensures st' == TargetsFrom(st, prev, sd, tNodes, sr, targetReferences, tPath, k)
    ensures Found(st'.renamed, sourceNames, targetNames, false)
  {
    st' := st;
    if k >= |tNodes| {
      return;
    }
    for n := k to |tNodes|
      invariant st'.raised.None?
      invariant TargetsFrom(st', prev, sd, tNodes, sr, targetReferences, tPath, n) == TargetsFrom(st, prev, sd, tNodes, sr, targetReferences, tPath, k)
      invariant Found(st'.renamed, sourceNames, targetNames, false)
    {
      st' := TryTarget(st', prev, sd, tNodes, n, sr, sourceReferences, targetReferences, tPath, sourceNames, targetNames);
      if st'.raised.Some? {
        return;
      }
    }
  }

  /**
   * One pass of the `for n` loop: source declarator `sd` against the
   * declarators of target declaration `n`, which advances `TargetsFrom` by
   * one declaration and keeps what `Found` says of the renames.
   */
  method TryTarget(
    st: Search<Match>, prev: seq<Match>, sd: Value, tNodes: seq<Value>, n: nat, sr: seq<Entry>,
    sourceReferences: seq<Chunk>, targetReferences: seq<Chunk>, tPath: Path,
    ghost sourceNames: seq<Value>, ghost targetNames: seq<Value>)
    returns (st': Search<Match>)
    requires sr == RefsTo(Expand(sourceReferences), NameOf(sd))
    requires st.raised.None? && n < |tNodes|
    requires Declares(tNodes, targetNames)
    requires InValues(NameOf(sd), sourceNames) && !InValues(NameOf(sd), targetNames)
    requires Found(st.renamed, sourceNames, targetNames, false)
    ensures TargetsFrom(st', prev, sd, tNodes, sr, targetReferences, tPath, n + 1) == TargetsFrom(st, prev, sd, tNodes, sr, targetReferences, tPath, n)
    ensures Found(st'.renamed, sourceNames, targetNames, false)
  {
    var tDecls := DeclaratorsOf(tNodes[n]);
    assert forall q :: 0 <= q < |tDecls| ==> InValues(NameOf(tDecls[q]), targetNames);
    st' := TryDeclarators(st, prev, sd, tDecls, sr, sourceReferences, targetReferences, tPath, sourceNames, targetNames);
  }

  /**
   * The `for k` and `for m` loops for one pair of chunks whose paths are
   * equal: they compute `DeclarationsFrom`, and keep what `Found` says of
   * the renames.
   */
  method MatchDeclarations(
    st: Search<Match>, prev: seq<Match>, sNodes: seq<Value>, tNodes: seq<Value>, targetVarNames: seq<Value>,
    sourceReferences: seq<Chunk>, targetReferences: seq<Chunk>, tPath: Path,
    ghost sourceNames: seq<Value>, ghost covered: bool)
    returns (st': Search<Match>)
    requires st.raised.None?
    requires Declares(sNodes, sourceNames) && Declares(tNodes, targetVarNames)
    requires covered == Covered(sourceNames, targetVarNames)
    requires Found(st.renamed, sourceNames, targetVarNames, covered)
    ensures st' == DeclarationsFrom(st, prev, sNodes, tNodes, targetVarNames, sourceReferences, targetReferences, tPath, 0)
    ensures Found(st'.renamed, sourceNames, targetVarNames, covered)
    ensures st'.raised.Some? ==> !covered
  {
    st' := st;
    for k := 0 to |sNodes|
      invariant st'.raised.None?
      invariant DeclarationsFrom(st', prev, sNodes, tNodes, targetVarNames, sourceReferences, targetReferences, tPath, k)
        == DeclarationsFrom(st, prev, sNodes, tNodes, targetVarNames, sourceReferences, targetReferences, tPath, 0)
      invariant Found(st'.renamed, sourceNames, targetVarNames, covered)
    {
      var sDecls := DeclaratorsOf(sNodes[k]);
      ghost var entry := st';
      for m := 0 to |sDecls|
        invariant st'.raised.None?
        invariant DeclaratorsFrom(st', prev, sDecls, k, tNodes, targetVarNames, sourceReferences, targetReferences, tPath, m)
          == DeclaratorsFrom(entry, prev, sDecls, k, tNodes, targetVarNames, sourceReferences, targetReferences, tPath, 0)
        invariant Found(st'.renamed, sourceNames, targetVarNames, covered)
      {
        var sd := sDecls[m];
        if !InValues(NameOf(sd), targetVarNames) {
          assert InValues(NameOf(DeclaratorsOf(sNodes[k])[m]), sourceNames);
          NotCovered(sourceNames, targetVarNames, NameOf(sd));
          var sr := RefsTo(Expand(sourceReferences), NameOf(sd));
          st' := TryTargets(st', prev, sd, tNodes, k, sr, sourceReferences, targetReferences, tPath, sourceNames, targetVarNames);
          if st'.raised.Some? {
            return;
          }
        }
      }
    }
  }

  /**
   * `get_renamed_variables`, with the two parsed trees as input (`None`
   * for code that does not parse). It returns `Detected`; the renames are
   * grouped by the target declaration path, every old name is a declarator
   * name of the old code that the new code does not declare, every new name
   * is one the new code declares, and no old or new name repeats within an
   * entry. When the new code declares every name the old code declares, and
   * in particular when both are the same tree, nothing is renamed.
   */
  method GetRenamedVariables(source: Option<Value>, target: Option<Value>) returns (r: Outcome)
    ensures r.SyntaxError? <==> source.None? || target.None?
    ensures source.Some? && target.Some? ==>
      r == Detected(
        Group(FilterAstNode(source.value, VariableDeclaration)), Group(FilterAstNode(target.value, VariableDeclaration)),
        Group(FilterAstNode(source.value, MemberReference)), Group(FilterAstNode(target.value, MemberReference)))
    ensures r.Renamed? ==>
      WellGrouped(r.entries) && NamesFrom(r.entries, DeclNames(source.value), DeclNames(target.value))
    ensures source.Some? && target.Some? && Covered(DeclNames(source.value), DeclNames(target.value)) ==>
      r == Renamed([])
    ensures source.Some? && source == target ==> r == Renamed([])
  {
    if source.None? || target.None? {
      return SyntaxError;
    }
    var sourceDeclarations := ChunkByPath(FilterAstNode(source.value, VariableDeclaration));
    var targetDeclarations := ChunkByPath(FilterAstNode(target.value, VariableDeclaration));
    var targetVarNames := NodesNames(NodesOf(Expand(targetDeclarations)));
    var sourceReferences := ChunkByPath(FilterAstNode(source.value, MemberReference));
    var targetReferences := ChunkByPath(FilterAstNode(target.value, MemberReference));

    if source == target {
      EveryValueIn(targetVarNames);
    }
    r := MatchChunks(sourceDeclarations, targetDeclarations, targetVarNames, sourceReferences, targetReferences);
  }

  /**
   * The `for i` and `for j` loops of `get_renamed_variables`, over the
   * chunked declarations and references of both trees: target chunk `j` is
   * tried from source chunk `i` on. The result is `Detected`, never a syntax
   * error, well grouped, with every old name a source name the target does
   * not declare and every new name a target name; when the target declares
   * every source name, nothing is renamed.
   */
  method MatchChunks(
    sourceDeclarations: seq<Chunk>, targetDeclarations: seq<Chunk>, targetVarNames: seq<Value>,
    sourceReferences: seq<Chunk>, targetReferences: seq<Chunk>)
    returns (r: Outcome)
    requires targetVarNames == NodesNames(NodesOf(Expand(targetDeclarations)))
    ensures r == Detected(sourceDeclarations, targetDeclarations, sourceReferences, targetReferences)
    ensures !r.SyntaxError?
    ensures r.Renamed? ==>
      WellGrouped(r.entries) && NamesFrom(r.entries, NodesNames(NodesOf(Expand(sourceDeclarations))), targetVarNames)
    ensures Covered(NodesNames(NodesOf(Expand(sourceDeclarations))), targetVarNames) ==> r == Renamed([])
  {
    ghost var sourceNames := NodesNames(NodesOf(Expand(sourceDeclarations)));
    ghost var covered := Covered(sourceNames, targetVarNames);
    var st: Search<Match> := Search([], [], None);
    ghost var start := st;
    for i := 0 to |sourceDeclarations|
      invariant st.raised.None?
      invariant ChunksFrom(st, sourceDeclarations, targetDeclarations, targetVarNames, sourceReferences, targetReferences, i)
        == ChunksFrom(start, sourceDeclarations, targetDeclarations, targetVarNames, sourceReferences, targetReferences, 0)
      invariant Found(st.renamed, sourceNames, targetVarNames, covered)
    {
      ChunkDeclares(sourceDeclarations, i);
      st := MatchSourceChunk(st, sourceDeclarations[i], targetDeclarations, i, targetVarNames, sourceReferences, targetReferences, sourceNames, covered);
      if st.raised.Some? {
        return Conflict(st.raised.value);
      }
    }
    return Renamed(st.renamed);
  }

  /** The `while j` loop: source chunk `sc` against the target chunks from `j0` on. */
  method MatchSourceChunk(
    st: Search<Match>, sc: Chunk, targetDeclarations: seq<Chunk>, j0: nat, targetVarNames: seq<Value>,
    sourceReferences: seq<Chunk>, targetReferences: seq<Chunk>,
    ghost sourceNames: seq<Value>, ghost covered: bool)
    returns (st': Search<Match>)
    requires st.raised.None?
    requires targetVarNames == NodesNames(NodesOf(Expand(targetDeclarations)))
    requires Declares(sc.nodes, sourceNames)
    requires covered == Covered(sourceNames, targetVarNames)
    requires Found(st.renamed, sourceNames, targetVarNames, covered)
    ensures st' == ChunkPairsFrom(st, sc, targetDeclarations, targetVarNames, sourceReferences, targetReferences, j0)
    ensures Found(st'.renamed, sourceNames, targetVarNames, covered)
    ensures st'.raised.Some? ==> !covered
  {
    st' := st;
    var j := j0;
    while j < |targetDeclarations| && st'.raised.None?
      invariant j0 <= j
      invariant ChunkPairsFrom(st', sc, targetDeclarations, targetVarNames, sourceReferences, targetReferences, j)
        == ChunkPairsFrom(st, sc, targetDeclarations, targetVarNames, sourceReferences, targetReferences, j0)
      invariant Found(st'.renamed, sourceNames, targetVarNames, covered)
      invariant st'.raised.Some? ==> !covered
      decreases |targetDeclarations| - j
    {
      st' := MatchChunkPair(st', sc, targetDeclarations, j, targetVarNames, sourceReferences, targetReferences, sourceNames, covered);
      j := j + 1;
    }
  }

  /** One pass of the `while j` loop: source chunk `sc` against target chunk `j` when their paths agree. */
  method MatchChunkPair(
    st: Search<Match>, sc: Chunk, targetDeclarations: seq<Chunk>, j: nat, targetVarNames: seq<Value>,
    sourceReferences: seq<Chunk>, targetReferences: seq<Chunk>,
    ghost sourceNames: seq<Value>, ghost covered: bool)
    returns (st': Search<Match>)
    requires st.raised.None? && j < |targetDeclarations|
    requires targetVarNames == NodesNames(NodesOf(Expand(targetDeclarations)))
    requires Declares(sc.nodes, sourceNames)
    requires covered == Covered(sourceNames, targetVarNames)
    requires Found(st.renamed, sourceNames, targetVarNames, covered)
    ensures ChunkPairsFrom(st', sc, targetDeclarations, targetVarNames, sourceReferences, targetReferences, j + 1)
      == ChunkPairsFrom(st, sc, targetDeclarations, targetVarNames, sourceReferences, targetReferences, j)
    ensures Found(st'.renamed, sourceNames, targetVarNames, covered)
    ensures st'.raised.Some? ==> !covered
  {
    var tc := targetDeclarations[j];
    var prev := PrevMatchesHere(st.matches, sc.path, tc.path);
    st' := st;
    if AstPathsEqual(sc.path, tc.path, prev) {
      ChunkDeclares(targetDeclarations, j);
      st' := MatchDeclarations(st, prev, sc.nodes, tc.nodes, targetVarNames, sourceReferences, targetReferences, tc.path, sourceNames, covered);
    }
  }

  /** The declarators of chunk `i` all have their names among the chunks' names. */
  lemma ChunkDeclares(cs: seq<Chunk>, i: int)
    requires 0 <= i < |cs|
    ensures Declares(cs[i].nodes, NodesNames(NodesOf(Expand(cs))))
  {
    forall k, m | 0 <= k < |cs[i].nodes| && 0 <= m < |DeclaratorsOf(cs[i].nodes[k])|
      ensures InValues(NameOf(DeclaratorsOf(cs[i].nodes[k])[m]), NodesNames(NodesOf(Expand(cs))))
    {
      DeclaredName(cs, i, k, m);
    }
  }

  /** Each declarator of a chunked declaration contributes its name to the name list. */
  lemma DeclaredName(cs: seq<Chunk>, i: int, k: int, m: int)
    requires 0 <= i < |cs| && 0 <= k < |cs[i].nodes| && 0 <= m < |DeclaratorsOf(cs[i].nodes[k])|
    ensures InValues(NameOf(DeclaratorsOf(cs[i].nodes[k])[m]), NodesNames(NodesOf(Expand(cs))))
  {
    ChunkNodeListed(cs, i, k);
    var ns := NodesOf(Expand(cs));
    var at :| 0 <= at < |ns| && ns[at] == cs[i].nodes[k];
    NameListed(ns, at, m);
    InValuesOfMember(NameOf(DeclaratorsOf(cs[i].nodes[k])[m]), NodesNames(ns));
  }

  /** One declaration of one declarator on each side: the declarations loop comes down to one candidate pair. */
  lemma OneDeclaratorEach(
    st: Search<Match>, prev: seq<Match>, sn: Value, tn: Value, sd: Value, td: Value, targetVarNames: seq<Value>,
    sourceReferences: seq<Chunk>, targetReferences: seq<Chunk>, tPath: Path)
    requires DeclaratorsOf(sn) == [sd] && DeclaratorsOf(tn) == [td]
    requires !InValues(NameOf(sd), targetVarNames)
    requires st.raised.None?
    ensures DeclarationsFrom(st, prev, [sn], [tn], targetVarNames, sourceReferences, targetReferences, tPath, 0)
      == PairStep(st, prev, sd, td, RefsTo(Expand(sourceReferences), NameOf(sd)), targetReferences, tPath)
  {
    var sr := RefsTo(Expand(sourceReferences), NameOf(sd));
    var after := PairStep(st, prev, sd, td, sr, targetReferences, tPath);
    assert PairsFrom(after, prev, sd, [td], sr, targetReferences, tPath, 1) == after;
    assert PairsFrom(st, prev, sd, [td], sr, targetReferences, tPath, 0) == after;
    assert TargetsFrom(after, prev, sd, [tn], sr, targetReferences, tPath, 1) == after;
    assert TargetsFrom(st, prev, sd, [tn], sr, targetReferences, tPath, 0) == after;
    assert DeclaratorsFrom(after, prev, [sd], 0, [tn], targetVarNames, sourceReferences, targetReferences, tPath, 1) == after;
    assert DeclaratorsFrom(st, prev, [sd], 0, [tn], targetVarNames, sourceReferences, targetReferences, tPath, 0) == after;
    assert DeclarationsFrom(after, prev, [sn], [tn], targetVarNames, sourceReferences, targetReferences, tPath, 1) == after;
  }

  /**
   * A candidate pair that is equal except for `name`, with no references,
   * at a target path where nothing has been recorded yet: the rename opens
   * a new entry and the declarator pair a new hypothesis entry.
   */
  lemma FreshRename(st: Search<Match>, prev: seq<Match>, sd: Value, td: Value, targetReferences: seq<Chunk>, tPath: Path)
    requires st.raised.None?
    requires AstNodesEqual(sd, td, true, prev + [Match(sd, td, "name")])
    requires RefsTo(Expand(targetReferences), NameOf(td)) == []
    requires forall k :: 0 <= k < |st.renamed| ==> !SamePath(st.renamed[k].path, tPath)
    requires forall k :: 0 <= k < |st.matches| ==> !SamePath(st.matches[k].path, tPath)
    ensures PairStep(st, prev, sd, td, [], targetReferences, tPath) ==
      Search(WithHyp(st.matches, tPath, Match(sd, td, "name")), st.renamed + [RenameEntry(tPath, [Rename(NameOf(sd), NameOf(td))])], None)
  {
    assert Admitted(prev, sd, td, [], []);
    assert RefMatches(st.matches, [], [], 0) == st.matches;
    assert FirstAt(st.renamed, tPath) == |st.renamed|;
    assert FirstReuse(st.matches, tPath, MatchSource, MatchTarget, sd, td) == |st.matches|;
  }

  /** The names a target chunk of one declaration of one declarator declares. */
  lemma OneChunkNames(path: Path, tn: Value, td: Value)
    requires DeclaratorsOf(tn) == [td]
    ensures NodesNames(NodesOf(Expand([Chunk(path, [tn])]))) == [NameOf(td)]
  {
    var cs := [Chunk(path, [tn])];
    assert cs[..0] == [];
    assert Spread(cs[0]) == [Entry(path, tn)];
    assert Expand(cs) == [Entry(path, tn)];
    assert NodesOf(Expand(cs)) == [tn];
    OneDeclarationNames(tn, td);
  }

  /** The names two target chunks of one declaration of one declarator each declare. */
  lemma TwoChunkNames(q0: Path, q1: Path, tn0: Value, tn1: Value, td0: Value, td1: Value)
    requires DeclaratorsOf(tn0) == [td0] && DeclaratorsOf(tn1) == [td1]
    ensures NodesNames(NodesOf(Expand([Chunk(q0, [tn0]), Chunk(q1, [tn1])]))) == [NameOf(td0), NameOf(td1)]
  {
    var cs := [Chunk(q0, [tn0]), Chunk(q1, [tn1])];
    assert cs[..1] == [cs[0]] && cs[..1][..0] == [];
    assert Spread(cs[0]) == [Entry(q0, tn0)];
    assert Expand(cs[..1]) == [Entry(q0, tn0)];
    assert Spread(cs[1]) == [Entry(q1, tn1)];
    assert Expand(cs) == [Entry(q0, tn0), Entry(q1, tn1)];
    assert NodesOf(Expand(cs)) == [tn0, tn1];
    TwoDeclarationNames(tn0, tn1, td0, td1);
  }

  /**
   * `int x;` against `int y;`: one declaration chunk on each side at paths
   * that compare equal, one declarator each, equal except for `name`, the
   * old name not declared by the target, and no references. The detector
   * renames `x` to `y` at the target declaration path.
   */
  lemma SingleDeclarationRenamed(
    sPath: Path, tPath: Path, sn: Value, tn: Value, sd: Value, td: Value, sourceReferences: seq<Chunk>, targetReferences: seq<Chunk>)
    requires DeclaratorsOf(sn) == [sd] && DeclaratorsOf(tn) == [td]
    requires !PyEq(NameOf(td), NameOf(sd))
    requires AstPathsEqual(sPath, tPath, [])
    requires AstNodesEqual(sd, td, true, [Match(sd, td, "name")])
    requires RefsTo(Expand(sourceReferences), NameOf(sd)) == [] && RefsTo(Expand(targetReferences), NameOf(td)) == []
    ensures Detected([Chunk(sPath, [sn])], [Chunk(tPath, [tn])], sourceReferences, targetReferences)
      == Renamed([RenameEntry(tPath, [Rename(NameOf(sd), NameOf(td))])])
  {
    var scs, tcs := [Chunk(sPath, [sn])], [Chunk(tPath, [tn])];
    var names := NodesNames(NodesOf(Expand(tcs)));
    OneChunkNames(tPath, tn, td);
    var start := Search([], [], None);
    assert [] + [Match(sd, td, "name")] == [Match(sd, td, "name")];
    OneDeclaratorEach(start, [], sn, tn, sd, td, names, sourceReferences, targetReferences, tPath);
    FreshRename(start, [], sd, td, targetReferences, tPath);
    var found := PairStep(start, [], sd, td, [], targetReferences, tPath);
    assert ChunkPairsFrom(found, scs[0], tcs, names, sourceReferences, targetReferences, 1) == found;
    assert ChunkPairsFrom(start, scs[0], tcs, names, sourceReferences, targetReferences, 0) == found;
    assert ChunksFrom(found, scs, tcs, names, sourceReferences, targetReferences, 1) == found;
  }


  /** The then-branch source declaration pairs with the then-branch target one only. */
  lemma ThenBranchPaired(
    p0: Path, q0: Path, q1: Path, sn0: Value, tn0: Value, tn1: Value, sd0: Value, td0: Value,
    names: seq<Value>, sourceReferences: seq<Chunk>, targetReferences: seq<Chunk>)
    requires DeclaratorsOf(sn0) == [sd0] && DeclaratorsOf(tn0) == [td0]
    requires !InValues(NameOf(sd0), names)
    requires AstPathsEqual(p0, q0, []) && !AstPathsEqual(p0, q1, [])
    requires AstNodesEqual(sd0, td0, true, [Match(sd0, td0, "name")])
    requires RefsTo(Expand(sourceReferences), NameOf(sd0)) == [] && RefsTo(Expand(targetReferences), NameOf(td0)) == []
    ensures ChunkPairsFrom(Search([], [], None), Chunk(p0, [sn0]), [Chunk(q0, [tn0]), Chunk(q1, [tn1])], names, sourceReferences, targetReferences, 0)
      == Search([HypEntry(q0, [Match(sd0, td0, "name")])], [RenameEntry(q0, [Rename(NameOf(sd0), NameOf(td0))])], None)
  {
    var tcs := [Chunk(q0, [tn0]), Chunk(q1, [tn1])];
    var start := Search([], [], None);
    var m0 := Match(sd0, td0, "name");
    assert [] + [m0] == [m0];
    OneDeclaratorEach(start, [], sn0, tn0, sd0, td0, names, sourceReferences, targetReferences, q0);
    FreshRename(start, [], sd0, td0, targetReferences, q0);
    var one := PairStep(start, [], sd0, td0, [], targetReferences, q0);
    assert one == Search([HypEntry(q0, [m0])], [RenameEntry(q0, [Rename(NameOf(sd0), NameOf(td0))])], None);
    PathsCompareShapes(p0, q1, PrevMatchesHere(one.matches, p0, q1));
    assert ChunkPairsFrom(one, Chunk(p0, [sn0]), tcs, names, sourceReferences, targetReferences, 1) == one;
  }

  /** The else-branch source declaration, tried from the else-branch target on, pairs with it at a path with nothing recorded. */
  lemma ElseBranchPaired(
    p1: Path, q0: Path, q1: Path, sn1: Value, tn0: Value, tn1: Value, sd1: Value, td1: Value,
    one: Search<Match>, names: seq<Value>, sourceReferences: seq<Chunk>, targetReferences: seq<Chunk>)
    requires DeclaratorsOf(sn1) == [sd1] && DeclaratorsOf(tn1) == [td1]
    requires !InValues(NameOf(sd1), names)
    requires AstPathsEqual(p1, q1, []) && !SamePath(q0, p1) && !SamePath(q0, q1)
    requires AstNodesEqual(sd1, td1, true, [Match(sd1, td1, "name")])
    requires RefsTo(Expand(sourceReferences), NameOf(sd1)) == [] && RefsTo(Expand(targetReferences), NameOf(td1)) == []
    requires one.raised.None? && |one.matches| == 1 && one.matches[0].path == q0 && |one.renamed| == 1 && one.renamed[0].path == q0
    ensures ChunkPairsFrom(one, Chunk(p1, [sn1]), [Chunk(q0, [tn0]), Chunk(q1, [tn1])], names, sourceReferences, targetReferences, 1)
      == Search(WithHyp(one.matches, q1, Match(sd1, td1, "name")), one.renamed + [RenameEntry(q1, [Rename(NameOf(sd1), NameOf(td1))])], None)
  {
    var tcs := [Chunk(q0, [tn0]), Chunk(q1, [tn1])];
    var m1 := Match(sd1, td1, "name");
    assert [] + [m1] == [m1];
    assert PrevMatchesHere(one.matches, p1, q1) == [];
    OneDeclaratorEach(one, [], sn1, tn1, sd1, td1, names, sourceReferences, targetReferences, q1);
    FreshRename(one, [], sd1, td1, targetReferences, q1);
    var two := PairStep(one, [], sd1, td1, [], targetReferences, q1);
    assert ChunkPairsFrom(two, Chunk(p1, [sn1]), tcs, names, sourceReferences, targetReferences, 2) == two;
  }

  /**
   * `if (true) { int x; } else { int x; }` against the same with `y`: the
   * then-branch declarations (paths `p0`, `q0`) and the else-branch ones
   * (`p1`, `q1`) each pair up, while `p0` and `q1` differ in the branch
   * attribute and never compare equal; the hypotheses recorded at `q0` do
   * not reach the else-branch paths. The detector renames `x` to `y` once
   * at each target path.
   */
  lemma BranchesRenamed(
    p0: Path, p1: Path, q0: Path, q1: Path, sn0: Value, sn1: Value, tn0: Value, tn1: Value,
    sd0: Value, sd1: Value, td0: Value, td1: Value, x: Value, y: Value,
    sourceReferences: seq<Chunk>, targetReferences: seq<Chunk>)
    requires DeclaratorsOf(sn0) == [sd0] && DeclaratorsOf(sn1) == [sd1] && DeclaratorsOf(tn0) == [td0] && DeclaratorsOf(tn1) == [td1]
    requires NameOf(sd0) == x && NameOf(sd1) == x && NameOf(td0) == y && NameOf(td1) == y && !PyEq(y, x)
    requires AstPathsEqual(p0, q0, []) && AstPathsEqual(p1, q1, []) && !AstPathsEqual(p0, q1, [])
    requires !SamePath(q0, p1) && !SamePath(q0, q1)
    requires AstNodesEqual(sd0, td0, true, [Match(sd0, td0, "name")]) && AstNodesEqual(sd1, td1, true, [Match(sd1, td1, "name")])
    requires RefsTo(Expand(sourceReferences), x) == [] && RefsTo(Expand(targetReferences), y) == []
    ensures Detected([Chunk(p0, [sn0]), Chunk(p1, [sn1])], [Chunk(q0, [tn0]), Chunk(q1, [tn1])], sourceReferences, targetReferences)
      == Renamed([RenameEntry(q0, [Rename(x, y)]), RenameEntry(q1, [Rename(x, y)])])
  {
    var scs, tcs := [Chunk(p0, [sn0]), Chunk(p1, [sn1])], [Chunk(q0, [tn0]), Chunk(q1, [tn1])];
    var names := NodesNames(NodesOf(Expand(tcs)));
    TwoChunkNames(q0, q1, tn0, tn1, td0, td1);
    assert !InValues(x, names);
    ThenBranchPaired(p0, q0, q1, sn0, tn0, tn1, sd0, td0, names, sourceReferences, targetReferences);
    var one := Search([HypEntry(q0, [Match(sd0, td0, "name")])], [RenameEntry(q0, [Rename(x, y)])], None);
    ElseBranchPaired(p1, q0, q1, sn1, tn0, tn1, sd1, td1, one, names, sourceReferences, targetReferences);
    var two := ChunkPairsFrom(one, scs[1], tcs, names, sourceReferences, targetReferences, 1);
    assert two.renamed == [RenameEntry(q0, [Rename(x, y)]), RenameEntry(q1, [Rename(x, y)])] && two.raised.None?;
    assert ChunksFrom(two, scs, tcs, names, sourceReferences, targetReferences, 2) == two;
    assert ChunksFrom(one, scs, tcs, names, sourceReferences, targetReferences, 1) == two;
  }

}
