/**
 * The older rename detector: every source declaration is tried against
 * every target declaration, without chunking; hypotheses are node pairs
 * that compare equal outright, and a second rename of a name at the same
 * path raises instead of being skipped.
 */
module LegacyRenameMatcher {
  import opened Wrappers
  import opened JavaAst
  import opened LegacyAstEquality
  import opened AstIndex
  import opened Renames

  /** `[(old, new) for path, v in matches for old, new in v if path == tp]` */
  function PrevPairsAt(ms: seq<HypEntry<Pair>>, tp: Path): (r: seq<Pair>)
    ensures forall k :: 0 <= k < |ms| && SamePath(ms[k].path, tp) ==> forall h :: h in ms[k].hyps ==> h in r
    ensures forall h :: h in r ==> exists k :: 0 <= k < |ms| && SamePath(ms[k].path, tp) && h in ms[k].hyps
  {
    if ms == [] then []
    else
      var rest := PrevPairsAt(ms[1..], tp);
      assert forall k :: 1 <= k < |ms| ==> ms[k] == ms[1..][k - 1];
      (if SamePath(ms[0].path, tp) then ms[0].hyps else []) + rest
  }

  /**
   * The reference lists have the same length and each positional pair of
   * reference paths is equal, the pair itself counting as equal.
   */
  predicate SameReferences(sr: seq<Entry>, tr: seq<Entry>, ms: seq<Pair>)
  {
    |sr| == |tr| && forall i :: 0 <= i < |sr| ==> ReferencePathsEqual(sr[i], tr[i], ms)
  }

  /** `ast_paths_equal(source_ref_path, target_ref_path, matches=ms + [(source_ref_node, target_ref_node)])` */
  predicate ReferencePathsEqual(s: Entry, t: Entry, ms: seq<Pair>)
  {
    AstPathsEqual(s.path, t.path, ms + [Pair(s.node, t.node)])
  }

  /** The source side of a hypothesis. */
  function PairSource(p: Pair): Value
  {
    p.a
  }

  /** The target side of a hypothesis. */
  function PairTarget(p: Pair): Value
  {
    p.b
  }

  /**
   * `matches` after the reference pairs `(sr[i], tr[i])` from `i` on have
   * been recorded at the target reference paths, up to the first pair whose
   * paths differ: the pairs before it stay recorded.
   */
  function RefPairs(ms: seq<HypEntry<Pair>>, sr: seq<Entry>, tr: seq<Entry>, hyps: seq<Pair>, i: nat): seq<HypEntry<Pair>>
    requires |sr| == |tr|
    decreases |sr| - i
  {
    if i >= |sr| || !ReferencePathsEqual(sr[i], tr[i], hyps) then ms
    else RefPairs(WithHyp(ms, tr[i].path, Pair(sr[i].node, tr[i].node)), sr, tr, hyps, i + 1)
  }

  /** Conditions 1c: equal initializers and references that correspond, under `hyps`. */
  predicate Admitted(hyps: seq<Pair>, sd: Value, td: Value, sr: seq<Entry>, tr: seq<Entry>)
  {
    AstNodesEqual(Get(sd, "initializer"), Get(td, "initializer"), true, hyps) && SameReferences(sr, tr, hyps)
  }

  /**
   * One `(source_declarator, target_declarator)` candidate of the older
   * detector, the body of the innermost loop. The initializers must be
   * equal under the hypotheses at this path plus the pair of declarations,
   * and the reference lists must have one length; then each reference pair
   * whose paths are equal is recorded before the next is tried, so a
   * mismatch part way leaves the earlier pairs recorded. A pair whose
   * references all correspond records the rename, raising on a repeated old
   * or new name at the path, and then the declarator pair, raising if either
   * declarator was already matched there.
   */
  function PairStep(
    st: Search<Pair>, prev: seq<Pair>, sn: Value, tn: Value, sd: Value, td: Value,
    sr: seq<Entry>, targetReferences: seq<Entry>, tPath: Path)
    : Search<Pair>
  {
    var hyps := prev + [Pair(sn, tn)];
    var tr := RefsTo(targetReferences, NameOf(td));
    if !AstNodesEqual(Get(sd, "initializer"), Get(td, "initializer"), true, hyps) || |sr| != |tr| then st
    else
      var grown := RefPairs(st.matches, sr, tr, hyps, 0);
      if !SameReferences(sr, tr, hyps) then Search(grown, st.renamed, st.raised)
      else PairRecorded(grown, st.renamed, st.raised, sd, td, tPath)
  }

  /**
   * An admitted pair records the rename at the target declaration path,
   * raising on a repeated old or new name there, and then the declarator
   * pair, raising if either declarator was already matched there.
   */
  function PairRecorded(
    matches: seq<HypEntry<Pair>>, renamed: seq<RenameEntry>, raised: Option<ConflictKind>, sd: Value, td: Value, tPath: Path)
    : Search<Pair>
  {
    match WithRename(renamed, tPath, Rename(NameOf(sd), NameOf(td)))
    case Failure(e) => Search(matches, renamed, Some(e))
    case Success(renamed') =>
      match DeclaratorRecorded(matches, tPath, Pair(sd, td), sd, td, PairSource, PairTarget)
      case Success(ms) => Search(ms, renamed', raised)
      case Failure(e) => Search(matches, renamed', Some(e))
  }

  /** The `for target_declarator` loop: source declarator `sd` against the target declarators `tDecls` from `q` on. */
  function PairsFrom(
    st: Search<Pair>, prev: seq<Pair>, sn: Value, tn: Value, sd: Value, tDecls: seq<Value>,
    sr: seq<Entry>, targetReferences: seq<Entry>, tPath: Path, q: nat)
    : Search<Pair>
    decreases |tDecls| - q
  {
    if q >= |tDecls| || st.raised.Some? then st
    else PairsFrom(PairStep(st, prev, sn, tn, sd, tDecls[q], sr, targetReferences, tPath), prev, sn, tn, sd, tDecls, sr, targetReferences, tPath, q + 1)
  }

  /**
   * The `for source_declarator` loop: the declarators `sDecls` of `sn` from
   * `m` on; a declarator whose name the target declares is skipped
   * (condition 1b), any other is tried against the declarators `tDecls` of
   * `tn`.
   */
  function DeclaratorsFrom(
    st: Search<Pair>, prev: seq<Pair>, sn: Value, tn: Value, sDecls: seq<Value>, tDecls: seq<Value>, targetVarNames: seq<Value>,
    sourceReferences: seq<Entry>, targetReferences: seq<Entry>, tPath: Path, m: nat)
    : Search<Pair>
    decreases |sDecls| - m
  {
    if m >= |sDecls| || st.raised.Some? then st
    else
      var sd := sDecls[m];
      var st' :=
        if InValues(NameOf(sd), targetVarNames) then st
        else PairsFrom(st, prev, sn, tn, sd, tDecls, RefsTo(sourceReferences, NameOf(sd)), targetReferences, tPath, 0);
      DeclaratorsFrom(st', prev, sn, tn, sDecls, tDecls, targetVarNames, sourceReferences, targetReferences, tPath, m + 1)
  }

  /**
   * The `for target_path, target_node` loop: source declaration `se`
   * against the target declarations `tes` from `j` on; a pair is looked into
   * only when the paths are equal under the hypotheses recorded at the
   * target path plus the pair itself (condition 1a).
   */
  function TargetsFrom(
    st: Search<Pair>, se: Entry, tes: seq<Entry>, targetVarNames: seq<Value>,
    sourceReferences: seq<Entry>, targetReferences: seq<Entry>, j: nat)
    : Search<Pair>
    decreases |tes| - j
  {
    if j >= |tes| || st.raised.Some? then st
    else
      var prev := PrevPairsAt(st.matches, tes[j].path);
      var st' :=
        if AstPathsEqual(se.path, tes[j].path, prev + [Pair(se.node, tes[j].node)])
        then
          DeclaratorsFrom(
            st, prev, se.node, tes[j].node, DeclaratorsOf(se.node), DeclaratorsOf(tes[j].node), targetVarNames,
            sourceReferences, targetReferences, tes[j].path, 0)
        else st;
      TargetsFrom(st', se, tes, targetVarNames, sourceReferences, targetReferences, j + 1)
  }

  /** The `for source_path, source_node` loop: source declarations `ses` from `i` on, each against every target declaration. */
  function SourcesFrom(
    st: Search<Pair>, ses: seq<Entry>, tes: seq<Entry>, targetVarNames: seq<Value>,
    sourceReferences: seq<Entry>, targetReferences: seq<Entry>, i: nat)
    : Search<Pair>
    decreases |ses| - i
  {
    if i >= |ses| || st.raised.Some? then st
    else
      var st' := TargetsFrom(st, ses[i], tes, targetVarNames, sourceReferences, targetReferences, 0);
      SourcesFrom(st', ses, tes, targetVarNames, sourceReferences, targetReferences, i + 1)
  }

  /** What the older `get_renamed_variables` returns for the declarations and references of two trees. */
  function Detected(ses: seq<Entry>, tes: seq<Entry>, sourceReferences: seq<Entry>, targetReferences: seq<Entry>): Outcome
  {
    var st := SourcesFrom(Search([], [], None), ses, tes, NodesNames(NodesOf(tes)), sourceReferences, targetReferences, 0);
    if st.raised.Some? then Conflict(st.raised.value) else Renamed(st.renamed)
  }

  /**
   * What one candidate pair does: a rename is recorded or raised only for an
   * admitted pair, the entries stay well grouped and gain no other rename,
   * and a raise names one of the two names or declarators.
   */
  lemma PairStepKeeps(
    st: Search<Pair>, prev: seq<Pair>, sn: Value, tn: Value, sd: Value, td: Value,
    sr: seq<Entry>, targetReferences: seq<Entry>, tPath: Path)
    requires st.raised.None?
    ensures var st' := PairStep(st, prev, sn, tn, sd, td, sr, targetReferences, tPath);
      && (WellGrouped(st.renamed) ==> WellGrouped(st'.renamed))
      && AllRenames(st'.renamed) <= AllRenames(st.renamed) + {Rename(NameOf(sd), NameOf(td))}
      && (st'.renamed != st.renamed || st'.raised.Some? ==>
        Admitted(prev + [Pair(sn, tn)], sd, td, sr, RefsTo(targetReferences, NameOf(td))))
      && (st'.raised.Some? ==> RaisedFor(st'.raised.value, sd, td))
  {
    var hyps := prev + [Pair(sn, tn)];
    var tr := RefsTo(targetReferences, NameOf(td));
    if AstNodesEqual(Get(sd, "initializer"), Get(td, "initializer"), true, hyps) && |sr| == |tr| && SameReferences(sr, tr, hyps) {
      PairRecordedKeeps(RefPairs(st.matches, sr, tr, hyps, 0), st.renamed, sd, td, tPath);
    }
  }

  /** A conflict about the names or the declarators of the pair `(sd, td)`. */
  predicate RaisedFor(e: ConflictKind, sd: Value, td: Value)
  {
    || (e.DuplicateNameInSource? && PyEq(e.name, NameOf(sd)))
    || (e.DuplicateNameInTarget? && PyEq(e.name, NameOf(td)))
    || (e.DuplicateDeclaratorInSource? && PyEq(e.node, sd))
    || (e.DuplicateDeclaratorInTarget? && PyEq(e.node, td))
  }

  /**
   * Recording an admitted pair keeps the entries well grouped, adds no
   * rename but this one, and raises only about its names or declarators.
   */
  lemma PairRecordedKeeps(matches: seq<HypEntry<Pair>>, renamed: seq<RenameEntry>, sd: Value, td: Value, tPath: Path)
    ensures var st' := PairRecorded(matches, renamed, None, sd, td, tPath);
      && (WellGrouped(renamed) ==> WellGrouped(st'.renamed))
      && AllRenames(st'.renamed) <= AllRenames(renamed) + {Rename(NameOf(sd), NameOf(td))}
      && (st'.raised.Some? ==> RaisedFor(st'.raised.value, sd, td))
  {
  }

  /** One candidate pair: the body of the innermost loop computes `PairStep`. */
  method TryPair(
    st: Search<Pair>, prev: seq<Pair>, sn: Value, tn: Value, sd: Value, td: Value,
    sr: seq<Entry>, sourceReferences: seq<Entry>, targetReferences: seq<Entry>, tPath: Path)
    returns (st': Search<Pair>)
    requires sr == RefsTo(sourceReferences, NameOf(sd))
    requires st.raised.None?
    ensures st' == PairStep(st, prev, sn, tn, sd, td, sr, targetReferences, tPath)
  {
    var hyps := prev + [Pair(sn, tn)];
    var tr := RefsTo(targetReferences, NameOf(td));
    st' := st;
    if AstNodesEqual(Get(sd, "initializer"), Get(td, "initializer"), true, hyps) && |sr| == |tr| {
      var matches, same := RecordReferences(st.matches, sr, tr, hyps);
      if same {
        st' := RecordPair(matches, st.renamed, sd, td, tPath);
      } else {
        st' := Search(matches, st.renamed, None);
      }
    }
  }

  /** The recording half of one candidate pair computes `PairRecorded`. */
  method RecordPair(matches: seq<HypEntry<Pair>>, renamed: seq<RenameEntry>, sd: Value, td: Value, tPath: Path)
    returns (st': Search<Pair>)
    ensures st' == PairRecorded(matches, renamed, None, sd, td, tPath)
  {
    var named := RecordRenameOrRaise(renamed, tPath, Rename(NameOf(sd), NameOf(td)));
    if named.Failure? {
      return Search(matches, renamed, Some(named.error));
    }
    var recorded := RecordDeclaratorMatch(matches, tPath, Pair(sd, td), sd, td, PairSource, PairTarget);
    if recorded.Failure? {
      return Search(matches, named.value, Some(recorded.error));
    }
    return Search(recorded.value, named.value, None);
  }

  /**
   * The `for i in range(len(sr))` loop: reference pairs are recorded one by
   * one until a pair whose paths differ, and the result says whether every
   * pair's paths were equal.
   */
  method RecordReferences(ms: seq<HypEntry<Pair>>, sr: seq<Entry>, tr: seq<Entry>, hyps: seq<Pair>)
    returns (ms': seq<HypEntry<Pair>>, same: bool)
    requires |sr| == |tr|
    ensures ms' == RefPairs(ms, sr, tr, hyps, 0)
    ensures same <==> SameReferences(sr, tr, hyps)
  {
    ms' := ms;
    for i := 0 to |sr|
      invariant RefPairs(ms', sr, tr, hyps, i) == RefPairs(ms, sr, tr, hyps, 0)
      invariant forall k :: 0 <= k < i ==> ReferencePathsEqual(sr[k], tr[k], hyps)
    {
      if !ReferencePathsEqual(sr[i], tr[i], hyps) {
        return ms', false;
      }
      ms' := AppendToSamePath(ms', tr[i].path, Pair(sr[i].node, tr[i].node));
    }
    return ms', true;
  }

  /** Each declarator of declaration `n` has its name among `names`. */
  predicate NamesAmong(n: Value, names: seq<Value>)
  {
    forall m :: 0 <= m < |DeclaratorsOf(n)| ==> InValues(NameOf(DeclaratorsOf(n)[m]), names)
  }

  /**
   * The `for target_declarator` loop for one source declarator `sd` that
   * the target does not declare: it computes `PairsFrom`, and keeps the
   * renames well grouped and drawn from source-only names to target names.
   */
  method TryDeclarators(
    st: Search<Pair>, prev: seq<Pair>, sn: Value, tn: Value, sd: Value, tDecls: seq<Value>, sr: seq<Entry>,
    sourceReferences: seq<Entry>, targetReferences: seq<Entry>, tPath: Path,
    ghost sourceNames: seq<Value>, ghost targetNames: seq<Value>)
    returns (st': Search<Pair>)
    requires sr == RefsTo(sourceReferences, NameOf(sd))
    requires st.raised.None?
    requires forall q :: 0 <= q < |tDecls| ==> InValues(NameOf(tDecls[q]), targetNames)
    requires InValues(NameOf(sd), sourceNames) && !InValues(NameOf(sd), targetNames)
    requires Found(st.renamed, sourceNames, targetNames, false)
    ensures st' == PairsFrom(st, prev, sn, tn, sd, tDecls, sr, targetReferences, tPath, 0)
    ensures Found(st'.renamed, sourceNames, targetNames, false)
  {
    st' := st;
    for q := 0 to |tDecls|
      invariant st'.raised.None?
      invariant PairsFrom(st', prev, sn, tn, sd, tDecls, sr, targetReferences, tPath, q) == PairsFrom(st, prev, sn, tn, sd, tDecls, sr, targetReferences, tPath, 0)
      invariant Found(st'.renamed, sourceNames, targetNames, false)
    {
      var td := tDecls[q];
      ghost var before := st'.renamed;
      PairStepKeeps(st', prev, sn, tn, sd, td, sr, targetReferences, tPath);
      st' := TryPair(st', prev, sn, tn, sd, td, sr, sourceReferences, targetReferences, tPath);
      NamesStayFrom(before, st'.renamed, Rename(NameOf(sd), NameOf(td)), sourceNames, targetNames);
      if st'.raised.Some? {
        return;
      }
    }
  }

  /**
   * One pass of the `for source_declarator` loop: declarator `m` of `sn` is
   * skipped when the target declares its name and otherwise tried against
   * the declarators of `tn`, which advances `DeclaratorsFrom` by one
   * declarator; what `Found` says of the renames is kept, and nothing raises
   * when the target declares every source name.
   */
  method TryDeclarator(
    st: Search<Pair>, prev: seq<Pair>, sn: Value, tn: Value, sDecls: seq<Value>, tDecls: seq<Value>, m: nat,
    targetVarNames: seq<Value>, sourceReferences: seq<Entry>, targetReferences: seq<Entry>, tPath: Path,
    ghost sourceNames: seq<Value>, ghost covered: bool)
    returns (st': Search<Pair>)
    requires st.raised.None? && m < |sDecls|
    requires InValues(NameOf(sDecls[m]), sourceNames)
    requires forall q :: 0 <= q < |tDecls| ==> InValues(NameOf(tDecls[q]), targetVarNames)
    requires covered == Covered(sourceNames, targetVarNames)
    requires Found(st.renamed, sourceNames, targetVarNames, covered)
    ensures DeclaratorsFrom(st', prev, sn, tn, sDecls, tDecls, targetVarNames, sourceReferences, targetReferences, tPath, m + 1)
      == DeclaratorsFrom(st, prev, sn, tn, sDecls, tDecls, targetVarNames, sourceReferences, targetReferences, tPath, m)
    ensures Found(st'.renamed, sourceNames, targetVarNames, covered)
    ensures st'.raised.Some? ==> !covered
  {
    var sd := sDecls[m];
    if InValues(NameOf(sd), targetVarNames) {
      return st;
    }
    NotCovered(sourceNames, targetVarNames, NameOf(sd));
    var sr := RefsTo(sourceReferences, NameOf(sd));
    st' := TryDeclarators(st, prev, sn, tn, sd, tDecls, sr, sourceReferences, targetReferences, tPath, sourceNames, targetVarNames);
  }

  /**
   * The `for source_declarator` loop for one pair of declarations whose
   * paths are equal: it computes `DeclaratorsFrom`, and keeps what `Found`
   * says of the renames; nothing raises when the target declares every
   * source name.
   */
  method MatchDeclarators(
    st: Search<Pair>, prev: seq<Pair>, sn: Value, tn: Value, sDecls: seq<Value>, tDecls: seq<Value>, targetVarNames: seq<Value>,
    sourceReferences: seq<Entry>, targetReferences: seq<Entry>, tPath: Path,
    ghost sourceNames: seq<Value>, ghost covered: bool)
    returns (st': Search<Pair>)
    requires st.raised.None?
    requires forall m :: 0 <= m < |sDecls| ==> InValues(NameOf(sDecls[m]), sourceNames)
    requires forall q :: 0 <= q < |tDecls| ==> InValues(NameOf(tDecls[q]), targetVarNames)
    requires covered == Covered(sourceNames, targetVarNames)
    requires Found(st.renamed, sourceNames, targetVarNames, covered)
    ensures st' == DeclaratorsFrom(st, prev, sn, tn, sDecls, tDecls, targetVarNames, sourceReferences, targetReferences, tPath, 0)
    ensures Found(st'.renamed, sourceNames, targetVarNames, covered)
    ensures st'.raised.Some? ==> !covered
  {
    st' := st;
    for m := 0 to |sDecls|
      invariant st'.raised.None?
      invariant DeclaratorsFrom(st', prev, sn, tn, sDecls, tDecls, targetVarNames, sourceReferences, targetReferences, tPath, m)
        == DeclaratorsFrom(st, prev, sn, tn, sDecls, tDecls, targetVarNames, sourceReferences, targetReferences, tPath, 0)
      invariant Found(st'.renamed, sourceNames, targetVarNames, covered)
    {
      st' := TryDeclarator(st', prev, sn, tn, sDecls, tDecls, m, targetVarNames, sourceReferences, targetReferences, tPath, sourceNames, covered);
      if st'.raised.Some? {
        return;
      }
    }
  }

  /**
   * The `for target_path, target_node` loop for one source declaration:
   * it computes `TargetsFrom` from the first target declaration, and keeps
   * what `Found` says of the renames.
   */
  method MatchTargets(
    st: Search<Pair>, se: Entry, tes: seq<Entry>, targetVarNames: seq<Value>,
    sourceReferences: seq<Entry>, targetReferences: seq<Entry>,
    ghost sourceNames: seq<Value>, ghost covered: bool)
    returns (st': Search<Pair>)
    requires st.raised.None?
    requires NamesAmong(se.node, sourceNames) && targetVarNames == NodesNames(NodesOf(tes))
    requires covered == Covered(sourceNames, targetVarNames)
    requires Found(st.renamed, sourceNames, targetVarNames, covered)
    ensures st' == TargetsFrom(st, se, tes, targetVarNames, sourceReferences, targetReferences, 0)
    ensures Found(st'.renamed, sourceNames, targetVarNames, covered)
    ensures st'.raised.Some? ==> !covered
  {
    st' := st;
    for j := 0 to |tes|
      invariant st'.raised.None?
      invariant TargetsFrom(st', se, tes, targetVarNames, sourceReferences, targetReferences, j)
        == TargetsFrom(st, se, tes, targetVarNames, sourceReferences, targetReferences, 0)
      invariant Found(st'.renamed, sourceNames, targetVarNames, covered)
    {
      var tPath, tn := tes[j].path, tes[j].node;
      var prev := PrevPairsAt(st'.matches, tPath);
      if AstPathsEqual(se.path, tPath, prev + [Pair(se.node, tn)]) {
        EntryDeclares(tes, j);
        st' := MatchDeclarators(st', prev, se.node, tn, DeclaratorsOf(se.node), DeclaratorsOf(tn), targetVarNames, sourceReferences, targetReferences, tPath, sourceNames, covered);
        if st'.raised.Some? {
          return;
        }
      }
    }
  }

  /**
   * The two outer loops of the older `get_renamed_variables`, over the
   * declarations and references of both trees: every source declaration
   * against every target declaration. The result is `Detected`, never a
   * syntax error, well grouped, with every old name a source name the target
   * does not declare and every new name a target name; when the target
   * declares every source name, nothing is renamed.
   */
  method MatchDeclarations(
    sourceDeclarations: seq<Entry>, targetDeclarations: seq<Entry>, targetVarNames: seq<Value>,
    sourceReferences: seq<Entry>, targetReferences: seq<Entry>)
    returns (r: Outcome)
    requires targetVarNames == NodesNames(NodesOf(targetDeclarations))
    ensures r == Detected(sourceDeclarations, targetDeclarations, sourceReferences, targetReferences)
    ensures !r.SyntaxError?
    ensures r.Renamed? ==>
      WellGrouped(r.entries) && NamesFrom(r.entries, NodesNames(NodesOf(sourceDeclarations)), targetVarNames)
    ensures Covered(NodesNames(NodesOf(sourceDeclarations)), targetVarNames) ==> r == Renamed([])
  {
    ghost var sourceNames := NodesNames(NodesOf(sourceDeclarations));
    ghost var covered := Covered(sourceNames, targetVarNames);
    var st: Search<Pair> := Search([], [], None);
    ghost var start := st;
    for i := 0 to |sourceDeclarations|
      invariant st.raised.None?
      invariant SourcesFrom(st, sourceDeclarations, targetDeclarations, targetVarNames, sourceReferences, targetReferences, i)
        == SourcesFrom(start, sourceDeclarations, targetDeclarations, targetVarNames, sourceReferences, targetReferences, 0)
      invariant Found(st.renamed, sourceNames, targetVarNames, covered)
    {
      EntryDeclares(sourceDeclarations, i);
      st := MatchTargets(st, sourceDeclarations[i], targetDeclarations, targetVarNames, sourceReferences, targetReferences, sourceNames, covered);
      if st.raised.Some? {
        return Conflict(st.raised.value);
      }
    }
    return Renamed(st.renamed);
  }

  /**
   * `get_renamed_variables` of the older detector, with the two parsed
   * trees as input (`None` for code that does not parse). It returns
   * `Detected`; the guarantees on the result match the newer detector's:
   * renames grouped by target declaration path, old names declared only in
   * the old code, new names declared in the new code, no repeats within an
   * entry, and nothing renamed when the new code declares every old name.
   */
  method GetRenamedVariables(source: Option<Value>, target: Option<Value>) returns (r: Outcome)
    ensures r.SyntaxError? <==> source.None? || target.None?
    ensures source.Some? && target.Some? ==>
      r == Detected(
        FilterAstNode(source.value, VariableDeclaration), FilterAstNode(target.value, VariableDeclaration),
        FilterAstNode(source.value, MemberReference), FilterAstNode(target.value, MemberReference))
    ensures r.Renamed? ==>
      WellGrouped(r.entries) && NamesFrom(r.entries, DeclNames(source.value), DeclNames(target.value))
    ensures source.Some? && target.Some? && Covered(DeclNames(source.value), DeclNames(target.value)) ==>
      r == Renamed([])
    ensures source.Some? && source == target ==> r == Renamed([])
  {
    if source.None? || target.None? {
      return SyntaxError;
    }
    var sourceDeclarations := FilterAstNode(source.value, VariableDeclaration);
    var targetDeclarations := FilterAstNode(target.value, VariableDeclaration);
    var targetVarNames := NodesNames(NodesOf(targetDeclarations));
    var sourceReferences := FilterAstNode(source.value, MemberReference);
    var targetReferences := FilterAstNode(target.value, MemberReference);
    if source == target {
      EveryValueIn(targetVarNames);
    }
    r := MatchDeclarations(sourceDeclarations, targetDeclarations, targetVarNames, sourceReferences, targetReferences);
  }

  /** The declarators of recorded declaration `i` all have their names among the records' names. */
  lemma EntryDeclares(es: seq<Entry>, i: int)
    requires 0 <= i < |es|
    ensures NamesAmong(es[i].node, NodesNames(NodesOf(es)))
  {
    forall m | 0 <= m < |DeclaratorsOf(es[i].node)|
      ensures InValues(NameOf(DeclaratorsOf(es[i].node)[m]), NodesNames(NodesOf(es)))
    {
      DeclaredName(es, i, m);
    }
  }

  /** Each declarator of a recorded declaration contributes its name to the name list. */
  lemma DeclaredName(es: seq<Entry>, i: int, m: int)
    requires 0 <= i < |es| && 0 <= m < |DeclaratorsOf(es[i].node)|
    ensures InValues(NameOf(DeclaratorsOf(es[i].node)[m]), NodesNames(NodesOf(es)))
  {
    NameListed(NodesOf(es), i, m);
    InValuesOfMember(NameOf(DeclaratorsOf(es[i].node)[m]), NodesNames(NodesOf(es)));
  }

  /** One declarator on each side: the declarators loop comes down to one candidate pair. */
  lemma OneDeclaratorEach(
    st: Search<Pair>, prev: seq<Pair>, sn: Value, tn: Value, sd: Value, td: Value, targetVarNames: seq<Value>,
    sourceReferences: seq<Entry>, targetReferences: seq<Entry>, tPath: Path)
    requires !InValues(NameOf(sd), targetVarNames)
    requires st.raised.None?
    ensures DeclaratorsFrom(st, prev, sn, tn, [sd], [td], targetVarNames, sourceReferences, targetReferences, tPath, 0)
      == PairStep(st, prev, sn, tn, sd, td, RefsTo(sourceReferences, NameOf(sd)), targetReferences, tPath)
  {
    var sr := RefsTo(sourceReferences, NameOf(sd));
    var after := PairStep(st, prev, sn, tn, sd, td, sr, targetReferences, tPath);
    assert PairsFrom(after, prev, sn, tn, sd, [td], sr, targetReferences, tPath, 1) == after;
    assert PairsFrom(st, prev, sn, tn, sd, [td], sr, targetReferences, tPath, 0) == after;
    assert DeclaratorsFrom(after, prev, sn, tn, [sd], [td], targetVarNames, sourceReferences, targetReferences, tPath, 1) == after;
  }

  /**
   * A candidate pair with equal initializers and no references, at a target
   * path where nothing has been recorded yet: the rename opens a new entry
   * and the declarator pair a new hypothesis entry.
   */
  lemma FreshRename(st: Search<Pair>, prev: seq<Pair>, sn: Value, tn: Value, sd: Value, td: Value, targetReferences: seq<Entry>, tPath: Path)
    requires st.raised.None?
    requires AstNodesEqual(Get(sd, "initializer"), Get(td, "initializer"), true, prev + [Pair(sn, tn)])
    requires RefsTo(targetReferences, NameOf(td)) == []
    requires forall k :: 0 <= k < |st.renamed| ==> !SamePath(st.renamed[k].path, tPath)
    requires forall k :: 0 <= k < |st.matches| ==> !SamePath(st.matches[k].path, tPath)
    ensures PairStep(st, prev, sn, tn, sd, td, [], targetReferences, tPath) ==
      Search(WithHyp(st.matches, tPath, Pair(sd, td)), st.renamed + [RenameEntry(tPath, [Rename(NameOf(sd), NameOf(td))])], None)
  {
    assert SameReferences([], [], prev + [Pair(sn, tn)]);
    assert RefPairs(st.matches, [], [], prev + [Pair(sn, tn)], 0) == st.matches;
    assert FirstAt(st.renamed, tPath) == |st.renamed|;
    assert FirstReuse(st.matches, tPath, PairSource, PairTarget, sd, td) == |st.matches|;
  }

  /** Two absent initializers are equal under any hypotheses. */
  lemma AbsentInitializers(ms: seq<Pair>)
    ensures AstNodesEqual(Nil, Nil, true, ms)
  {
    if !Paired(ms, Nil, Nil) {
      assert TypeOf(Nil) == TypeOf(Nil) && PyEq(Nil, Nil);
    }
  }

  /** Hypotheses that pair only nodes never make two different attribute names equal. */
  lemma AttributesApart(p: Path, q: Path, ms: seq<Pair>, at: nat)
    requires at < |p| && at < |q| && p[at].Str? && q[at].Str? && p[at] != q[at]
    requires forall k :: 0 <= k < |ms| ==> ms[k].a.Node? && ms[k].b.Node?
    ensures !AstPathsEqual(p, q, ms) && !SamePath(p, q)
  {
    assert !Paired(ms, p[at], q[at]);
    assert !SameShape(p[at], q[at]);
    PathsCompareShapes(p, q, ms);
  }

  /** Paths that compare equal without hypotheses stay equal with any. */
  lemma PathsStayEqual(p: Path, q: Path, ms: seq<Pair>)
    requires AstPathsEqual(p, q, [])
    ensures AstPathsEqual(p, q, ms)
  {
    PathsCompareShapes(p, q, []);
    PathsCompareShapes(p, q, ms);
  }

  /**
   * `int x;` against `int y;`: one declaration on each side at paths that
   * compare equal, one declarator each without an initializer, the old name
   * not declared by the target, and no references. The older detector
   * renames `x` to `y` at the target declaration path.
   */
  lemma SingleDeclarationRenamed(
    sPath: Path, tPath: Path, sn: Value, tn: Value, sd: Value, td: Value, sourceReferences: seq<Entry>, targetReferences: seq<Entry>)
    requires DeclaratorsOf(sn) == [sd] && DeclaratorsOf(tn) == [td]
    requires !PyEq(NameOf(td), NameOf(sd))
    requires AstPathsEqual(sPath, tPath, [])
    requires Get(sd, "initializer") == Nil && Get(td, "initializer") == Nil
    requires RefsTo(sourceReferences, NameOf(sd)) == [] && RefsTo(targetReferences, NameOf(td)) == []
    ensures Detected([Entry(sPath, sn)], [Entry(tPath, tn)], sourceReferences, targetReferences)
      == Renamed([RenameEntry(tPath, [Rename(NameOf(sd), NameOf(td))])])
  {
    var ses, tes := [Entry(sPath, sn)], [Entry(tPath, tn)];
    var names := NodesNames(NodesOf(tes));
    assert NodesOf(tes) == [tn];
    OneDeclarationNames(tn, td);
    assert tes == [Entry(tPath, tn)] + [];
    FirstTargetPaired(sPath, tPath, sn, tn, sd, td, [], names, sourceReferences, targetReferences);
    var found := PairFound(sd, td, tPath);
    assert TargetsFrom(found, ses[0], tes, names, sourceReferences, targetReferences, 1) == found;
    assert SourcesFrom(found, ses, tes, names, sourceReferences, targetReferences, 1) == found;
  }

  /**
   * A source declaration with one declarator, whose path equals that of the
   * first target declaration, pairs with it when nothing is recorded yet:
   * both initializers absent and no references, the rename goes to a fresh
   * entry at the target path.
   */
  lemma FirstTargetPaired(
    sPath: Path, tPath: Path, sn: Value, tn: Value, sd: Value, td: Value, rest: seq<Entry>,
    names: seq<Value>, sourceReferences: seq<Entry>, targetReferences: seq<Entry>)
    requires DeclaratorsOf(sn) == [sd] && DeclaratorsOf(tn) == [td]
    requires !InValues(NameOf(sd), names)
    requires AstPathsEqual(sPath, tPath, [])
    requires Get(sd, "initializer") == Nil && Get(td, "initializer") == Nil
    requires RefsTo(sourceReferences, NameOf(sd)) == [] && RefsTo(targetReferences, NameOf(td)) == []
    ensures TargetsFrom(Search([], [], None), Entry(sPath, sn), [Entry(tPath, tn)] + rest, names, sourceReferences, targetReferences, 0)
      == TargetsFrom(PairFound(sd, td, tPath), Entry(sPath, sn), [Entry(tPath, tn)] + rest, names, sourceReferences, targetReferences, 1)
  {
    var start := Search([], [], None);
    assert [] + [Pair(sn, tn)] == [Pair(sn, tn)];
    PathsStayEqual(sPath, tPath, [Pair(sn, tn)]);
    AbsentInitializers([Pair(sn, tn)]);
    OneDeclaratorEach(start, [], sn, tn, sd, td, names, sourceReferences, targetReferences, tPath);
    FreshRename(start, [], sn, tn, sd, td, targetReferences, tPath);
    assert PairStep(start, [], sn, tn, sd, td, [], targetReferences, tPath) == PairFound(sd, td, tPath);
  }

  /** What one declarator pair at a path with nothing recorded leaves behind. */
  function PairFound(sd0: Value, td0: Value, q0: Path): Search<Pair>
  {
    Search([HypEntry(q0, [Pair(sd0, td0)])], [RenameEntry(q0, [Rename(NameOf(sd0), NameOf(td0))])], None)
  }

  /** The then-branch source declaration pairs with the then-branch target one only. */
  lemma ThenBranchPaired(
    p0: Path, q0: Path, q1: Path, sn0: Value, tn0: Value, tn1: Value, sd0: Value, td0: Value, at: nat,
    names: seq<Value>, sourceReferences: seq<Entry>, targetReferences: seq<Entry>)
    requires DeclaratorsOf(sn0) == [sd0] && DeclaratorsOf(tn0) == [td0]
    requires sn0.Node? && tn1.Node?
    requires !InValues(NameOf(sd0), names)
    requires AstPathsEqual(p0, q0, [])
    requires at < |p0| && at < |q0| && at < |q1| && p0[at].Str? && q1[at].Str? && p0[at] != q1[at] && q0[at] == p0[at]
    requires Get(sd0, "initializer") == Nil && Get(td0, "initializer") == Nil
    requires RefsTo(sourceReferences, NameOf(sd0)) == [] && RefsTo(targetReferences, NameOf(td0)) == []
    ensures TargetsFrom(Search([], [], None), Entry(p0, sn0), [Entry(q0, tn0), Entry(q1, tn1)], names, sourceReferences, targetReferences, 0)
      == PairFound(sd0, td0, q0)
  {
    assert [Entry(q0, tn0), Entry(q1, tn1)] == [Entry(q0, tn0)] + [Entry(q1, tn1)];
    FirstTargetPaired(p0, q0, sn0, tn0, sd0, td0, [Entry(q1, tn1)], names, sourceReferences, targetReferences);
    ThenSecondTargetMissed(p0, q0, q1, sn0, tn0, tn1, sd0, td0, at, names, sourceReferences, targetReferences);
  }

  /**
   * Once the then-branch pair is recorded, the then-branch source declaration
   * does not pair with the else-branch target one: nothing is recorded at
   * `q1`, and the paths differ in the attribute at position `at`.
   */
  lemma ThenSecondTargetMissed(
    p0: Path, q0: Path, q1: Path, sn0: Value, tn0: Value, tn1: Value, sd0: Value, td0: Value, at: nat,
    names: seq<Value>, sourceReferences: seq<Entry>, targetReferences: seq<Entry>)
    requires sn0.Node? && tn1.Node?
    requires at < |p0| && at < |q0| && at < |q1| && p0[at].Str? && q1[at].Str? && p0[at] != q1[at] && q0[at] == p0[at]
    ensures var one := PairFound(sd0, td0, q0);
      TargetsFrom(one, Entry(p0, sn0), [Entry(q0, tn0), Entry(q1, tn1)], names, sourceReferences, targetReferences, 1) == one
  {
    var tes := [Entry(q0, tn0), Entry(q1, tn1)];
    var one := PairFound(sd0, td0, q0);
    AttributesApart(q0, q1, [], at);
    assert PrevPairsAt(one.matches, q1) == [];
    assert [] + [Pair(sn0, tn1)] == [Pair(sn0, tn1)];
    AttributesApart(p0, q1, [Pair(sn0, tn1)], at);
    assert TargetsFrom(one, Entry(p0, sn0), tes, names, sourceReferences, targetReferences, 2) == one;
  }

  /**
   * The else-branch source declaration is tried against both target
   * declarations: against the then-branch one it fails on the branch
   * attribute, though the then-branch pair is now a hypothesis; against the
   * else-branch one it pairs up at a path with nothing recorded.
   */
  lemma ElseBranchPaired(
    p1: Path, q0: Path, q1: Path, sn1: Value, tn0: Value, tn1: Value, sd0: Value, td0: Value, sd1: Value, td1: Value, at: nat,
    names: seq<Value>, sourceReferences: seq<Entry>, targetReferences: seq<Entry>)
    requires DeclaratorsOf(sn1) == [sd1] && DeclaratorsOf(tn1) == [td1]
    requires sn1.Node? && tn0.Node? && sd0.Node? && td0.Node?
    requires !InValues(NameOf(sd1), names)
    requires AstPathsEqual(p1, q1, [])
    requires at < |p1| && at < |q0| && at < |q1| && p1[at].Str? && q0[at].Str? && p1[at] != q0[at] && q1[at] == p1[at]
    requires Get(sd1, "initializer") == Nil && Get(td1, "initializer") == Nil
    requires RefsTo(sourceReferences, NameOf(sd1)) == [] && RefsTo(targetReferences, NameOf(td1)) == []
    ensures var one := PairFound(sd0, td0, q0);
      TargetsFrom(one, Entry(p1, sn1), [Entry(q0, tn0), Entry(q1, tn1)], names, sourceReferences, targetReferences, 0)
      == Search(WithHyp(one.matches, q1, Pair(sd1, td1)), one.renamed + [RenameEntry(q1, [Rename(NameOf(sd1), NameOf(td1))])], None)
  {
    var tes := [Entry(q0, tn0), Entry(q1, tn1)];
    var one := PairFound(sd0, td0, q0);
    assert PrevPairsAt(one.matches, q0) == [Pair(sd0, td0)] by {
      PyEqReflexive(List(q0));
    }
    AttributesApart(p1, q0, [Pair(sd0, td0), Pair(sn1, tn0)], at);
    assert [Pair(sd0, td0)] + [Pair(sn1, tn0)] == [Pair(sd0, td0), Pair(sn1, tn0)];
    AttributesApart(q0, q1, [], at);
    assert PrevPairsAt(one.matches, q1) == [];
    assert [] + [Pair(sn1, tn1)] == [Pair(sn1, tn1)];
    PathsStayEqual(p1, q1, [Pair(sn1, tn1)]);
    AbsentInitializers([Pair(sn1, tn1)]);
    OneDeclaratorEach(one, [], sn1, tn1, sd1, td1, names, sourceReferences, targetReferences, q1);
    FreshRename(one, [], sn1, tn1, sd1, td1, targetReferences, q1);
    var two := PairStep(one, [], sn1, tn1, sd1, td1, [], targetReferences, q1);
    assert TargetsFrom(two, Entry(p1, sn1), tes, names, sourceReferences, targetReferences, 2) == two;
    assert TargetsFrom(one, Entry(p1, sn1), tes, names, sourceReferences, targetReferences, 1) == two;
  }

  /**
   * `if (true) { int x; } else { int x; }` against the same with `y`: the
   * then-branch declarations (paths `p0`, `q0`) and the else-branch ones
   * (`p1`, `q1`) each pair up, while at position `at` the then-branch paths
   * hold one attribute name and the else-branch paths another, so no
   * hypothesis makes a then-branch path equal to an else-branch one. The
   * older detector renames `x` to `y` once at each target path.
   */
  lemma BranchesRenamed(
    p0: Path, p1: Path, q0: Path, q1: Path, sn0: Value, sn1: Value, tn0: Value, tn1: Value,
    sd0: Value, sd1: Value, td0: Value, td1: Value, x: Value, y: Value, at: nat,
    sourceReferences: seq<Entry>, targetReferences: seq<Entry>)
    requires DeclaratorsOf(sn0) == [sd0] && DeclaratorsOf(sn1) == [sd1] && DeclaratorsOf(tn0) == [td0] && DeclaratorsOf(tn1) == [td1]
    requires sn0.Node? && sn1.Node? && tn0.Node? && tn1.Node? && sd0.Node? && td0.Node?
    requires NameOf(sd0) == x && NameOf(sd1) == x && NameOf(td0) == y && NameOf(td1) == y && !PyEq(y, x)
    requires AstPathsEqual(p0, q0, []) && AstPathsEqual(p1, q1, [])
    requires at < |p0| && at < |p1| && at < |q0| && at < |q1|
    requires p0[at].Str? && p1[at].Str? && p0[at] != p1[at] && q0[at] == p0[at] && q1[at] == p1[at]
    requires Get(sd0, "initializer") == Nil && Get(td0, "initializer") == Nil
    requires Get(sd1, "initializer") == Nil && Get(td1, "initializer") == Nil
    requires RefsTo(sourceReferences, x) == [] && RefsTo(targetReferences, y) == []
    ensures Detected([Entry(p0, sn0), Entry(p1, sn1)], [Entry(q0, tn0), Entry(q1, tn1)], sourceReferences, targetReferences)
      == Renamed([RenameEntry(q0, [Rename(x, y)]), RenameEntry(q1, [Rename(x, y)])])
  {
    var ses, tes := [Entry(p0, sn0), Entry(p1, sn1)], [Entry(q0, tn0), Entry(q1, tn1)];
    var names := NodesNames(NodesOf(tes));
    assert NodesOf(tes) == [tn0, tn1];
    TwoDeclarationNames(tn0, tn1, td0, td1);
    assert !InValues(x, names);
    ThenBranchPaired(p0, q0, q1, sn0, tn0, tn1, sd0, td0, at, names, sourceReferences, targetReferences);
    var one := PairFound(sd0, td0, q0);
    ElseBranchPaired(p1, q0, q1, sn1, tn0, tn1, sd0, td0, sd1, td1, at, names, sourceReferences, targetReferences);
    var two := TargetsFrom(one, ses[1], tes, names, sourceReferences, targetReferences, 0);
    assert two.renamed == [RenameEntry(q0, [Rename(x, y)]), RenameEntry(q1, [Rename(x, y)])] && two.raised.None?;
    assert SourcesFrom(two, ses, tes, names, sourceReferences, targetReferences, 2) == two;
    assert SourcesFrom(one, ses, tes, names, sourceReferences, targetReferences, 1) == two;
  }
}
