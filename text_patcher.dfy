/**
 * Undoing renames in source text: every identifier token whose text is a
 * new name is overwritten, at its recorded line and column, by the old
 * name. Columns are those of the original text and are not re-based after
 * an edit, so when the old and new names differ in length, later tokens on
 * the same line are patched at shifted positions.
 */
module TextPatcher {
  import opened Wrappers
  import opened JavaAst
  import opened PyStr
  import opened Renames

  /** A token as the tokenizer reports it, with its 1-based `(line, col)` position. */
  datatype Token = Token(isIdentifier: bool, value: string, line: int, col: int)

  /** The tokenizer's positions lie on lines of the text, at columns from 1. */
  predicate Positioned(tokens: seq<Token>, lines: seq<string>)
  {
    forall k :: 0 <= k < |tokens| ==> 1 <= tokens[k].line <= |lines| && 1 <= tokens[k].col
  }

  /** Old and new names are strings, as the detectors produce them. */
  predicate AllStrings(es: seq<RenameEntry>)
  {
    forall i, k :: 0 <= i < |es| && 0 <= k < |es[i].renames| ==>
      es[i].renames[k].source.Str? && es[i].renames[k].target.Str?
  }

  predicate StringRenames(rs: seq<Rename>)
  {
    forall k :: 0 <= k < |rs| ==> rs[k].source.Str? && rs[k].target.Str?
  }

  /** `line[:col] + old_name + line[col + len(new_name):]` */
  function Edit(line: string, col: nat, oldName: string, newName: string): string
  {
    Take(line, col) + oldName + Drop(line, col + |newName|)
  }

  /**
   * The edits for token `t` from the renames `rs`, in order. Names are
   * strings wherever the patcher is used; a rename between other values
   * edits nothing here.
   */
  function ApplyRenames(lines: seq<string>, t: Token, rs: seq<Rename>): (r: seq<string>)
    requires 1 <= t.line <= |lines| && 1 <= t.col
    ensures |r| == |lines|
  {
    if rs == [] then lines
    else
      var prev := ApplyRenames(lines, t, rs[..|rs| - 1]);
      var rn := rs[|rs| - 1];
      if rn.source.Str? && rn.target.Str? && t.value == rn.target.s then prev[t.line - 1 := Edit(prev[t.line - 1], t.col - 1, rn.source.s, rn.target.s)]
      else prev
  }

  /** The edits for token `t` from every entry, in order. */
  function ApplyEntries(lines: seq<string>, t: Token, es: seq<RenameEntry>): (r: seq<string>)
    requires 1 <= t.line <= |lines| && 1 <= t.col
    ensures |r| == |lines|
  {
    if es == [] then lines
    else ApplyRenames(ApplyEntries(lines, t, es[..|es| - 1]), t, es[|es| - 1].renames)
  }

  /** The edits for every identifier token, in order. */
  function ApplyTokens(lines: seq<string>, ts: seq<Token>, es: seq<RenameEntry>): (r: seq<string>)
    requires Positioned(ts, lines)
    ensures |r| == |lines|
  {
    if ts == [] then lines
    else
      var prev := ApplyTokens(lines, ts[..|ts| - 1], es);
      var t := ts[|ts| - 1];
      if t.isIdentifier then ApplyEntries(prev, t, es) else prev
  }

  /** The text `undo_variable_renames` returns. */
  function Undone(code: string, ts: seq<Token>, es: seq<RenameEntry>): string
    requires Positioned(ts, Split(code, '\n'))
  {
    Join(ApplyTokens(Split(code, '\n'), ts, es), '\n')
  }

  /**
   * `undo_variable_renames`, with the tokens of `code` as input: the lines
   * are patched in place, token by token, entry by entry, rename by rename.
   */
  method UndoVariableRenames(code: string, tokens: seq<Token>, renamed: seq<RenameEntry>) returns (r: string)
    requires Positioned(tokens, Split(code, '\n'))
    requires AllStrings(renamed)
    ensures r == Undone(code, tokens, renamed)
  {
    var split := Split(code, '\n');
    var lines := new string[|split|](i requires 0 <= i < |split| => split[i]);
    for i := 0 to |tokens|
      invariant lines[..] == ApplyTokens(split, tokens[..i], renamed)
    {
      var token := tokens[i];
      assert tokens[..i + 1][..i] == tokens[..i];
      if token.isIdentifier {
        PatchToken(lines, token, renamed);
      }
    }
    assert tokens[..|tokens|] == tokens;
    r := Join(lines[..], '\n');
  }

  /** The edits for one identifier token, entry by entry. */
  method PatchToken(lines: array<string>, token: Token, renamed: seq<RenameEntry>)
    requires 1 <= token.line <= lines.Length && 1 <= token.col && AllStrings(renamed)
    modifies lines
    ensures lines[..] == ApplyEntries(old(lines[..]), token, renamed)
  {
    ghost var before := lines[..];
    for p := 0 to |renamed|
      invariant lines[..] == ApplyEntries(before, token, renamed[..p])
    {
      assert renamed[..p + 1][..p] == renamed[..p];
      PatchRenames(lines, token, renamed[p].renames);
    }
    assert renamed[..|renamed|] == renamed;
  }

  /** The edits for one identifier token from the renames of one entry. */
  method PatchRenames(lines: array<string>, token: Token, mappings: seq<Rename>)
    requires 1 <= token.line <= lines.Length && 1 <= token.col && StringRenames(mappings)
    modifies lines
    ensures lines[..] == ApplyRenames(old(lines[..]), token, mappings)
  {
    ghost var here := lines[..];
    for q := 0 to |mappings|
      invariant lines[..] == ApplyRenames(here, token, mappings[..q])
    {
      RenamesStep(here, token, mappings, q);
      assert mappings[q].source.Str? && mappings[q].target.Str?;
      if token.value == mappings[q].target.s {
        var line, col := token.line - 1, token.col - 1;
        ghost var prev := lines[..];
        lines[line] := Take(lines[line], col) + mappings[q].source.s + Drop(lines[line], col + |mappings[q].target.s|);
        assert lines[..] == prev[line := Edit(prev[line], col, mappings[q].source.s, mappings[q].target.s)];
      }
    }
    assert mappings[..|mappings|] == mappings;
  }

  /** One more rename of the fold edits the token's line exactly when the token is the new name. */
  lemma RenamesStep(lines: seq<string>, t: Token, rs: seq<Rename>, q: int)
    requires 1 <= t.line <= |lines| && 1 <= t.col && 0 <= q < |rs|
    ensures var prev := ApplyRenames(lines, t, rs[..q]);
      ApplyRenames(lines, t, rs[..q + 1]) ==
        if rs[q].source.Str? && rs[q].target.Str? && t.value == rs[q].target.s then prev[t.line - 1 := Edit(prev[t.line - 1], t.col - 1, rs[q].source.s, rs[q].target.s)]
        else prev
  {
    var s := rs[..q + 1];
    assert s[..|s| - 1] == rs[..q] && s[|s| - 1] == rs[q];
  }

  /** Some entry renames a variable to `v`. */
  predicate NewName(v: string, es: seq<RenameEntry>)
  {
    exists i, k :: 0 <= i < |es| && 0 <= k < |es[i].renames| && es[i].renames[k].target == Str(v)
  }

  lemma {:induction false} RenamesWithoutMatchKeepLines(lines: seq<string>, t: Token, rs: seq<Rename>)
    requires 1 <= t.line <= |lines| && 1 <= t.col
    requires forall k :: 0 <= k < |rs| ==> rs[k].target != Str(t.value)
    ensures ApplyRenames(lines, t, rs) == lines
  {
    if rs != [] {
      RenamesWithoutMatchKeepLines(lines, t, rs[..|rs| - 1]);
    }
  }

  lemma {:induction false} EntriesWithoutMatchKeepLines(lines: seq<string>, t: Token, es: seq<RenameEntry>)
    requires 1 <= t.line <= |lines| && 1 <= t.col
    requires !NewName(t.value, es)
    ensures ApplyEntries(lines, t, es) == lines
  {
    if es != [] {
      var init, last := es[..|es| - 1], es[|es| - 1];
      forall i, k | 0 <= i < |init| && 0 <= k < |init[i].renames|
        ensures init[i].renames[k].target != Str(t.value)
      {
        assert init[i] == es[i];
      }
      EntriesWithoutMatchKeepLines(lines, t, init);
      forall k | 0 <= k < |last.renames|
        ensures last.renames[k].target != Str(t.value)
      {
        assert last == es[|es| - 1];
      }
      RenamesWithoutMatchKeepLines(lines, t, last.renames);
    }
  }

  /** Lines no identifier token names a new name in are returned unchanged. */
  lemma {:induction false} NoMatchKeepsLines(lines: seq<string>, ts: seq<Token>, es: seq<RenameEntry>)
    requires Positioned(ts, lines)
    requires forall k :: 0 <= k < |ts| && ts[k].isIdentifier ==> !NewName(ts[k].value, es)
    ensures ApplyTokens(lines, ts, es) == lines
  {
    if ts != [] {
      NoMatchKeepsLines(lines, ts[..|ts| - 1], es);
      var t := ts[|ts| - 1];
      if t.isIdentifier {
        EntriesWithoutMatchKeepLines(lines, t, es);
      }
    }
  }

  /**
   * When no identifier token is a new name, in particular for an empty
   * mapping, the text is returned unchanged.
   */
  lemma NoMatchKeepsText(code: string, ts: seq<Token>, es: seq<RenameEntry>)
    requires Positioned(ts, Split(code, '\n'))
    requires forall k :: 0 <= k < |ts| && ts[k].isIdentifier ==> !NewName(ts[k].value, es)
    ensures Undone(code, ts, es) == code
  {
    NoMatchKeepsLines(Split(code, '\n'), ts, es);
    JoinSplit(code, '\n');
  }

  /** An empty mapping returns the text unchanged. */
  lemma EmptyMappingKeepsText(code: string, ts: seq<Token>)
    requires Positioned(ts, Split(code, '\n'))
    ensures Undone(code, ts, []) == code
  {
    NoMatchKeepsText(code, ts, []);
  }

  /** The identifier tokens of `ts`, in order. */
  function Identifiers(ts: seq<Token>): (r: seq<Token>)
    ensures forall k :: 0 <= k < |r| ==> r[k].isIdentifier && r[k] in ts
  {
    if ts == [] then []
    else Identifiers(ts[..|ts| - 1]) + (if ts[|ts| - 1].isIdentifier then [ts[|ts| - 1]] else [])
  }

  /** Tokens that are not identifiers, string literals among them, change nothing. */
  lemma {:induction false} OnlyIdentifiersCount(lines: seq<string>, ts: seq<Token>, es: seq<RenameEntry>)
    requires Positioned(ts, lines)
    ensures Positioned(Identifiers(ts), lines)
    ensures ApplyTokens(lines, ts, es) == ApplyTokens(lines, Identifiers(ts), es)
  {
    if ts != [] {
      var init, t := ts[..|ts| - 1], ts[|ts| - 1];
      assert Positioned(init, lines) by {
        assert forall k :: 0 <= k < |init| ==> init[k] == ts[k];
      }
      OnlyIdentifiersCount(lines, init, es);
      var ids := Identifiers(init);
      if t.isIdentifier {
        assert Identifiers(ts) == ids + [t];
        assert (ids + [t])[..|ids|] == ids;
      } else {
        assert Identifiers(ts) == ids;
      }
    }
  }

  /** No line holds a newline. */
  predicate SingleLines(lines: seq<string>)
  {
    forall k :: 0 <= k < |lines| ==> '\n' !in lines[k]
  }

  /** No old name holds a newline. */
  predicate SingleLineNames(es: seq<RenameEntry>)
  {
    forall i, k :: 0 <= i < |es| && 0 <= k < |es[i].renames| && es[i].renames[k].source.Str? ==>
      '\n' !in es[i].renames[k].source.s
  }

  lemma EditKeepsSingleLine(line: string, col: nat, oldName: string, newName: string)
    requires '\n' !in line && '\n' !in oldName
    ensures '\n' !in Edit(line, col, oldName, newName)
  {
    assert Take(line, col) + Drop(line, col) == line;
    assert Take(line, col + |newName|) + Drop(line, col + |newName|) == line;
  }

  lemma {:induction false} RenamesKeepSingleLines(lines: seq<string>, t: Token, rs: seq<Rename>)
    requires 1 <= t.line <= |lines| && 1 <= t.col && SingleLines(lines)
    requires forall k :: 0 <= k < |rs| && rs[k].source.Str? ==> '\n' !in rs[k].source.s
    ensures SingleLines(ApplyRenames(lines, t, rs))
  {
    if rs != [] {
      var prev := ApplyRenames(lines, t, rs[..|rs| - 1]);
      RenamesKeepSingleLines(lines, t, rs[..|rs| - 1]);
      var rn := rs[|rs| - 1];
      if rn.source.Str? && rn.target.Str? {
        EditKeepsSingleLine(prev[t.line - 1], t.col - 1, rn.source.s, rn.target.s);
      }
    }
  }

  lemma {:induction false} EntriesKeepSingleLines(lines: seq<string>, t: Token, es: seq<RenameEntry>)
    requires 1 <= t.line <= |lines| && 1 <= t.col && SingleLines(lines) && SingleLineNames(es)
    ensures SingleLines(ApplyEntries(lines, t, es))
  {
    if es != [] {
      var init := es[..|es| - 1];
      assert SingleLineNames(init) by {
        forall i, k | 0 <= i < |init| && 0 <= k < |init[i].renames| && init[i].renames[k].source.Str?
          ensures '\n' !in init[i].renames[k].source.s
        {
          assert init[i] == es[i];
        }
      }
      EntriesKeepSingleLines(lines, t, init);
      var last := es[|es| - 1];
      assert forall k :: 0 <= k < |last.renames| && last.renames[k].source.Str? ==> '\n' !in last.renames[k].source.s;
      RenamesKeepSingleLines(ApplyEntries(lines, t, init), t, last.renames);
    }
  }

  lemma {:induction false} TokensKeepSingleLines(lines: seq<string>, ts: seq<Token>, es: seq<RenameEntry>)
    requires Positioned(ts, lines) && SingleLines(lines) && SingleLineNames(es)
    ensures SingleLines(ApplyTokens(lines, ts, es))
  {
    if ts != [] {
      TokensKeepSingleLines(lines, ts[..|ts| - 1], es);
      var t := ts[|ts| - 1];
      if t.isIdentifier {
        EntriesKeepSingleLines(ApplyTokens(lines, ts[..|ts| - 1], es), t, es);
      }
    }
  }

  /** When no old name holds a newline, the text keeps its number of lines. */
  lemma LineCountKept(code: string, ts: seq<Token>, es: seq<RenameEntry>)
    requires Positioned(ts, Split(code, '\n')) && SingleLineNames(es)
    ensures |Split(Undone(code, ts, es), '\n')| == |Split(code, '\n')|
  {
    var lines := Split(code, '\n');
    TokensKeepSingleLines(lines, ts, es);
    SplitJoin(ApplyTokens(lines, ts, es), '\n');
  }

  /** Every old name is as long as its new name. */
  predicate SameLengthNames(es: seq<RenameEntry>)
  {
    forall i, k :: 0 <= i < |es| && 0 <= k < |es[i].renames| && es[i].renames[k].source.Str? && es[i].renames[k].target.Str? ==>
      |es[i].renames[k].source.s| == |es[i].renames[k].target.s|
  }

  /** Each identifier token lies within its line. */
  predicate Fits(ts: seq<Token>, lines: seq<string>)
    requires Positioned(ts, lines)
  {
    forall k :: 0 <= k < |ts| && ts[k].isIdentifier ==> ts[k].col - 1 + |ts[k].value| <= |lines[ts[k].line - 1]|
  }

  /** Identifier token `t` names a new name and covers column `p` (0-based) of line `l` (0-based). */
  predicate Rewrites(t: Token, es: seq<RenameEntry>, l: int, p: int)
  {
    t.isIdentifier && t.line - 1 == l && t.col - 1 <= p < t.col - 1 + |t.value| && NewName(t.value, es)
  }

  /** Lines `b` have the lengths of lines `a`, and agree with them outside columns `[c, c + n)` of line `l`. */
  predicate SameOutside(a: seq<string>, b: seq<string>, l: int, c: int, n: int)
  {
    && |a| == |b|
    && (forall k :: 0 <= k < |a| ==> |b[k]| == |a[k]|)
    && (forall k :: 0 <= k < |a| && k != l ==> b[k] == a[k])
    && (0 <= l < |a| ==> forall p :: 0 <= p < |a[l]| && !(c <= p < c + n) ==> b[l][p] == a[l][p])
  }

  lemma EditSameLength(line: string, col: nat, oldName: string, newName: string)
    requires |oldName| == |newName| && col + |newName| <= |line|
    ensures |Edit(line, col, oldName, newName)| == |line|
    ensures forall p :: 0 <= p < |line| && !(col <= p < col + |newName|) ==> Edit(line, col, oldName, newName)[p] == line[p]
  {
    assert Take(line, col) == line[..col];
    assert Drop(line, col + |newName|) == line[col + |newName|..];
  }

  lemma {:induction false} RenamesSameLength(lines: seq<string>, t: Token, rs: seq<Rename>)
    requires 1 <= t.line <= |lines| && 1 <= t.col
    requires t.col - 1 + |t.value| <= |lines[t.line - 1]|
    requires forall k :: 0 <= k < |rs| && rs[k].source.Str? && rs[k].target.Str? ==> |rs[k].source.s| == |rs[k].target.s|
    ensures SameOutside(lines, ApplyRenames(lines, t, rs), t.line - 1, t.col - 1, |t.value|)
  {
    if rs != [] {
      var prev := ApplyRenames(lines, t, rs[..|rs| - 1]);
      RenamesSameLength(lines, t, rs[..|rs| - 1]);
      var rn := rs[|rs| - 1];
      if rn.source.Str? && rn.target.Str? && t.value == rn.target.s {
        EditKeepsOutside(lines, prev, t.line - 1, t.col - 1, rn.source.s, rn.target.s);
      }
    }
  }

  /** An equal-length edit at a token that fits its line keeps the lines equal outside the token. */
  lemma EditKeepsOutside(lines: seq<string>, prev: seq<string>, l: int, c: nat, oldName: string, newName: string)
    requires 0 <= l < |lines| && c + |newName| <= |lines[l]| && |oldName| == |newName|
    requires SameOutside(lines, prev, l, c, |newName|)
    ensures SameOutside(lines, prev[l := Edit(prev[l], c, oldName, newName)], l, c, |newName|)
  {
    EditSameLength(prev[l], c, oldName, newName);
  }

  lemma SameOutsideTrans(a: seq<string>, b: seq<string>, c: seq<string>, l: int, col: int, n: int)
    requires SameOutside(a, b, l, col, n) && SameOutside(b, c, l, col, n)
    ensures SameOutside(a, c, l, col, n)
  {
  }

  lemma {:induction false} EntriesSameLength(lines: seq<string>, t: Token, es: seq<RenameEntry>)
    requires 1 <= t.line <= |lines| && 1 <= t.col && SameLengthNames(es)
    requires t.col - 1 + |t.value| <= |lines[t.line - 1]|
    ensures SameOutside(lines, ApplyEntries(lines, t, es), t.line - 1, t.col - 1, |t.value|)
  {
    if es != [] {
      var init := es[..|es| - 1];
      assert SameLengthNames(init) by {
        forall i, k | 0 <= i < |init| && 0 <= k < |init[i].renames| && init[i].renames[k].source.Str? && init[i].renames[k].target.Str?
          ensures |init[i].renames[k].source.s| == |init[i].renames[k].target.s|
        {
          assert init[i] == es[i];
        }
      }
      EntriesSameLength(lines, t, init);
      var mid := ApplyEntries(lines, t, init);
      var last := es[|es| - 1];
      assert forall k :: 0 <= k < |last.renames| && last.renames[k].source.Str? && last.renames[k].target.Str? ==> |last.renames[k].source.s| == |last.renames[k].target.s|;
      RenamesSameLength(mid, t, last.renames);
      SameOutsideTrans(lines, mid, ApplyRenames(mid, t, last.renames), t.line - 1, t.col - 1, |t.value|);
    }
  }

  /**
   * With every old name as long as its new name, each line keeps its
   * length, and every character no rewritten identifier token covers is
   * unchanged.
   */
  lemma {:induction false} SameLengthKeepsOtherCharacters(lines: seq<string>, ts: seq<Token>, es: seq<RenameEntry>)
    requires Positioned(ts, lines) && SameLengthNames(es) && Fits(ts, lines)
    ensures |ApplyTokens(lines, ts, es)| == |lines|
    ensures forall l :: 0 <= l < |lines| ==> |ApplyTokens(lines, ts, es)[l]| == |lines[l]|
    ensures forall l, p :: 0 <= l < |lines| && 0 <= p < |lines[l]| && (forall k :: 0 <= k < |ts| ==> !Rewrites(ts[k], es, l, p)) ==>
      ApplyTokens(lines, ts, es)[l][p] == lines[l][p]
  {
    if ts != [] {
      var init, t := ts[..|ts| - 1], ts[|ts| - 1];
      assert Fits(init, lines) by {
        forall k | 0 <= k < |init| && init[k].isIdentifier
          ensures init[k].col - 1 + |init[k].value| <= |lines[init[k].line - 1]|
        {
          assert init[k] == ts[k];
        }
      }
      SameLengthKeepsOtherCharacters(lines, init, es);
      var prev := ApplyTokens(lines, init, es);
      if t.isIdentifier {
        EntriesSameLength(prev, t, es);
        var now := ApplyEntries(prev, t, es);
        if !NewName(t.value, es) {
          EntriesWithoutMatchKeepLines(prev, t, es);
        }
        forall l, p | 0 <= l < |lines| && 0 <= p < |lines[l]| && (forall k :: 0 <= k < |ts| ==> !Rewrites(ts[k], es, l, p))
          ensures now[l][p] == lines[l][p]
        {
          assert forall k :: 0 <= k < |init| ==> init[k] == ts[k];
          assert !Rewrites(ts[|ts| - 1], es, l, p);
        }
      } else {
        forall l, p | 0 <= l < |lines| && 0 <= p < |lines[l]| && (forall k :: 0 <= k < |ts| ==> !Rewrites(ts[k], es, l, p))
          ensures prev[l][p] == lines[l][p]
        {
          assert forall k :: 0 <= k < |init| ==> init[k] == ts[k];
        }
      }
    }
  }

  /**
   * The old name the patcher leaves over an identifier token whose text is
   * `v`: that of the last rename to `v`, entries and renames taken in order,
   * since every rename to `v` overwrites the token again; `None` when no
   * rename is to `v`.
   */
  function OldNameFor(v: string, es: seq<RenameEntry>): Option<string>
  {
    if es == [] then None
    else
      var here := LastOldName(v, es[|es| - 1].renames);
      if here.Some? then here else OldNameFor(v, es[..|es| - 1])
  }

  /** The old name of the last of `rs` that renames a variable to `v`. */
  function LastOldName(v: string, rs: seq<Rename>): Option<string>
  {
    if rs == [] then None
    else if rs[|rs| - 1].source.Str? && rs[|rs| - 1].target == Str(v) then Some(rs[|rs| - 1].source.s)
    else LastOldName(v, rs[..|rs| - 1])
  }

  /** No two identifier tokens that the patcher rewrites share a column of a line. */
  predicate Apart(ts: seq<Token>, es: seq<RenameEntry>)
  {
    forall j, k ::
      && 0 <= j < k < |ts| && ts[j].isIdentifier && ts[k].isIdentifier && ts[j].line == ts[k].line
      && OldNameFor(ts[j].value, es).Some? && OldNameFor(ts[k].value, es).Some?
      ==> ts[j].col + |ts[j].value| <= ts[k].col || ts[k].col + |ts[k].value| <= ts[j].col
  }

  /** Token `t` covers columns `[t.col - 1, t.col - 1 + |t.value|)` of its line in `lines`, which hold `name` there. */
  predicate Holds(lines: seq<string>, t: Token, name: string)
  {
    && 1 <= t.line <= |lines| && 1 <= t.col
    && t.col - 1 + |t.value| <= |lines[t.line - 1]|
    && lines[t.line - 1][t.col - 1 .. t.col - 1 + |t.value|] == name
  }

  /**
   * The renames of one entry, applied to a token that fits its line, leave
   * the old name of the last rename to the token's text over the token, and
   * change nothing when no rename is to it.
   */
  lemma {:induction false} RenamesWriteOldName(lines: seq<string>, t: Token, rs: seq<Rename>)
    requires 1 <= t.line <= |lines| && 1 <= t.col && t.col - 1 + |t.value| <= |lines[t.line - 1]|
    requires StringRenames(rs)
    requires forall k :: 0 <= k < |rs| && rs[k].source.Str? && rs[k].target.Str? ==> |rs[k].source.s| == |rs[k].target.s|
    ensures LastOldName(t.value, rs).Some? ==> Holds(ApplyRenames(lines, t, rs), t, LastOldName(t.value, rs).value)
    ensures LastOldName(t.value, rs).None? ==> ApplyRenames(lines, t, rs) == lines
  {
    if rs != [] {
      var init, rn := rs[..|rs| - 1], rs[|rs| - 1];
      assert forall k :: 0 <= k < |init| ==> init[k] == rs[k];
      RenamesWriteOldName(lines, t, init);
      RenamesSameLength(lines, t, init);
      var prev := ApplyRenames(lines, t, init);
      if rn.source.Str? && rn.target.Str? && t.value == rn.target.s {
        assert LastOldName(t.value, rs) == Some(rn.source.s);
        RenamesStep(lines, t, rs, |rs| - 1);
        assert rs[..|rs|] == rs;
        EditWritesOldName(prev, t, rn.source.s);
      } else {
        assert LastOldName(t.value, rs) == LastOldName(t.value, init);
        assert ApplyRenames(lines, t, rs) == prev;
      }
    }
  }

  /** Editing a token to an old name of its length leaves that old name over the token. */
  lemma EditWritesOldName(lines: seq<string>, t: Token, oldName: string)
    requires 1 <= t.line <= |lines| && 1 <= t.col && t.col - 1 + |t.value| <= |lines[t.line - 1]|
    requires |oldName| == |t.value|
    ensures Holds(lines[t.line - 1 := Edit(lines[t.line - 1], t.col - 1, oldName, t.value)], t, oldName)
  {
    var line, col := lines[t.line - 1], t.col - 1;
    EditSameLength(line, col, oldName, t.value);
    assert Take(line, col) == line[..col];
    assert Edit(line, col, oldName, t.value)[col .. col + |t.value|] == oldName;
  }

  /** The same over every entry: the last rename to the token's text wins. */
  lemma {:induction false} EntriesWriteOldName(lines: seq<string>, t: Token, es: seq<RenameEntry>)
    requires 1 <= t.line <= |lines| && 1 <= t.col && t.col - 1 + |t.value| <= |lines[t.line - 1]|
    requires AllStrings(es) && SameLengthNames(es)
    ensures OldNameFor(t.value, es).Some? ==> Holds(ApplyEntries(lines, t, es), t, OldNameFor(t.value, es).value)
    ensures OldNameFor(t.value, es).None? ==> ApplyEntries(lines, t, es) == lines
  {
    if es != [] {
      var init, last := es[..|es| - 1], es[|es| - 1];
      assert forall i :: 0 <= i < |init| ==> init[i] == es[i];
      EntriesWriteOldName(lines, t, init);
      EntriesSameLength(lines, t, init);
      var mid := ApplyEntries(lines, t, init);
      RenamesWriteOldName(mid, t, last.renames);
    }
  }

  /**
   * With every old name as long as its new name, each identifier token
   * inside its line and no two rewritten tokens overlapping, every
   * identifier token that some rename is to ends up holding the old name of
   * the last such rename.
   */
  lemma {:induction false} TokensWriteOldNames(lines: seq<string>, ts: seq<Token>, es: seq<RenameEntry>)
    requires Positioned(ts, lines) && Fits(ts, lines) && AllStrings(es) && SameLengthNames(es) && Apart(ts, es)
    ensures forall k :: 0 <= k < |ts| && ts[k].isIdentifier && OldNameFor(ts[k].value, es).Some? ==>
      Holds(ApplyTokens(lines, ts, es), ts[k], OldNameFor(ts[k].value, es).value)
  {
    if ts != [] {
      var init, t := ts[..|ts| - 1], ts[|ts| - 1];
      assert forall k :: 0 <= k < |init| ==> init[k] == ts[k];
      TokensWriteOldNames(lines, init, es);
      SameLengthKeepsOtherCharacters(lines, init, es);
      var prev := ApplyTokens(lines, init, es);
      if t.isIdentifier {
        assert forall j :: 0 <= j < |init| ==> init[j] == ts[j];
        IdentifierWritesOldName(prev, init, t, es);
      }
    }
  }

  /**
   * The edits for one identifier token `t` leave its old name over it and
   * keep what earlier identifier tokens apart from it hold.
   */
  lemma IdentifierWritesOldName(prev: seq<string>, init: seq<Token>, t: Token, es: seq<RenameEntry>)
    requires 1 <= t.line <= |prev| && 1 <= t.col && t.col - 1 + |t.value| <= |prev[t.line - 1]|
    requires AllStrings(es) && SameLengthNames(es)
    requires forall k :: 0 <= k < |init| && init[k].isIdentifier && OldNameFor(init[k].value, es).Some? ==>
      Holds(prev, init[k], OldNameFor(init[k].value, es).value)
    requires forall j ::
      && 0 <= j < |init| && init[j].isIdentifier && init[j].line == t.line
      && OldNameFor(init[j].value, es).Some? && OldNameFor(t.value, es).Some?
      ==> init[j].col + |init[j].value| <= t.col || t.col + |t.value| <= init[j].col
    ensures OldNameFor(t.value, es).Some? ==> Holds(ApplyEntries(prev, t, es), t, OldNameFor(t.value, es).value)
    ensures forall k :: 0 <= k < |init| && init[k].isIdentifier && OldNameFor(init[k].value, es).Some? ==>
      Holds(ApplyEntries(prev, t, es), init[k], OldNameFor(init[k].value, es).value)
  {
    EntriesWriteOldName(prev, t, es);
    EntriesSameLength(prev, t, es);
    var now := ApplyEntries(prev, t, es);
    forall k | 0 <= k < |init| && init[k].isIdentifier && OldNameFor(init[k].value, es).Some?
      ensures Holds(now, init[k], OldNameFor(init[k].value, es).value)
    {
      if OldNameFor(t.value, es).Some? {
        KeptOutside(prev, now, init[k], t, OldNameFor(init[k].value, es).value);
      }
    }
  }

  /** A token outside the columns an edit may touch keeps what it holds. */
  lemma KeptOutside(prev: seq<string>, now: seq<string>, u: Token, t: Token, name: string)
    requires Holds(prev, u, name)
    requires SameOutside(prev, now, t.line - 1, t.col - 1, |t.value|)
    requires u.line != t.line || u.col + |u.value| <= t.col || t.col + |t.value| <= u.col
    ensures Holds(now, u, name)
  {
    var l, c := u.line - 1, u.col - 1;
    assert now[l][c .. c + |u.value|] == prev[l][c .. c + |u.value|];
  }

  /**
   * The same on the text: with old names free of newlines as well, the line
   * of each identifier token that some rename is to holds, over the token,
   * the old name of the last such rename, as `int y;` becomes `int x;`.
   */
  lemma UndoWritesOldNames(code: string, ts: seq<Token>, es: seq<RenameEntry>)
    requires Positioned(ts, Split(code, '\n')) && Fits(ts, Split(code, '\n'))
    requires AllStrings(es) && SameLengthNames(es) && SingleLineNames(es) && Apart(ts, es)
    ensures |Split(Undone(code, ts, es), '\n')| == |Split(code, '\n')|
    ensures forall k :: 0 <= k < |ts| && ts[k].isIdentifier && OldNameFor(ts[k].value, es).Some? ==>
      Holds(Split(Undone(code, ts, es), '\n'), ts[k], OldNameFor(ts[k].value, es).value)
  {
    var lines := Split(code, '\n');
    LineCountKept(code, ts, es);
    TokensKeepSingleLines(lines, ts, es);
    SplitJoin(ApplyTokens(lines, ts, es), '\n');
    TokensWriteOldNames(lines, ts, es);
  }

  /**
   * Columns are not re-based: undoing `xx -> y` in `y y` gives `xxxxy`,
   * because the second `y`, recorded at column 3, is patched after the
   * first edit has already lengthened the line.
   */
  lemma ColumnsDrift()
    ensures Undone("y y", [Token(true, "y", 1, 1), Token(true, "y", 1, 3)], [RenameEntry([], [Rename(Str("xx"), Str("y"))])]) == "xxxxy"
  {
    assert Split("y y", '\n') == ["y y"] by {
      IndexOfAbsent("y y", '\n');
    }
    DriftFirst();
    DriftSecond();
    var ts := [Token(true, "y", 1, 1), Token(true, "y", 1, 3)];
    assert ts[..1] == [ts[0]];
  }

  lemma DriftFirst()
    ensures ApplyTokens(["y y"], [Token(true, "y", 1, 1)], [RenameEntry([], [Rename(Str("xx"), Str("y"))])]) == ["xx y"]
  {
    var rn := Rename(Str("xx"), Str("y"));
    var es := [RenameEntry([], [rn])];
    var t := Token(true, "y", 1, 1);
    assert [rn][..0] == [] && es[..0] == [] && [t][..0] == [];
    assert Take("y y", 0) == [] && Drop("y y", 1) == " y";
    assert Edit("y y", 0, "xx", "y") == [] + "xx" + " y" == "xx y";
    assert ApplyRenames(["y y"], t, [rn]) == ["xx y"];
  }

  lemma DriftSecond()
    ensures ApplyEntries(["xx y"], Token(true, "y", 1, 3), [RenameEntry([], [Rename(Str("xx"), Str("y"))])]) == ["xxxxy"]
  {
    var rn := Rename(Str("xx"), Str("y"));
    var es := [RenameEntry([], [rn])];
    var t := Token(true, "y", 1, 3);
    assert [rn][..0] == [] && es[..0] == [];
    assert Take("xx y", 2) == "xx" && Drop("xx y", 3) == "y";
    assert Edit("xx y", 2, "xx", "y") == "xx" + "xx" + "y" == "xxxxy";
    assert ApplyRenames(["xx y"], t, [rn]) == ["xxxxy"];
  }

  /** On a text of one line, the patcher works on that line alone. */
  lemma OneLine(code: string, ts: seq<Token>, es: seq<RenameEntry>)
    requires '\n' !in code && Positioned(ts, [code])
    ensures Split(code, '\n') == [code]
    ensures Undone(code, ts, es) == ApplyTokens([code], ts, es)[0]
  {
    IndexOfAbsent(code, '\n');
  }

  /** Undoing `x -> y` in `int y;` gives back `int x;`. */
  lemma UndoDeclaration(code: string)
    requires code == "int y;"
    ensures Undone(code, [Token(false, "int", 1, 1), Token(true, "y", 1, 5), Token(false, ";", 1, 6)],
                     [RenameEntry([], [Rename(Str("x"), Str("y"))])]) == "int x;"
  {
    var rn := Rename(Str("x"), Str("y"));
    var es := [RenameEntry([], [rn])];
    var ts := [Token(false, "int", 1, 1), Token(true, "y", 1, 5), Token(false, ";", 1, 6)];
    OneLine(code, ts, es);
    DeclarationTokens(code);
    assert Take(code, 4) == "int " && Drop(code, 5) == ";";
    assert Edit(code, 4, "x", "y") == "int " + "x" + ";" == "int x;";
  }

  /** The tokens of `int y;` edit only the declarator, whatever the line holds. */
  lemma DeclarationTokens(line: string)
    ensures ApplyTokens([line], [Token(false, "int", 1, 1), Token(true, "y", 1, 5), Token(false, ";", 1, 6)],
                        [RenameEntry([], [Rename(Str("x"), Str("y"))])]) == [Edit(line, 4, "x", "y")]
  {
    var rn := Rename(Str("x"), Str("y"));
    var es := [RenameEntry([], [rn])];
    var ts := [Token(false, "int", 1, 1), Token(true, "y", 1, 5), Token(false, ";", 1, 6)];
    var edited := [Edit(line, 4, "x", "y")];
    assert ts[..2][..1] == ts[..1] && ts[..1][..0] == [] && [rn][..0] == [] && es[..0] == [];
    assert ApplyRenames([line], ts[1], [rn]) == edited;
    assert ApplyEntries([line], ts[1], es) == edited;
    assert ApplyTokens([line], ts[..1], es) == [line];
    assert ApplyTokens([line], ts[..2], es) == edited;
  }


  /** Undoing `x -> y` in `int a, y;` gives back `int a, x;`: `a` is not a new name and is left alone. */
  lemma UndoSecondDeclarator(code: string)
    requires code == "int a, y;"
    ensures Undone(code, [Token(false, "int", 1, 1), Token(true, "a", 1, 5), Token(false, ",", 1, 6), Token(true, "y", 1, 8), Token(false, ";", 1, 9)],
                     [RenameEntry([], [Rename(Str("x"), Str("y"))])]) == "int a, x;"
  {
    var rn := Rename(Str("x"), Str("y"));
    var es := [RenameEntry([], [rn])];
    var ts := [Token(false, "int", 1, 1), Token(true, "a", 1, 5), Token(false, ",", 1, 6), Token(true, "y", 1, 8), Token(false, ";", 1, 9)];
    OneLine(code, ts, es);
    SecondDeclaratorTokens(code);
    assert Take(code, 7) == "int a, " && Drop(code, 8) == ";";
    assert Edit(code, 7, "x", "y") == "int a, " + "x" + ";" == "int a, x;";
  }

  /** The tokens of `int a, y;` edit only the second declarator, whatever the line holds. */
  lemma SecondDeclaratorTokens(line: string)
    ensures ApplyTokens([line], [Token(false, "int", 1, 1), Token(true, "a", 1, 5), Token(false, ",", 1, 6), Token(true, "y", 1, 8), Token(false, ";", 1, 9)],
                        [RenameEntry([], [Rename(Str("x"), Str("y"))])]) == [Edit(line, 7, "x", "y")]
  {
    var rn := Rename(Str("x"), Str("y"));
    var es := [RenameEntry([], [rn])];
    var ts := [Token(false, "int", 1, 1), Token(true, "a", 1, 5), Token(false, ",", 1, 6), Token(true, "y", 1, 8), Token(false, ";", 1, 9)];
    assert ts[..4][..3] == ts[..3] && ts[..3][..2] == ts[..2] && ts[..2][..1] == ts[..1] && ts[..1][..0] == [];
    assert [rn][..0] == [] && es[..0] == [];
    assert ApplyRenames([line], ts[1], [rn]) == [line];
    assert ApplyEntries([line], ts[1], es) == [line];
    assert ApplyTokens([line], ts[..1], es) == [line];
    assert ApplyTokens([line], ts[..2], es) == [line];
    assert ApplyTokens([line], ts[..3], es) == [line];
    assert ApplyRenames([line], ts[3], [rn]) == [Edit(line, 7, "x", "y")];
    assert ApplyEntries([line], ts[3], es) == [Edit(line, 7, "x", "y")];
    assert ApplyTokens([line], ts[..4], es) == [Edit(line, 7, "x", "y")];
  }


  /** Undoing `x -> y` in `int y = "y";` gives `int x = "y";`: the string literal is not an identifier token. */
  lemma UndoLeavesLiterals(code: string)
    requires code == "int y = \"y\";"
    ensures Undone(code, [Token(false, "int", 1, 1), Token(true, "y", 1, 5), Token(false, "=", 1, 7), Token(false, "\"y\"", 1, 9), Token(false, ";", 1, 12)],
                     [RenameEntry([], [Rename(Str("x"), Str("y"))])]) == "int x = \"y\";"
  {
    var rn := Rename(Str("x"), Str("y"));
    var es := [RenameEntry([], [rn])];
    var ts := [Token(false, "int", 1, 1), Token(true, "y", 1, 5), Token(false, "=", 1, 7), Token(false, "\"y\"", 1, 9), Token(false, ";", 1, 12)];
    OneLine(code, ts, es);
    LiteralTokens(code);
    assert Take(code, 4) == "int " && Drop(code, 5) == " = \"y\";";
    assert Edit(code, 4, "x", "y") == "int " + "x" + " = \"y\";" == "int x = \"y\";";
  }

  /** The tokens of `int y = "y";` edit only the declarator: the literal is no identifier token, whatever the line holds. */
  lemma LiteralTokens(line: string)
    ensures ApplyTokens([line], [Token(false, "int", 1, 1), Token(true, "y", 1, 5), Token(false, "=", 1, 7), Token(false, "\"y\"", 1, 9), Token(false, ";", 1, 12)],
                        [RenameEntry([], [Rename(Str("x"), Str("y"))])]) == [Edit(line, 4, "x", "y")]
  {
    var rn := Rename(Str("x"), Str("y"));
    var es := [RenameEntry([], [rn])];
    var ts := [Token(false, "int", 1, 1), Token(true, "y", 1, 5), Token(false, "=", 1, 7), Token(false, "\"y\"", 1, 9), Token(false, ";", 1, 12)];
    var edited := [Edit(line, 4, "x", "y")];
    assert ts[..4][..3] == ts[..3] && ts[..3][..2] == ts[..2] && ts[..2][..1] == ts[..1] && ts[..1][..0] == [];
    assert [rn][..0] == [] && es[..0] == [];
    assert ApplyRenames([line], ts[1], [rn]) == edited;
    assert ApplyEntries([line], ts[1], es) == edited;
    assert ApplyTokens([line], ts[..1], es) == [line];
    assert ApplyTokens([line], ts[..2], es) == edited;
    assert ApplyTokens([line], ts[..3], es) == edited;
    assert ApplyTokens([line], ts[..4], es) == edited;
  }

}
