# shulkr core, modelled in Dafny

shulkr builds a git history of decompiled Minecraft sources, one commit per
Minecraft version. This project models four pieces of it and proves what they
promise.

1. **The local-variable rename detector and undoer** (`shulkr/java.py`, with
   the older variant `filter/filter/java.py`). Two Java syntax trees are
   compared structurally under a growing list of match hypotheses. Matching
   declarations are paired greedily, and the renamed locals are written back
   into the new text at the tokenizer's line/column positions.
2. **Minecraft version ordering and range resolution** (`src/minecraft/version.py`,
   with the older variant `shulkr/minecraft/version.py`). This covers:
   - parsing the launcher manifest into a chain of versions linked by `next`;
   - `Version.to`;
   - the `a..b` / `a...b` pattern syntax;
   - the union/difference of a list of patterns.
3. **The generic command runner's argument vector** (`src/command/__init__.py`).
4. **The git runner of `mint`** (`mint/command.py`), whose command is run as
   one shell command line.

## How the model is laid out

- `wrappers.dfy` (`Wrappers`) and `pystr.dfy` (`PyStr`) hold the `Option`/`Result` types and the few Python string operations the source uses:
  - `str.replace` of one character;
  - clamped slices;
  - `str.split`;
  - `str.join`.
- `java_ast.dfy` (`JavaAst`): the javalang tree as a value.
  - `Value` is None, bool, int, str, set of str, list, or a node with an id, a class (with its base classes) and named attributes in order.
  - Node identity is the id.
  - `PyEq` is Python's `==`: `True == 1`, lists element-wise, nodes by identity.
- `ast_equality.dfy` (`AstEquality`): `_ast_nodes_equal`, `ast_nodes_equal` and `ast_paths_equal` of the newer detector, whose hypotheses are `(a, b, attr)` triples.
- `legacy_equality.dfy` (`LegacyAstEquality`): the same functions of the older detector, whose hypotheses are `(a, b)` pairs that short-circuit to equal.
- `ast_index.dfy` (`AstIndex`): `_filter_ast_node` (textually the same in both files), and `chunk_ast_nodes_by_path`.
  - `chunk_ast_nodes_by_path` is a loop, so it is a method, `ChunkByPath`.
  - `ChunkByPath` is proved against the fold `Group`.
- `renames.dfy` (`Renames`): the loops of `get_renamed_variables` that update the `matches` and `renamed_var_names` lists. Each is a method over `seq` state.
- `rename_matcher.dfy` (`RenameMatcher`) and `legacy_matcher.dfy` (`LegacyRenameMatcher`): `_have_same_references` and the nested loops of the two `get_renamed_variables`.
  - Each loop is a method, and each method is proved equal to a fold (`PairsFrom`, `TargetsFrom`, `DeclaratorsFrom` and the like) whose step, `PairStep`, is one candidate declarator pair.
  - `Detected` is the whole search. Both detectors' `GetRenamedVariables` return it.
  - Lemmas about the folds give the safety guarantees (grouping, where names come from, raises) and work the tests with one declaration and with two branches through to their exact results.
- `text_patcher.dfy` (`TextPatcher`): `undo_variable_renames`. The text's lines are an `array<string>` patched in place. The method is proved equal to the fold `Undone`, and the properties are proved about the fold.
- `versions.dfy` (`MinecraftVersions`):
  - `Version` is a class, because `Manifest.parse` assigns `next`.
  - `Manifest` is a class whose `versions` sequence ties the chain together.
  - It also holds `to`, `parse`, `of`, `Release.of`, `Manifest.parse` and the range split of a pattern.
- `version_patterns.dfy` (`VersionPatterns`) and `legacy_version_patterns.dfy` (`LegacyVersionPatterns`): `Version.pattern` and `Version.patterns` of the two generations.
- `command.dfy` (`Commands`), `git_command.dfy` (`GitCommands`) and `shell_words.dfy` (`ShellWords`) cover the following:
  - the two command builders;
  - how a POSIX shell splits the line `mint` runs into words (sections 2.2.1 and 2.2.2 of the Shell Command Language in POSIX.1-2017: backslash and single quotes);
  - a corrected quoting, `QuoteValue`.

Both generations of `Version.to`, `Manifest.parse`, `Version.of` and
`Version.parse` are textually the same in the two version files. Each is
modelled once and cited at the newer file.

The docstring of `Version.to` calls `other` exclusive. The loop
`while ... curr != other.next` includes it, and so do the tests of the
older generation. The model follows the code: `WalkInclusive` proves the
inclusive reading.

## Model

| member | source | states |
|---|---|---|
| PyStr.ReplaceChar | src/command/__init__.py:116 | the result has the input's length; each `_` becomes `-` and every other character stays |
| PyStr.Split | shulkr/java.py:363 | `code.split('\n')` yields at least one part, and no part holds the separator |
| PyStr.JoinSplit | shulkr/java.py:363-378 | joining the split lines with `'\n'` gives the code back, so an unpatched text round-trips |
| PyStr.SplitJoin | mint/command.py:40 | splitting a join at the separator gives back the parts when no part holds the separator |
| JavaAst.PyEqReflexive | shulkr/java.py:55-58 | Python `==` on tree values is reflexive |
| JavaAst.PyEqSymmetric | shulkr/java.py:55-58 | Python `==` on tree values is symmetric |
| JavaAst.PyEqTransitive | shulkr/java.py:55-58 | Python `==` on tree values is transitive |
| JavaAst.GetField | shulkr/java.py:44-45 | on a node with distinct attribute names, `getattr` returns that attribute's own value |
| AstEquality.DifferentTypesNeverEqual | shulkr/java.py:26-27 | compared by `ast_nodes_equal`, values of different Python types are never equal, in either mode and under any hypotheses |
| AstEquality.ScalarEquality | shulkr/java.py:55-58 | two scalars are equal if and only if they have one type and are `==` |
| AstEquality.ListEquality | shulkr/java.py:29-37 | two lists are equal if and only if they have one length and are equal element by element |
| AstEquality.RecursiveIgnoresLevel | shulkr/java.py:23-24 | a recursive comparison gives the same verdict at every level |
| AstEquality.NonRecursiveIsShallow | shulkr/java.py:23-24 | a non-recursive comparison is true exactly when the two values have the same shape (type, list length, scalar value); nothing below the first level and no hypothesis matters |
| AstEquality.PathsCompareShapes | shulkr/java.py:71-97 | two paths are equal if and only if they have one length and each pair of elements has the same shape, whatever the hypotheses |
| AstEquality.EqualReflexive | shulkr/java.py:13-58 | every well-formed tree is equal to itself, under any hypotheses and in either mode |
| AstEquality.MoreHypothesesKeepEquality | shulkr/java.py:39-53 | adding hypotheses never turns an equality into an inequality |
| AstEquality.IgnoredAttributeIsSkipped | shulkr/java.py:40-45 | two nodes of one class that differ only in attribute `attr` are equal once a hypothesis naming `attr` mentions either node |
| LegacyAstEquality.ListedPairIsEqual | filter/filter/java.py:17-19 | a listed pair is equal in both orders, before any type check, whatever the two values are |
| LegacyAstEquality.DifferentTypesNeverEqual | filter/filter/java.py:21-23 | without a listed pair, values of different types are never equal |
| LegacyAstEquality.ScalarEquality | filter/filter/java.py:47-51 | without a listed pair, two scalars are equal if and only if they have one type and are `==` |
| LegacyAstEquality.ListEquality | filter/filter/java.py:25-35 | without a listed pair, two lists are equal if and only if they have one length and are equal pairwise |
| LegacyAstEquality.RecursiveIgnoresLevel | filter/filter/java.py:14-15 | a recursive comparison gives the same verdict at every level |
| LegacyAstEquality.NoAttributeIsSkipped | filter/filter/java.py:37-45 | no attribute is ever skipped: without a listed pair, a node whose attribute is unequal to the other node's attribute of that name makes the two nodes unequal |
| LegacyAstEquality.NonRecursiveIsShallow | filter/filter/java.py:14-19 | a non-recursive comparison is true exactly when the pair is listed or the two values have the same shape |
| LegacyAstEquality.PathsCompareShapes | filter/filter/java.py:58-78 | paths are equal if and only if they have one length and each pair of elements is listed or has the same shape |
| LegacyAstEquality.EqualReflexive | filter/filter/java.py:12-51 | every well-formed tree is equal to itself, under any pairs |
| LegacyAstEquality.MoreHypothesesKeepEquality | filter/filter/java.py:17-19 | adding pairs never turns an equality into an inequality |
| AstIndex.Filter | shulkr/java.py:100-118 | every record is an instance of `t` under a path that extends the starting path by alternating nodes and attribute names; lists add nothing to the path |
| AstIndex.FilterFindsEveryInstance | shulkr/java.py:100-118 | the walk yields exactly the nodes of the tree that are instances of `t`, in depth-first order, from any starting path |
| AstIndex.NoInstanceYieldsNothing | shulkr/java.py:101-102 | a tree with no instance of `t`, `None` in particular, yields nothing |
| AstIndex.GroupChunks | shulkr/java.py:125-145 | the fold's chunks hold the records' nodes in order; each record's path is `==` to its chunk's; no chunk is empty; neighbouring chunks have paths that are not `==`; each chunk keeps its first record's path; no records give no chunks |
| AstIndex.ChunkByPath | shulkr/java.py:125-145 | the loop returns the fold's chunks; concatenating their nodes gives back the input nodes in order |
| Renames.RecordRename | shulkr/java.py:320-343 | the first entry whose path is `==` gets the rename unless it shares an old or new name there (then nothing changes); with no such entry a new entry is appended; keeps the entries well grouped; adds no rename but this one; it skips exactly when `WithRename` fails and otherwise returns `WithRename`'s entries |
| Renames.NewEntryKeepsGrouped | shulkr/java.py:342-343 | appending an entry for a path no entry has keeps the entries well grouped |
| Renames.AppendKeepsGrouped | shulkr/java.py:334-336 | adding a rename that shares no name with an entry keeps the entries well grouped |
| Renames.RecordRenameOrRaise | filter/filter/java.py:183-199 | as `RecordRename`, except that a shared old name raises a duplicate in the source, and a shared new name a duplicate in the target; the result is `WithRename`'s |
| Renames.AppendToSamePath | shulkr/java.py:306-316 | every entry whose path is `==` gets the hypothesis; because the loop never breaks, a new entry is always appended too; the result is `WithHyp`'s |
| Renames.RecordDeclaratorMatch | shulkr/java.py:345-357 | the loop returns `DeclaratorRecorded`'s result: the raise, or every entry at a `==` path grown and a new entry appended |
| Renames.RefsToSelects | shulkr/java.py:156-168 | a record is kept in the reference list if and only if it is one of the records and its `member` is `==` to the name |
| Renames.FirstAt | shulkr/java.py:322-336 | the entry found is the first whose path is `==` to the declaration path, or none when no entry has it |
| Renames.FirstClash | shulkr/java.py:326-329 | the rename found is the first of the entry sharing its old or its new name with the candidate, or none |
| Renames.WithRename | shulkr/java.py:320-343 | recording fails exactly when the first entry at a `==` path holds a rename sharing a name with the candidate, and the failure names the shared old name or the shared new name; otherwise exactly the candidate rename is added and the entries stay well grouped |
| Renames.WithHyp | shulkr/java.py:311-316 | one entry longer: entries at a `==` path gain the hypothesis at their end, the others are unchanged, and the last entry is the new `(path, [h])` |
| Renames.FirstHit | shulkr/java.py:347-352 | the hypothesis found is the first of the entry naming either declarator, or none |
| Renames.FirstReuse | shulkr/java.py:345-352 | the entry found is the first at a `==` path holding a hypothesis that names either declarator, or none |
| Renames.DeclaratorRecorded | shulkr/java.py:345-357 | raises exactly when some entry at a `==` path holds a hypothesis naming the source or the target declarator, and the raise names one of them; otherwise the result is `WithHyp`'s: every entry at a `==` path grown and `(path, [h])` appended |
| Renames.RecordedAtReuse | shulkr/java.py:345-352 | at the first such entry and its first such hypothesis, the raise is a duplicate in the source when that hypothesis's old declarator is `==` to the source declarator, the source being checked before the target, and a duplicate in the target otherwise |
| Renames.RecordedWithoutReuse | shulkr/java.py:345-357 | when no entry at a `==` path names either declarator, the result is every entry grown in place followed by the new entry |
| Renames.OneDeclarationNames | shulkr/java.py:207-212 | the name list of one declaration with one declarator is that declarator's name |
| Renames.TwoDeclarationNames | shulkr/java.py:207-212 | the name list of two declarations with one declarator each is their two names, in order |
| Renames.NamesStayFrom | shulkr/java.py:263-343 | adding a rename from a source name the target does not declare to a target name keeps every recorded old name a source-only name and every new name a target name |
| Renames.NameListed | shulkr/java.py:207-212 | every declarator of a listed declaration contributes its name to the name list |
| RenameMatcher.PrevMatchesHere | shulkr/java.py:243-248 | a hypothesis is collected if and only if it belongs to an entry whose path is `==` to either declaration path |
| RenameMatcher.HaveSameReferences | shulkr/java.py:148-185 | true if and only if the two reference lists have one length and each positional pair of reference paths is equal under the hypotheses plus the pair's `name` triple |
| RenameMatcher.ReferencesCompareShapes | shulkr/java.py:176-183 | the verdict depends only on the shapes of the path elements, never on the hypotheses or the pair's own triple |
| RenameMatcher.TryPair | shulkr/java.py:279-357 | the new state is `PairStep`'s; a rename is recorded only for declarators equal except `name` whose references correspond; the entries stay well grouped and gain no other rename; a failure names one of the two declarators |
| RenameMatcher.MatchChunks | shulkr/java.py:233-359 | the result is `Detected` of the chunks; never a syntax error; the result is well grouped, every old name is a source name the target does not declare and every new name a target name; when the target declares every source name nothing is renamed |
| RenameMatcher.GetRenamedVariables | shulkr/java.py:188-359 | a syntax error exactly when either tree is missing; otherwise the result is `Detected` of the chunked declarations and references; the renames are grouped by target path with no old or new name repeated in an entry, from source-only names to target names; identical trees give `[]` |
| RenameMatcher.TryDeclarators | shulkr/java.py:276-357 | the `for q` loop leaves the state `PairsFrom` computes from the state it starts with, and keeps every old name a source-only name and every new name a target name |
| RenameMatcher.TryTargets | shulkr/java.py:274-357 | the `for n` loop leaves the state `TargetsFrom` computes, with the same guarantee on names |
| RenameMatcher.TryTarget | shulkr/java.py:275-357 | one pass of the `for n` loop advances `TargetsFrom` by one target declaration |
| RenameMatcher.MatchDeclarations | shulkr/java.py:259-357 | the `for k` and `for m` loops leave the state `DeclarationsFrom` computes; a raise is possible only when some source name is not declared by the target |
| RenameMatcher.MatchSourceChunk | shulkr/java.py:235-357 | the `for j` loop over the target chunks leaves the state `ChunkPairsFrom` computes |
| RenameMatcher.MatchChunkPair | shulkr/java.py:236-357 | one pass of the `for j` loop advances `ChunkPairsFrom` by one target chunk |
| RenameMatcher.ChunkDeclares | shulkr/java.py:207-212 | every declarator of a chunk's declarations has its name among the chunks' name list |
| RenameMatcher.OneDeclaratorEach | shulkr/java.py:259-357 | one declaration of one declarator on each side, the old name not declared by the target, comes down to one `PairStep` |
| RenameMatcher.FreshRename | shulkr/java.py:279-357 | an admitted declarator pair without references, at a target path no entry has, records the hypothesis as `WithHyp` does and a new entry with the one rename |
| RenameMatcher.OneChunkNames | shulkr/java.py:207-212 | the name list of one chunk of one declaration of one declarator is that declarator's name |
| RenameMatcher.TwoChunkNames | shulkr/java.py:207-212 | the name list of two such chunks is their two names, in order |
| RenameMatcher.SingleDeclarationRenamed | tests/shulkr/functional/test_java.py:158-164 | `int x;` against `int y;` (paths equal, no initializers, no references) gives the one entry `[(x, y)]` |
| RenameMatcher.ThenBranchPaired | tests/shulkr/functional/test_java.py:185-191 | the then-branch source declaration pairs with the then-branch target one and not with the else-branch one |
| RenameMatcher.ElseBranchPaired | tests/shulkr/functional/test_java.py:185-191 | the else-branch source declaration pairs with the else-branch target one at a path with nothing recorded, adding a second entry |
| RenameMatcher.BranchesRenamed | tests/shulkr/functional/test_java.py:185-191 | `if (true) { int x; } else { int x; }` against the same with `y` gives two entries, `[(x, y)]` at each branch's declaration path |
| RenameMatcher.DeclaredName | shulkr/java.py:207-212 | every declarator of a chunked target declaration has its name among `target_var_names` |
| LegacyRenameMatcher.PrevPairsAt | filter/filter/java.py:136 | a pair is collected if and only if it belongs to an entry whose path is `==` to the target path |
| LegacyRenameMatcher.TryPair | filter/filter/java.py:145-214 | the new state is `PairStep`'s |
| LegacyRenameMatcher.GetRenamedVariables | filter/filter/java.py:103-216 | a syntax error exactly when either tree is missing; otherwise the result is `Detected` of the declarations and references; renames grouped by target path with no repeated name in an entry, from source-only names to target names; identical trees give `[]` |
| LegacyRenameMatcher.PairStepKeeps | filter/filter/java.py:145-214 | after one declarator pair the entries stay well grouped and gain no rename but this pair's; a rename is recorded, or a raise happens, only for declarators with equal initializers and corresponding references; a raise names a reused old or new name or one of the two declarators |
| LegacyRenameMatcher.PairRecordedKeeps | filter/filter/java.py:183-214 | recording an admitted pair keeps the entries well grouped, adds no other rename, and a raise names a reused name or one of the declarators |
| LegacyRenameMatcher.RecordPair | filter/filter/java.py:183-214 | the rename loop and the declarator loop together leave `PairRecorded`'s state |
| LegacyRenameMatcher.RecordReferences | filter/filter/java.py:159-176 | the reference loop appends the pairs `RefPairs` lists, stopping at the first pair of paths that differ, and reports whether none differed |
| LegacyRenameMatcher.TryDeclarators | filter/filter/java.py:145-214 | the `for target_declarator` loop leaves the state `PairsFrom` computes, keeping every old name a source-only name and every new name a target name |
| LegacyRenameMatcher.TryDeclarator | filter/filter/java.py:140-214 | one pass of the `for source_declarator` loop advances `DeclaratorsFrom` by one source declarator |
| LegacyRenameMatcher.MatchDeclarators | filter/filter/java.py:140-214 | the `for source_declarator` loop leaves the state `DeclaratorsFrom` computes; a raise is possible only when some source name is not declared by the target |
| LegacyRenameMatcher.MatchTargets | filter/filter/java.py:130-214 | the `for target_path, target_node` loop leaves the state `TargetsFrom` computes |
| LegacyRenameMatcher.MatchDeclarations | filter/filter/java.py:129-216 | the result is `Detected` of the declarations; never a syntax error; well grouped, from source-only names to target names; nothing renamed when the target declares every source name |
| LegacyRenameMatcher.EntryDeclares | filter/filter/java.py:114 | every declarator of a recorded declaration has its name among the name list |
| LegacyRenameMatcher.OneDeclaratorEach | filter/filter/java.py:140-214 | one declarator on each side, the old name not declared by the target, comes down to one `PairStep` |
| LegacyRenameMatcher.FreshRename | filter/filter/java.py:145-214 | declarators with equal initializers and no references, at a target path no entry has, record the pair as `WithHyp` does and a new entry with the one rename |
| LegacyRenameMatcher.AbsentInitializers | filter/filter/java.py:149 | two absent initializers compare equal under any hypotheses |
| LegacyRenameMatcher.AttributesApart | filter/filter/java.py:136-137 | two paths holding different attribute names at one position are neither equal under pair hypotheses nor `==` |
| LegacyRenameMatcher.PathsStayEqual | filter/filter/java.py:137 | paths equal without hypotheses stay equal under any |
| LegacyRenameMatcher.SingleDeclarationRenamed | filter/tests/unit/test_java.py:147-153 | `int x;` against `int y;` (paths equal, no initializers, no references) gives the one entry `[(x, y)]` |
| LegacyRenameMatcher.FirstTargetPaired | filter/filter/java.py:129-214 | a source declaration of one declarator pairs with a first target declaration at an equal path when nothing is recorded yet, leaving one hypothesis entry and one rename entry at the target path |
| LegacyRenameMatcher.ThenBranchPaired | filter/tests/unit/test_java.py:174-180 | the then-branch source declaration pairs with the then-branch target one only |
| LegacyRenameMatcher.ThenSecondTargetMissed | filter/tests/unit/test_java.py:174-180 | after that pairing, the then-branch source declaration does not pair with the else-branch target one |
| LegacyRenameMatcher.ElseBranchPaired | filter/tests/unit/test_java.py:174-180 | the else-branch source declaration pairs with the else-branch target one at a path with nothing recorded, adding a second entry |
| LegacyRenameMatcher.BranchesRenamed | filter/tests/unit/test_java.py:174-180 | `if (true) { int x; } else { int x; }` against the same with `y` gives two entries, `[(x, y)]` at each branch's declaration path |
| LegacyRenameMatcher.DeclaredName | filter/filter/java.py:114 | every declarator of a recorded target declaration has its name among `target_var_names` |
| TextPatcher.ApplyRenames | shulkr/java.py:371-376 | the fold over one entry's renames leaves the number of lines unchanged |
| TextPatcher.UndoVariableRenames | shulkr/java.py:362-378 | patching the line array in place, token by token, entry by entry and rename by rename, returns the fold `Undone` |
| TextPatcher.PatchToken | shulkr/java.py:370-376 | the lines after one token are the fold of its edits over every entry |
| TextPatcher.PatchRenames | shulkr/java.py:371-376 | the lines after one entry are the fold of that entry's edits |
| TextPatcher.NoMatchKeepsLines | shulkr/java.py:366-376 | a line that no identifier token naming a new name lies on comes back unchanged |
| TextPatcher.NoMatchKeepsText | shulkr/java.py:362-378 | when no identifier token is a new name, the text comes back unchanged |
| TextPatcher.EmptyMappingKeepsText | shulkr/java.py:362-378 | an empty mapping returns the text unchanged |
| TextPatcher.OnlyIdentifiersCount | shulkr/java.py:367-368 | tokens that are not identifiers, string literals among them, change nothing |
| TextPatcher.LineCountKept | shulkr/java.py:363-378 | when no old name holds a newline, the text keeps its number of lines |
| TextPatcher.SameLengthKeepsOtherCharacters | shulkr/java.py:373-376 | with every old name as long as its new name, each line keeps its length and every character outside the rewritten identifier tokens is unchanged |
| TextPatcher.RenamesWriteOldName | shulkr/java.py:371-376 | with same-length names, after one entry's renames a token inside its line holds the old name of the last rename to its text, and the lines are untouched when no rename is to it |
| TextPatcher.EntriesWriteOldName | shulkr/java.py:370-376 | the same over every entry: the token holds the old name of the last rename to its text, taken over entries in order |
| TextPatcher.TokensWriteOldNames | shulkr/java.py:366-376 | with same-length names, every identifier token inside its line and no two rewritten tokens overlapping, each identifier token that some rename is to holds that rename's old name in the patched lines |
| TextPatcher.EditWritesOldName | shulkr/java.py:373-376 | an edit of a token to an old name of its length leaves that old name over the token |
| TextPatcher.IdentifierWritesOldName | shulkr/java.py:366-376 | the edits for one identifier token write its old name over it and keep what earlier identifier tokens apart from it hold |
| TextPatcher.KeptOutside | shulkr/java.py:373-376 | a token outside the columns an edit may touch keeps the text it holds |
| TextPatcher.UndoWritesOldNames | shulkr/java.py:362-378 | on the text: under the same conditions and with old names free of newlines, the result keeps its line count and each rewritten token's range of its line holds the old name |
| TextPatcher.OneLine | shulkr/java.py:363-378 | a text without a newline is one line, and the result is that line patched |
| TextPatcher.DeclarationTokens | tests/shulkr/functional/test_java.py:201-204 | the tokens of `int y;` edit the declarator's columns only |
| TextPatcher.SecondDeclaratorTokens | tests/shulkr/functional/test_java.py:207-210 | the tokens of `int a, y;` edit the second declarator's columns only |
| TextPatcher.LiteralTokens | tests/shulkr/functional/test_java.py:219-222 | the tokens of `int y = "y";` edit the declarator's columns only; the literal is no identifier token |
| TextPatcher.UndoDeclaration | tests/shulkr/functional/test_java.py:201-204 | undoing `x -> y` in `int y;` gives `int x;` |
| TextPatcher.UndoSecondDeclarator | tests/shulkr/functional/test_java.py:207-210 | undoing `x -> y` in `int a, y;` gives `int a, x;` |
| TextPatcher.UndoLeavesLiterals | tests/shulkr/functional/test_java.py:219-222 | undoing `x -> y` in `int y = "y";` gives `int x = "y";`: the string literal is left alone |
| TextPatcher.ColumnsDrift | shulkr/java.py:373-376 | columns are not re-based: undoing `xx -> y` in `y y` gives `xxxxy` |
| MinecraftVersions.ParseType | src/minecraft/version.py:98-107 | each of the four type names maps to its kind; any other name fails with `UnknownVersionType` |
| MinecraftVersions.Version.constructor | src/minecraft/version.py:28-37 | a new version has the given id, index and kind, and no `next` |
| MinecraftVersions.Version.Parse | src/minecraft/version.py:84-107 | fails exactly on an unknown type; otherwise a fresh, unlinked version of the entry's id and kind at `index` |
| MinecraftVersions.Version.To | src/minecraft/version.py:54-81 | fails if and only if `other < self`; otherwise the loop's list is the walk from this version's position |
| MinecraftVersions.ChainOrder | src/minecraft/version.py:42-52 | within a manifest, one version is `<` another, and the other `>` it, exactly when it comes earlier in the chain |
| MinecraftVersions.WalkFails | src/minecraft/version.py:66-71 | `to` raises exactly when `other` precedes the start |
| MinecraftVersions.WalkOrdered | src/minecraft/version.py:73-81 | the walk ascends and lies between the start and `other`, or the newest version; without snapshots it holds only releases |
| MinecraftVersions.WalkMembers | src/minecraft/version.py:73-81 | the walk holds exactly the versions from the start up to `other` inclusive, or to the end, that are releases (all of them with snapshots) |
| MinecraftVersions.WalkInclusive | src/minecraft/version.py:75 | with snapshots the walk is the whole stretch of the chain from the start to `other` inclusive, or to the newest version |
| MinecraftVersions.VisitedAscends | src/minecraft/version.py:73-79 | the versions the loop keeps ascend, none repeats, and each lies between the start and the stop |
| MinecraftVersions.VisitedAll | src/minecraft/version.py:76-77 | with snapshots the loop keeps every version it visits: the stretch of the chain it walked |
| MinecraftVersions.IdMap | src/minecraft/version.py:318 | the id map holds exactly the versions' ids, each mapped to a version with that id |
| MinecraftVersions.FirstRelease | src/minecraft/version.py:371-372 | the earliest release is the first release of the list, or null when there is none |
| MinecraftVersions.Manifest.Parse | src/minecraft/version.py:328-383 | fails exactly when parsing raises, with that error; otherwise it returns the versions from the earliest supported entry on, oldest first, linked by `next`; the latest ids are looked up among them |
| MinecraftVersions.SupportedFrom | src/minecraft/version.py:353-359 | support starts at the first entry whose id is the earliest supported id, or nowhere when no entry has it |
| MinecraftVersions.ParseError | src/minecraft/version.py:361-375 | parsing raises unless every supported entry has a known type and both latest ids are among the supported entries |
| MinecraftVersions.ParsedAscending | src/minecraft/version.py:353-362 | the parsed versions' indices ascend, so older versions are `<` newer ones |
| MinecraftVersions.HasIdMap | src/minecraft/version.py:363 | the id map of the parsed versions holds exactly the ids of the supported entries |
| MinecraftVersions.Append | src/minecraft/version.py:361-372 | recording one more version keeps the id map, the `next` links and the earliest snapshot and release in step with the versions so far |
| MinecraftVersions.Of | src/minecraft/version.py:110-129 | `None` gives the latest snapshot; an id succeeds exactly when some version has it and gives that version; otherwise `NoSuchVersion` |
| MinecraftVersions.ReleaseOf | src/minecraft/version.py:227-248 | `None` gives the latest release; a result is a release with that id; a failure is an unknown id or a version that is no release |
| MinecraftVersions.Reverse | src/minecraft/version.py:344 | the list reversed: same length, element `i` is element `n-1-i` of the input |
| MinecraftVersions.RangeSplitParts | src/minecraft/version.py:148-150 | a split puts its parts back together as a prefix of the pattern, with two or three dots and a start that is empty or ends in a non-dot |
| MinecraftVersions.RangeSplitGreedy | src/minecraft/version.py:148 | the start group is greedy: no later `..` on the first line could have ended it |
| MinecraftVersions.RangeIffDots | src/minecraft/version.py:148-149 | a pattern on one line is a range if and only if it holds `..` |
| MinecraftVersions.RangeSplitJoin | src/minecraft/version.py:148-150 | splitting `a`, the dots and `b` gives back `a`, the dots and `b`, for an `a` that does not end in `.` and a `b` without `..` or newline |
| MinecraftVersions.BareIdIsNoRange | shulkr/minecraft/version.py:103-124 | `1.0.0` is no range |
| MinecraftVersions.BareDots | shulkr/minecraft/version.py:103-106 | `..` and `...` split into an empty start, the dots and an empty end |
| MinecraftVersions.StartDotsEnd | shulkr/minecraft/version.py:103-106 | `abcdef...1.0.0` splits into `abcdef`, `...` and `1.0.0` |
| VersionPatterns.NextRelease | src/minecraft/version.py:159-162 | the position found is the first release at or after the given one, or the end of the chain |
| VersionPatterns.Single | src/minecraft/version.py:178-180 | a pattern that is no range gives the one version with that id, or raises `NoSuchVersion` |
| VersionPatterns.RangeStart | src/minecraft/version.py:153-164 | the start is the named version, else the one after the repository's latest, moved to a release without snapshots; with no start and no commits it raises |
| VersionPatterns.RangeEnd | src/minecraft/version.py:170-174 | the end is the named version, or null (the newest) when the end is empty |
| VersionPatterns.SkipToRelease | src/minecraft/version.py:161-162 | the loop stops at the first release at or after its start, or at null |
| VersionPatterns.ResolveStart | src/minecraft/version.py:153-164 | the method computes `RangeStart`: the start version, or null when none is left, or the error |
| VersionPatterns.Range | src/minecraft/version.py:150-176 | the range branch returns what the range specification says |
| VersionPatterns.Pattern | src/minecraft/version.py:132-180 | the method returns what the pattern specification says |
| VersionPatterns.Patterns | src/minecraft/version.py:183-213 | the method returns the selected set in manifest order, or the first error |
| VersionPatterns.PatternsSorted | src/minecraft/version.py:209-213 | the result ascends, holds each version once and holds exactly the selected versions |
| VersionPatterns.PatternsStep | src/minecraft/version.py:203-207 | after one more pattern a version is selected exactly when that pattern adds it, or it was selected before and a `-` pattern does not remove it |
| VersionPatterns.SelectedStopsAtFailure | src/minecraft/version.py:203-207 | once a pattern raises, the later patterns are not looked at |
| VersionPatterns.PatternNamesOne | src/minecraft/version.py:178-180 | a one-line pattern without `..` selects the one version with that id, or raises when the manifest has none |
| VersionPatterns.OpenStartNeedsCommits | src/minecraft/version.py:163-164 | a range without a start raises when the repository has no commits |
| VersionPatterns.UpToDate | src/minecraft/version.py:166-168 | a range without a start selects nothing when nothing (or no release with `..`) follows the repository's latest version, and the end is not looked up |
| VersionPatterns.LastIndexOfEnd | src/minecraft/version.py:170-174 | a resolved end bounds the range at its own position, an empty end at the newest version |
| VersionPatterns.RangeFromLatestNewer | src/minecraft/version.py:156-176 | from the repository's latest version, a range selects only newer versions, in order, up to its end, releases only with `..` |
| VersionPatterns.RangeFromLatestAll | src/minecraft/version.py:156-176 | from the repository's latest version, a range selects every newer version of the right kind up to its end |
| VersionPatterns.OpenStartSelectsNewer | src/minecraft/version.py:153-176 | a range without a start generates what is new since the repository's latest version: newer than it, no newer than the end, in manifest order, releases only with `..` |
| VersionPatterns.PatternInManifest | src/minecraft/version.py:132-180 | every version a pattern selects is in the manifest |
| VersionPatterns.SelectedInManifest | src/minecraft/version.py:202-207 | every version the patterns select is in the manifest |
| VersionPatterns.InOrderAscending | src/minecraft/version.py:210-211 | the sorted list ascends and holds each version once |
| VersionPatterns.InOrderComplete | src/minecraft/version.py:210-211 | sorting loses no selected version of the manifest |
| VersionPatterns.ClosedRange | src/minecraft/version.py:150-176 | `start...end` selects every version from the start to the end inclusive, whatever the repository's latest version; an end before the start raises |
| LegacyVersionPatterns.LegacyStart | shulkr/minecraft/version.py:108-112 | the start is the named version, else the earliest version with `...` or the earliest release with `..` |
| LegacyVersionPatterns.LegacyPattern | shulkr/minecraft/version.py:100-124 | the method returns what the older pattern specification says |
| LegacyVersionPatterns.LegacyPatterns | shulkr/minecraft/version.py:126-140 | the method returns the selected set in manifest order, or the first error |
| LegacyVersionPatterns.LegacyStopsAtFailure | shulkr/minecraft/version.py:130-134 | once a pattern raises, the later patterns are not looked at |
| LegacyVersionPatterns.BareRange | shulkr/minecraft/version.py:108-120 | a range with neither start nor end walks from the earliest version (or release) to the newest |
| LegacyVersionPatterns.AllVersions | shulkr/minecraft/version.py:112-120 | `...` alone selects every supported version in manifest order |
| LegacyVersionPatterns.AllReleases | shulkr/minecraft/version.py:112-120 | `..` alone selects exactly the supported releases in manifest order |
| LegacyVersionPatterns.FromVersion | shulkr/minecraft/version.py:108-120 | `start..` or `start...` raises only for an unknown start; otherwise it selects from the start to the newest, releases only with `..` |
| LegacyVersionPatterns.LegacyPatternsSorted | shulkr/minecraft/version.py:136-140 | the result holds exactly the selected versions, in manifest order, each once |
| LegacyVersionPatterns.LegacySelectedInManifest | shulkr/minecraft/version.py:129-134 | every version the older patterns select is in the manifest |
| LegacyVersionPatterns.SameWithStart | shulkr/minecraft/version.py:100-124 | the two generations agree on every pattern that names its start, or is no range |
| Commands.SubcommandName | src/command/__init__.py:116 | the subcommand has the name's length and no `_`; each `_` became `-` |
| Commands.Flag | src/command/__init__.py:140-141 | the option is one dash then the key for a one-character key, two dashes otherwise, with `_` turned into `-` |
| Commands.Call | src/command/__init__.py:171-176 | the executable, then the subcommand, then the options taking exactly the tokens their values call for, then each argument's text |
| Commands.OptionsWidth | src/command/__init__.py:143-151 | `True` contributes one token, `False` none, any other value two |
| Commands.OptionsAppend | src/command/__init__.py:171-174 | options follow the keyword order: the options of a split call are the first part's then the second's |
| Commands.FalseOmitted | src/command/__init__.py:146-147 | a keyword set to `False` adds nothing, wherever it stands |
| Commands.OptionTokens | src/command/__init__.py:140-151 | every option token is a dash-led flag without `_`, or the text of a non-boolean value |
| Commands.OneFlag | src/command/__init__.py:143-144 | a keyword set to `True` gives the bare flag alone, between the subcommand and the arguments |
| Commands.NoFlag | src/command/__init__.py:146-147 | a keyword set to `False` gives no token: the subcommand is followed by the arguments |
| Commands.ExamplePositional | tests/command/unit/test_command.py:47-61 | `status` and `status src` give `['git', 'status']` and `['git', 'status', 'src']` |
| Commands.ExampleValues | tests/command/unit/test_command.py:63-94 | `n=3` and `n=1` give `-n` followed by the value; `1` is no flag |
| Commands.ExampleFlags | tests/command/unit/test_command.py:63-102 | `oneline=True` gives `--oneline`, `False` nothing, and options come before the arguments |
| GitCommands.Escape | mint/command.py:83 | escaping never shortens the value |
| GitCommands.UnescapeEscape | mint/command.py:83 | escaping loses nothing: reading `\'` back as `'` gives the value |
| GitCommands.FormatValue | mint/command.py:77-85 | a value without a space is unchanged; one with a space is put in single quotes around its escaped text |
| GitCommands.SameAsCommand | mint/command.py:103-114 | without spaces in the values, the git runner builds the generic runner's tokens for `git` |
| GitCommands.CommandLineWords | mint/command.py:40 | when no token holds a space, splitting the command line at spaces gives back the tokens |
| GitCommands.ExampleStatus | tests/mint/unit/test_command.py:54-68 | `git.status()` runs `git status` and `git.status('src')` runs `git status src` |
| GitCommands.ExampleLogValue | tests/mint/unit/test_command.py:70-76 | `git.log(n=3)` runs `git log -n 3` |
| GitCommands.ExampleLogNoFlag | tests/mint/unit/test_command.py:95-101 | `git.log(oneline=False)` runs `git log` |
| GitCommands.ExampleLogFlag | tests/mint/unit/test_command.py:103-109 | `git.log('HEAD', oneline=True)` runs `git log --oneline HEAD` |
| ShellWords.QuoteValue | mint/command.py:77-85 | a value without a space is passed as `_format_value` passes it, unchanged; a value with a space is single-quoted |
| ShellWords.BodiesDiffer | mint/command.py:77-85 | inside the quotes, a text holding `'` is written differently by the corrected quoting and by `_format_value` |
| ShellWords.QuoteBodyPlain | mint/command.py:77-85 | inside the quotes, a text without `'` is written as it is |
| ShellWords.SameAsWritten | mint/command.py:77-85 | the corrected quoting differs from `_format_value` exactly on values holding both a space and a `'` |
| ShellWords.ScanQuoteValue | mint/command.py:77-85 | the shell reads a corrected-quoted value back as exactly the value's text, whatever follows it, when the value holds a space or is a nonempty word of shell-safe characters |
| ShellWords.QuotedRoundTrip | mint/command.py:37-54 | the shell splits a line of quoted values back into exactly the values' texts, when each holds a space or is a nonempty word of shell-safe characters |
| ShellWords.CallValueStrings | mint/command.py:103-114 | the values of a git call, read back, are the generic runner's tokens for `git` |
| ShellWords.QuotedGitCallWords | mint/command.py:37-74 | with the corrected quoting, and every value holding a space or made of shell-safe characters, the shell reads the command line back as exactly the generic runner's argument vector for `git` |
| ShellWords.FormatValueReadable | mint/command.py:77-85 | a nonempty value without `'` or `\` survives `_format_value` as one word |
| ShellWords.ApostropheBreaks | mint/command.py:77-85 | a value with a space and a `'` is written with `\'` inside single quotes, which the shell cannot read |
| ShellWords.ApostropheBreaksLine | mint/command.py:77-85 | `it's ok` makes a command line the shell rejects as an unterminated quote |
| ShellWords.ApostropheQuoted | mint/command.py:77-85 | the corrected quoting reads `it's ok` back as that one word |

## Left out

- Parsing and tokenizing Java (javalang) are not modelled. Trees and token lists are inputs; a missing tree stands for a syntax error.
- Running commands is not modelled: `subprocess`, `shutil.which`, the working directory, `proc.stdout.strip()` and the error classes. The model ends at the argument vector or the command line.
- Downloading the manifest (`load_manifest`) is not modelled, nor is the module-level `manifest`. The manifest is passed to every function that reads it.
- Python's regular expression engine is not modelled. `RangeSplit` states the match of `(.*[^.])?(\.\.\.?)(.*)` as a string function.
- A manifest entry lacking `id` or `type` is not modelled, nor a manifest lacking `versions` or `latest`: entries are records that always have both. A latest id missing from the supported versions is modelled as the `MissingLatest` error.
- The `__str__` methods are not modelled, nor the error message texts. Errors are datatype constructors.
- The debug `print` at filter/filter/java.py:181 is not modelled. It has no effect on the result.
- `source_var_names` at filter/filter/java.py:113 is not modelled: it is computed and never read.
- The sort in `Version.patterns` is modelled as the manifest order of the selected set (`InOrder`). `ChainOrder` proves that `<` follows that order.
- Keyword arguments are a list in call order, since a Python `dict` keeps insertion order. Argument values are `bool` or their `str()` text.
- ShellWords.QuotedGitCallWords: a value without a space is passed raw, as `_format_value` passes it, so one holding characters the shell treats specially (the `"` of `git.log('--format="%B"')`, mint/command.py:26-27), or the empty value, is read back as the shell reads it. Reading of those characters is not modelled, so the round trip is stated only for values holding a space or made of shell-safe characters.
- ShellWords does not model the rest of the shell language (double quotes, `$`, globbing, operators). Words are split at blanks, and only backslash and single quotes are read. That covers every character `QuoteValue` produces for values holding a space or made of shell-safe characters.
- Renames.DeclaratorRecorded: on a raise, the hypotheses the loop already appended to earlier entries at the path are not kept. The exception ends `get_renamed_variables`, so nothing reads them. The same holds for `Renames.RecordRenameOrRaise` and the reference pairs the older detector recorded before a raise.

## Findings

| source | as written | input that shows it | evidently intended | confidence | as-written member | corrected member |
|---|---|---|---|---|---|---|
| mint/command.py:77-85 | a value holding a space is put in single quotes, with each `'` written `\'`; a POSIX shell (which `_run_command` uses, line 40) takes nothing literally inside single quotes, so `\'` ends the quote | `git.commit(message="it's ok")` makes `git commit --message 'it\'s ok'`, an unterminated quote the shell rejects | a value holding a space reaches git as one argument holding its text, with `'` written `'\''` inside the single quotes; other values are passed as they are | not executed | ShellWords.ApostropheBreaksLine | ShellWords.QuotedGitCallWords |
