/**
 * The git runner of the `mint` package: `git.sub_command(*args, **kwargs)`
 * builds `['git', 'sub-command', *options, *args]` like the generic command
 * runner, except that every value goes through `_format_value` (a value
 * holding a space is put in single quotes, with each `'` written `\'`),
 * and the tokens are joined with spaces into one shell command line.
 */
module GitCommands {
  import opened PyStr
  import opened Commands

  /** `value.replace("'", "\\'")`: a backslash before each single quote. */
  function Escape(s: string): (r: string)
    ensures |r| >= |s|
    ensures r == [] || r[0] != '\''
  {
    if s == [] then []
    else (if s[0] == '\'' then "\\'" else [s[0]]) + Escape(s[1..])
  }

  /** Undoes `Escape`: `\'` is read as `'`, and every other character as itself. */
  function Unescape(s: string): string
  {
    if s == [] then []
    else if |s| >= 2 && s[0] == '\\' && s[1] == '\'' then "'" + Unescape(s[2..])
    else [s[0]] + Unescape(s[1..])
  }

  /** Escaping loses nothing: unescaping gives the value back. */
  lemma {:induction false} UnescapeEscape(s: string)
    ensures Unescape(Escape(s)) == s
  {
    if s != [] {
      var rest := Escape(s[1..]);
      UnescapeEscape(s[1..]);
      if s[0] == '\'' {
        assert Escape(s) == "\\'" + rest;
        assert (("\\'" + rest)[2..]) == rest;
      } else {
        assert Escape(s) == [s[0]] + rest;
        assert ([s[0]] + rest)[1..] == rest;
      }
    }
  }

  /**
   * `GitCommand._format_value`: the value's text, put in single quotes
   * with its quotes escaped when it holds a space, and left alone
   * otherwise.
   */
  function FormatValue(v: PyValue): (r: string)
    ensures ' ' !in Str(v) ==> r == Str(v)
    ensures ' ' in Str(v) ==> |r| >= 2 && r[0] == '\'' && r[|r| - 1] == '\'' && Unescape(r[1..|r| - 1]) == Str(v)
  {
    var value := Str(v);
    if ' ' in value then
      UnescapeEscape(value);
      var r := "'" + Escape(value) + "'";
      assert r[1..|r| - 1] == Escape(value);
      r
    else value
  }

  /** `GitCommand._format_option` */
  function GitFormatOption(key: string, value: PyValue): seq<string>
  {
    if value == Bool(true) then [Flag(key)]
    else if value == Bool(false) then []
    else [Flag(key), FormatValue(value)]
  }

  /** All the options of a git call, keyword by keyword in call order. */
  function GitOptions(kwargs: seq<Kwarg>): seq<string>
  {
    if kwargs == [] then []
    else GitFormatOption(kwargs[0].key, kwargs[0].value) + GitOptions(kwargs[1..])
  }

  /** Each positional argument, formatted. */
  function GitArgs(args: seq<PyValue>): (r: seq<string>)
    ensures |r| == |args| && forall i :: 0 <= i < |args| ==> r[i] == FormatValue(args[i])
  {
    seq(|args|, i requires 0 <= i < |args| => FormatValue(args[i]))
  }

  /** `GitCommand._raw_command` */
  function GitRawCommand(subcommand: string, args: seq<PyValue>, kwargs: seq<Kwarg>): seq<string>
  {
    ["git", subcommand] + GitOptions(kwargs) + GitArgs(args)
  }

  /** The shell command line `_run_command` executes: the tokens joined with spaces. */
  function CommandLine(tokens: seq<string>): string
  {
    Join(tokens, ' ')
  }

  /** The command line run for `git.name(*args, **kwargs)`. */
  function GitCall(name: string, args: seq<PyValue>, kwargs: seq<Kwarg>): string
  {
    CommandLine(GitRawCommand(SubcommandName(name), args, kwargs))
  }

  /** No keyword value holds a space. */
  predicate NoSpacedValue(kwargs: seq<Kwarg>)
  {
    forall i :: 0 <= i < |kwargs| ==> ' ' !in Str(kwargs[i].value)
  }

  /**
   * Without spaces in the values, the git runner builds the same tokens as
   * the generic command runner does for the `git` executable.
   */
  lemma {:induction false} SameAsCommand(subcommand: string, args: seq<PyValue>, kwargs: seq<Kwarg>)
    requires NoSpacedValue(kwargs) && forall i :: 0 <= i < |args| ==> ' ' !in Str(args[i])
    ensures GitRawCommand(subcommand, args, kwargs) == RawCommand(Command("git"), subcommand, args, kwargs)
  {
    SameOptions(kwargs);
    assert GitArgs(args) == ArgStrings(args);
  }

  lemma {:induction false} SameOptions(kwargs: seq<Kwarg>)
    requires NoSpacedValue(kwargs)
    ensures GitOptions(kwargs) == Options(kwargs)
  {
    if kwargs != [] {
      assert NoSpacedValue(kwargs[1..]) by {
        forall i | 0 <= i < |kwargs[1..]|
          ensures ' ' !in Str(kwargs[1..][i].value)
        {
          assert kwargs[1..][i] == kwargs[i + 1];
        }
      }
      SameOptions(kwargs[1..]);
      assert ' ' !in Str(kwargs[0].value);
    }
  }

  /**
   * When no token holds a space, splitting the command line at spaces gives
   * back the tokens: the line `_run_command` runs carries every token as a
   * word of its own.
   */
  lemma CommandLineWords(tokens: seq<string>)
    requires |tokens| >= 1 && forall k :: 0 <= k < |tokens| ==> ' ' !in tokens[k]
    ensures Split(CommandLine(tokens), ' ') == tokens
  {
    SplitJoin(tokens, ' ');
  }

  /** Joining three or more tokens: the first, a space, then the rest joined. */
  lemma JoinFirst(tokens: seq<string>)
    requires |tokens| >= 2
    ensures CommandLine(tokens) == tokens[0] + " " + CommandLine(tokens[1..])
  {
  }

  /** Four tokens joined: each separated from the next by one space. */
  lemma JoinFour(a: string, b: string, c: string, d: string)
    ensures CommandLine([a, b, c, d]) == a + " " + b + " " + c + " " + d
  {
    var tokens := [a, b, c, d];
    JoinFirst(tokens);
    JoinFirst(tokens[1..]);
    JoinFirst(tokens[2..]);
    assert tokens[1..][1..] == tokens[2..];
    assert tokens[2..][1..] == [d];
    assert CommandLine([d]) == d;
  }

  /** Calls from the git command tests without keyword arguments, as the command lines they run. */
  lemma ExampleStatus(status: string, src: string)
    requires status == "status" && src == "src"
    ensures GitCall(status, [], []) == "git status"
    ensures GitCall(status, [Other(src)], []) == "git status src"
  {
    PlainKey(status);
    assert GitOptions([]) == [];
    assert GitArgs([]) == [];
    assert FormatValue(Other(src)) == src;
    assert GitArgs([Other(src)]) == [src];
    assert GitRawCommand(status, [], []) == ["git", status];
    assert GitRawCommand(status, [Other(src)], []) == ["git", status, src];
    JoinFirst(["git", status]);
    assert ["git", status][1..] == [status];
    assert CommandLine([status]) == status;
    JoinFirst(["git", status, src]);
    JoinFirst([status, src]);
    assert ["git", status, src][1..] == [status, src];
    assert [status, src][1..] == [src];
    assert CommandLine([src]) == src;
  }

  /** A call from the git command tests with a non-boolean keyword argument, as the command line it runs. */
  lemma ExampleLogValue(log: string, n: string, three: string)
    requires log == "log" && n == "n" && three == "3"
    ensures GitCall(log, [], [Kwarg(n, Other(three))]) == "git log -n 3"
  {
    PlainKey(log);
    PlainKey(n);
    var f := Flag(n);
    assert f == "-n";
    assert GitArgs([]) == [];
    assert FormatValue(Other(three)) == three;
    assert GitOptions([Kwarg(n, Other(three))]) == [f, three];
    assert GitRawCommand(log, [], [Kwarg(n, Other(three))]) == ["git", log, f, three];
    JoinFour("git", log, f, three);
  }

  /** A call from the git command tests with a keyword argument set to `False`, as the command line it runs. */
  lemma ExampleLogNoFlag(log: string, oneline: string)
    requires log == "log" && oneline == "oneline"
    ensures GitCall(log, [], [Kwarg(oneline, Bool(false))]) == "git log"
  {
    PlainKey(log);
    assert GitOptions([Kwarg(oneline, Bool(false))]) == [];
    assert GitArgs([]) == [];
    assert GitRawCommand(log, [], [Kwarg(oneline, Bool(false))]) == ["git", log];
    JoinFirst(["git", log]);
    assert ["git", log][1..] == [log];
    assert CommandLine([log]) == log;
  }

  /** The words of the flagged log call, spelled out. */
  lemma LogFlagLine(log: string, oneline: string, head: string)
    requires log == "log" && oneline == "oneline" && head == "HEAD"
    ensures "git" + " " + log + " " + ("--" + oneline) + " " + head == "git log --oneline HEAD"
  {
  }

  /** The tokens of a call with one flag and one positional argument. */
  lemma FlagTokens(name: string, key: string, arg: string)
    requires ' ' !in arg
    ensures GitRawCommand(name, [Other(arg)], [Kwarg(key, Bool(true))]) == ["git", name, Flag(key), arg]
  {
    assert GitArgs([Other(arg)]) == [arg];
    assert GitOptions([Kwarg(key, Bool(true))]) == [Flag(key)];
  }

  /**
   * A call from the git command tests with a keyword argument set to
   * `True` and a positional argument, as the command line it runs: the
   * flag comes first.
   */
  lemma ExampleLogFlag(log: string, oneline: string, head: string)
    requires log == "log" && oneline == "oneline" && head == "HEAD"
    ensures GitCall(log, [Other(head)], [Kwarg(oneline, Bool(true))]) == "git log --oneline HEAD"
  {
    PlainKey(log);
    FlagTokens(log, oneline, head);
    JoinFour("git", log, Flag(oneline), head);
    PlainKey(oneline);
    LogFlagLine(log, oneline, head);
  }
}
