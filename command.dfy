/**
 * Building the argument vector of an external command from a Python-style
 * call: `cmd.sub_command(*args, **kwargs)` runs
 * `[executable, 'sub-command', *options, *args]`, where each keyword
 * argument becomes an option (`-k` for a one-letter key, `--key` otherwise),
 * a `True` value gives the bare flag, `False` gives nothing and any other
 * value gives the flag followed by the value's text.
 */
module Commands {
  import opened PyStr

  /**
   * An argument value: a Python `bool`, or any other value, given by its
   * `str()`. Only the bool objects are `True` or `False`: `1` is not.
   */
  datatype PyValue = Bool(b: bool) | Other(text: string)

  /** One keyword argument, in the order of the call. */
  datatype Kwarg = Kwarg(key: string, value: PyValue)

  /** A command runner: only the executable takes part in building commands. */
  datatype Command = Command(executable: string)

  /** `str(value)` */
  function Str(v: PyValue): string
  {
    match v
    case Bool(b) => if b then "True" else "False"
    case Other(text) => text
  }

  /**
   * The subcommand for an attribute name: `_` becomes `-`, so
   * `cmd.rev_parse` runs `rev-parse`.
   */
  function SubcommandName(name: string): (r: string)
    ensures |r| == |name| && '_' !in r
    ensures forall i :: 0 <= i < |name| ==> r[i] == if name[i] == '_' then '-' else name[i]
  {
    ReplaceChar(name, '_', '-')
  }

  /**
   * The option for a keyword: the key with `_` turned into `-`, after one
   * dash when it is a single character and two otherwise.
   */
  function Flag(key: string): (r: string)
    ensures |r| == |key| + (if |key| == 1 then 1 else 2)
    ensures forall i :: 0 <= i < |r| - |key| ==> r[i] == '-'
    ensures r[|r| - |key|..] == SubcommandName(key)
    ensures '_' !in r
  {
    var option := ReplaceChar(key, '_', '-');
    var prefix := if |option| == 1 then "-" else "--";
    prefix + option
  }

  /** `Command._format_option` */
  function FormatOption(key: string, value: PyValue): seq<string>
  {
    if value == Bool(true) then [Flag(key)]
    else if value == Bool(false) then []
    else [Flag(key), Str(value)]
  }

  /** The tokens a keyword argument contributes: one for `True`, none for `False`, two otherwise. */
  function Width(v: PyValue): nat
  {
    if v == Bool(true) then 1 else if v == Bool(false) then 0 else 2
  }

  /** All the options of a call, keyword by keyword in call order. */
  function Options(kwargs: seq<Kwarg>): seq<string>
  {
    if kwargs == [] then []
    else FormatOption(kwargs[0].key, kwargs[0].value) + Options(kwargs[1..])
  }

  /** The text of each positional argument. */
  function ArgStrings(args: seq<PyValue>): (r: seq<string>)
    ensures |r| == |args| && forall i :: 0 <= i < |args| ==> r[i] == Str(args[i])
  {
    seq(|args|, i requires 0 <= i < |args| => Str(args[i]))
  }

  /** `Command._raw_command` */
  function RawCommand(cmd: Command, subcommand: string, args: seq<PyValue>, kwargs: seq<Kwarg>): seq<string>
  {
    [cmd.executable, subcommand] + Options(kwargs) + ArgStrings(args)
  }

  /** The total width of the keyword arguments. */
  function TotalWidth(kwargs: seq<Kwarg>): nat
  {
    if kwargs == [] then 0 else Width(kwargs[0].value) + TotalWidth(kwargs[1..])
  }

  /**
   * The command run for `cmd.name(*args, **kwargs)`: the executable, the
   * subcommand, then every option, then every positional argument's text,
   * the options taking exactly the tokens their values call for.
   */
  function Call(cmd: Command, name: string, args: seq<PyValue>, kwargs: seq<Kwarg>): (r: seq<string>)
    ensures |r| == 2 + TotalWidth(kwargs) + |args|
    ensures r[0] == cmd.executable && r[1] == SubcommandName(name)
    ensures r[2..|r| - |args|] == Options(kwargs)
    ensures forall i :: 0 <= i < |args| ==> r[|r| - |args| + i] == Str(args[i])
  {
    OptionsWidth(kwargs);
    RawCommand(cmd, SubcommandName(name), args, kwargs)
  }

  /** The options take as many tokens as their values call for. */
  lemma {:induction false} OptionsWidth(kwargs: seq<Kwarg>)
    ensures |Options(kwargs)| == TotalWidth(kwargs)
  {
    if kwargs != [] {
      OptionsWidth(kwargs[1..]);
    }
  }

  /**
   * Options keep the order of the keyword arguments: those of a call split
   * in two are the options of the first part followed by those of the
   * second.
   */
  lemma {:induction false} OptionsAppend(a: seq<Kwarg>, b: seq<Kwarg>)
    ensures Options(a + b) == Options(a) + Options(b)
  {
    if a == [] {
      assert a + b == b;
    } else {
      assert (a + b)[1..] == a[1..] + b;
      OptionsAppend(a[1..], b);
    }
  }

  /** A keyword argument set to `False` adds nothing, wherever it stands. */
  lemma FalseOmitted(a: seq<Kwarg>, key: string, b: seq<Kwarg>)
    ensures Options(a + [Kwarg(key, Bool(false))] + b) == Options(a + b)
  {
    OptionsAppend(a + [Kwarg(key, Bool(false))], b);
    OptionsAppend(a, [Kwarg(key, Bool(false))]);
    OptionsAppend(a, b);
  }

  /** Each option's flag starts with a dash and holds no `_`; each value follows its flag. */
  lemma {:induction false} OptionTokens(kwargs: seq<Kwarg>)
    ensures forall t :: t in Options(kwargs) ==>
      (|t| > 0 && t[0] == '-' && '_' !in t) || exists k :: k in kwargs && !k.value.Bool? && t == k.value.text
  {
    if kwargs != [] {
      OptionTokens(kwargs[1..]);
      var k := kwargs[0];
      assert k in kwargs;
      forall k' | k' in kwargs[1..]
        ensures k' in kwargs
      {
      }
      var f := Flag(k.key);
      assert |f| > |k.key| && f[0] == '-';
    }
  }

  /** A key without `_` is used as it is, after its dashes. */
  lemma PlainKey(key: string)
    requires '_' !in key
    ensures SubcommandName(key) == key
    ensures Flag(key) == (if |key| == 1 then "-" else "--") + key
  {
    assert SubcommandName(key) == key;
  }

  /** Calls from the command tests without keyword arguments. */
  lemma ExamplePositional()
    ensures Call(Command("git"), "status", [], []) == ["git", "status"]
    ensures Call(Command("git"), "status", [Other("src")], []) == ["git", "status", "src"]
  {
    PlainKey("status");
  }

  /** Calls from the command tests with a non-boolean keyword argument: `n=1` is no flag. */
  lemma ExampleValues()
    ensures Call(Command("git"), "log", [], [Kwarg("n", Other("3"))]) == ["git", "log", "-n", "3"]
    ensures Call(Command("git"), "log", [], [Kwarg("n", Other("1"))]) == ["git", "log", "-n", "1"]
  {
    PlainKey("log");
    PlainKey("n");
    assert Flag("n") == "-n";
    assert Options([Kwarg("n", Other("3"))]) == ["-n", "3"];
    assert Options([Kwarg("n", Other("1"))]) == ["-n", "1"];
  }

  /** A call with one keyword set to `True`: the bare flag, before the arguments. */
  lemma OneFlag(exe: string, name: string, args: seq<PyValue>, key: string)
    ensures Call(Command(exe), name, args, [Kwarg(key, Bool(true))]) == [exe, SubcommandName(name), Flag(key)] + ArgStrings(args)
  {
    assert Options([Kwarg(key, Bool(true))]) == [Flag(key)];
  }

  /** A call with one keyword set to `False`: no option at all. */
  lemma NoFlag(exe: string, name: string, args: seq<PyValue>, key: string)
    ensures Call(Command(exe), name, args, [Kwarg(key, Bool(false))]) == [exe, SubcommandName(name)] + ArgStrings(args)
  {
    assert Options([Kwarg(key, Bool(false))]) == [];
  }

  /** The words of the flagged log calls, spelled out. */
  lemma OnelineWords(log: string, oneline: string)
    requires log == "log" && oneline == "oneline"
    ensures SubcommandName(log) == "log" && Flag(oneline) == "--oneline"
  {
    PlainKey(log);
    PlainKey(oneline);
  }

  /**
   * Calls from the command tests with boolean keyword arguments, options
   * before arguments (the words are parameters so that the tokens are
   * derived rather than evaluated).
   */
  lemma ExampleFlags(log: string, oneline: string, head: string)
    requires log == "log" && oneline == "oneline" && head == "HEAD"
    ensures Call(Command("git"), log, [], [Kwarg(oneline, Bool(true))]) == ["git", "log", "--oneline"]
    ensures Call(Command("git"), log, [], [Kwarg(oneline, Bool(false))]) == ["git", "log"]
    ensures Call(Command("git"), log, [Other(head)], [Kwarg(oneline, Bool(true))]) == ["git", "log", "--oneline", "HEAD"]
  {
    OneFlag("git", log, [], oneline);
    NoFlag("git", log, [], oneline);
    OneFlag("git", log, [Other(head)], oneline);
    assert ArgStrings([]) == [];
    assert ArgStrings([Other(head)]) == [head];
    OnelineWords(log, oneline);
  }
}
