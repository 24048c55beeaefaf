/**
 * How a POSIX shell cuts the command line of the git runner into words,
 * restricted to what the runner can produce: blanks between words, single
 * quotes (everything up to the next `'` is taken literally, section 2.2.2
 * of the POSIX Shell Command Language) and a backslash outside quotes
 * (the next character is taken literally, section 2.2.1). Every other
 * character stands for itself.
 *
 * With it: the value formatting of the git runner as written breaks the
 * command line for values holding a single quote, and a corrected
 * quoting (`'` written as `'\''`) gives back every token as one word.
 */
module ShellWords {
  import opened Wrappers
  import opened PyStr
  import opened Commands
  import opened GitCommands

  /**
   * Scans `s`, with the words already finished in `done`, the word being
   * built in `cur`, whether a word has started (`inWord`, since `''` starts
   * an empty word) and whether a single quote is open. `None` when the
   * line ends inside quotes or right after a backslash.
   */
  function Scan(s: string, done: seq<string>, cur: string, inWord: bool, quoted: bool): Option<seq<string>>
    decreases |s|
  {
    if s == [] then
      if quoted then None
      else Some(if inWord then done + [cur] else done)
    else if quoted then
      if s[0] == '\'' then Scan(s[1..], done, cur, true, false)
      else Scan(s[1..], done, cur + [s[0]], true, true)
    else if s[0] == ' ' then
      if inWord then Scan(s[1..], done + [cur], [], false, false)
      else Scan(s[1..], done, [], false, false)
    else if s[0] == '\'' then Scan(s[1..], done, cur, true, true)
    else if s[0] == '\\' then
      if |s| < 2 then None
      else Scan(s[2..], done, cur + [s[1]], true, false)
    else Scan(s[1..], done, cur + [s[0]], true, false)
  }

  /** The words of a command line, or `None` when the shell cannot read it. */
  function Words(line: string): Option<seq<string>>
  {
    Scan(line, [], [], false, false)
  }

  /** Characters that need no quoting: letters, digits and `@%+=:,./-_`. */
  predicate SafeChar(c: char)
  {
    ('a' <= c <= 'z') || ('A' <= c <= 'Z') || ('0' <= c <= '9') || c in "@%+=:,./-_"
  }

  predicate Safe(s: string)
  {
    forall i :: 0 <= i < |s| ==> SafeChar(s[i])
  }

  /** The inside of single quotes: each `'` closes the quote, adds an escaped `'` and reopens. */
  function QuoteBody(s: string): (r: string)
    ensures |r| >= |s|
  {
    if s == [] then []
    else (if s[0] == '\'' then "'\\''" else [s[0]]) + QuoteBody(s[1..])
  }

  /**
   * The corrected `_format_value`: a value holding a blank is put in single
   * quotes with each of its quotes written `'\''`; any other value is
   * handed to the shell as it is, exactly as the runner as written does.
   */
  function QuoteValue(v: PyValue): (r: string)
    ensures ' ' !in Str(v) ==> r == FormatValue(v)
    ensures ' ' in Str(v) ==> |r| >= 2 && r[0] == '\'' && r[|r| - 1] == '\''
  {
    var value := Str(v);
    if ' ' in value then "'" + QuoteBody(value) + "'"
    else value
  }

  /**
   * A value the shell reads back as its own text once corrected: one
   * holding a blank (it is quoted), or a non-empty one made of characters
   * the shell gives no meaning to.
   */
  predicate Readable(v: PyValue)
  {
    ' ' in Str(v) || (Str(v) != [] && Safe(Str(v)))
  }

  /** Every value of `vs` is `Readable`. */
  predicate AllReadable(vs: seq<PyValue>)
  {
    forall i :: 0 <= i < |vs| ==> Readable(vs[i])
  }

  /** The values standing for the options of a call: the flag, then the value unless it is a bool. */
  function OptionValues(kwargs: seq<Kwarg>): seq<PyValue>
  {
    if kwargs == [] then []
    else
      var k := kwargs[0];
      var here := if k.value == Bool(true) then [Other(Flag(k.key))]
                  else if k.value == Bool(false) then []
                  else [Other(Flag(k.key)), k.value];
      here + OptionValues(kwargs[1..])
  }

  /** Every token of `git.name(*args, **kwargs)`, before formatting. */
  function CallValues(name: string, args: seq<PyValue>, kwargs: seq<Kwarg>): seq<PyValue>
  {
    [Other("git"), Other(SubcommandName(name))] + OptionValues(kwargs) + args
  }

  function QuotedArgs(args: seq<PyValue>): (r: seq<string>)
    ensures |r| == |args| && forall i :: 0 <= i < |args| ==> r[i] == QuoteValue(args[i])
  {
    seq(|args|, i requires 0 <= i < |args| => QuoteValue(args[i]))
  }

  /** The command line of `git.name(*args, **kwargs)` with the corrected quoting of every token. */
  function QuotedGitCall(name: string, args: seq<PyValue>, kwargs: seq<Kwarg>): string
  {
    CommandLine(QuotedArgs(CallValues(name, args, kwargs)))
  }

  /** The texts of the option values are the options the generic runner builds. */
  lemma {:induction false} OptionValueStrings(kwargs: seq<Kwarg>)
    ensures ArgStrings(OptionValues(kwargs)) == Options(kwargs)
  {
    if kwargs != [] {
      OptionValueStrings(kwargs[1..]);
      var k := kwargs[0];
      var here := if k.value == Bool(true) then [Other(Flag(k.key))]
                  else if k.value == Bool(false) then []
                  else [Other(Flag(k.key)), k.value];
      ArgStringsAppend(here, OptionValues(kwargs[1..]));
      assert ArgStrings(here) == FormatOption(k.key, k.value);
    }
  }

  lemma ArgStringsAppend(a: seq<PyValue>, b: seq<PyValue>)
    ensures ArgStrings(a + b) == ArgStrings(a) + ArgStrings(b)
  {
  }

  /** The texts of the call's tokens are the command the generic runner builds for `git`. */
  lemma CallValueStrings(name: string, args: seq<PyValue>, kwargs: seq<Kwarg>)
    ensures ArgStrings(CallValues(name, args, kwargs)) == RawCommand(Command("git"), SubcommandName(name), args, kwargs)
  {
    var head := [Other("git"), Other(SubcommandName(name))];
    ArgStringsAppend(head + OptionValues(kwargs), args);
    ArgStringsAppend(head, OptionValues(kwargs));
    OptionValueStrings(kwargs);
    assert ArgStrings(head) == ["git", SubcommandName(name)];
  }

  /** Safe characters are read one by one into the current word. */
  lemma {:induction false} ScanSafe(t: string, rest: string, done: seq<string>, cur: string, inWord: bool)
    requires Safe(t)
    ensures Scan(t + rest, done, cur, inWord, false) == Scan(rest, done, cur + t, inWord || t != [], false)
  {
    if t == [] {
      assert t + rest == rest;
      assert cur + t == cur;
    } else {
      assert SafeChar(t[0]);
      assert "@%+=:,./-_"[0] == '@';
      assert t[0] != ' ' && t[0] != '\'' && t[0] != '\\';
      assert Safe(t[1..]) by {
        forall i | 0 <= i < |t[1..]|
          ensures SafeChar(t[1..][i])
        {
          assert t[1..][i] == t[i + 1];
        }
      }
      assert (t + rest)[1..] == t[1..] + rest;
      ScanSafe(t[1..], rest, done, cur + [t[0]], true);
      assert cur + [t[0]] + t[1..] == cur + t;
    }
  }

  /** Outside quotes, `'` opens a quote. */
  lemma ScanOpen(t: string, done: seq<string>, cur: string, inWord: bool)
    ensures Scan("'" + t, done, cur, inWord, false) == Scan(t, done, cur, true, true)
  {
    assert ("'" + t)[1..] == t;
  }

  /** Inside quotes, `'` closes the quote. */
  lemma ScanClose(t: string, done: seq<string>, cur: string, inWord: bool)
    ensures Scan("'" + t, done, cur, inWord, true) == Scan(t, done, cur, true, false)
  {
    assert ("'" + t)[1..] == t;
  }

  /** Inside quotes, any other character is taken as it is. */
  lemma ScanQuotedChar(c: char, t: string, done: seq<string>, cur: string, inWord: bool)
    requires c != '\''
    ensures Scan([c] + t, done, cur, inWord, true) == Scan(t, done, cur + [c], true, true)
  {
    assert ([c] + t)[1..] == t;
  }

  /** Outside quotes, a backslash makes the next character literal. */
  lemma ScanEscaped(c: char, t: string, done: seq<string>, cur: string, inWord: bool)
    ensures Scan(['\\', c] + t, done, cur, inWord, false) == Scan(t, done, cur + [c], true, false)
  {
    assert (['\\', c] + t)[2..] == t;
  }

  /** Outside quotes, a blank ends the word being built. */
  lemma ScanBlank(t: string, done: seq<string>, word: string)
    ensures Scan(" " + t, done, word, true, false) == Scan(t, done + [word], [], false, false)
  {
    assert (" " + t)[1..] == t;
  }

  /** The inside of a quote, up to its closing `'`, is read into the current word as the value. */
  lemma {:induction false} ScanQuoteBody(t: string, rest: string, done: seq<string>, cur: string)
    ensures Scan(QuoteBody(t) + "'" + rest, done, cur, true, true) == Scan(rest, done, cur + t, true, false)
  {
    if t == [] {
      assert QuoteBody(t) + "'" + rest == "'" + rest;
      ScanClose(rest, done, cur, true);
      assert cur + t == cur;
    } else {
      var tail := QuoteBody(t[1..]) + "'" + rest;
      ScanQuoteBody(t[1..], rest, done, cur + [t[0]]);
      assert cur + [t[0]] + t[1..] == cur + t;
      assert QuoteBody(t) + "'" + rest == (if t[0] == '\'' then "'\\''" else [t[0]]) + tail;
      ScanQuotedStep(t[0], tail, done, cur);
    }
  }

  /** One character of a value, as written inside a quote, is read back as that character. */
  lemma ScanQuotedStep(c: char, tail: string, done: seq<string>, cur: string)
    ensures Scan((if c == '\'' then "'\\''" else [c]) + tail, done, cur, true, true) == Scan(tail, done, cur + [c], true, true)
  {
    if c == '\'' {
      assert "'\\''" + tail == "'" + (['\\', '\''] + ("'" + tail));
      ScanClose(['\\', '\''] + ("'" + tail), done, cur, true);
      ScanEscaped('\'', "'" + tail, done, cur, true);
      ScanOpen(tail, done, cur + ['\''], true);
    } else {
      ScanQuotedChar(c, tail, done, cur, true);
    }
  }

  /** A readable value, corrected, is read as exactly its text, whatever follows it. */
  lemma ScanQuoteValue(v: PyValue, rest: string, done: seq<string>)
    requires Readable(v)
    ensures Scan(QuoteValue(v) + rest, done, [], false, false) == Scan(rest, done, Str(v), true, false)
  {
    var value := Str(v);
    if ' ' !in value {
      ScanSafe(value, rest, done, [], false);
      assert [] + value == value;
    } else {
      assert "'" + QuoteBody(value) + "'" + rest == "'" + (QuoteBody(value) + "'" + rest);
      ScanOpen(QuoteBody(value) + "'" + rest, done, [], false);
      ScanQuoteBody(value, rest, done, []);
      assert [] + value == value;
    }
  }

  /** A corrected value then a blank: the value is read as a finished word. */
  lemma ScanWordThenBlank(v: PyValue, rest: string, done: seq<string>)
    requires Readable(v)
    ensures Scan(QuoteValue(v) + " " + rest, done, [], false, false) == Scan(rest, done + [Str(v)], [], false, false)
  {
    assert QuoteValue(v) + " " + rest == QuoteValue(v) + (" " + rest);
    ScanQuoteValue(v, " " + rest, done);
    ScanBlank(rest, done, Str(v));
  }

  /** A corrected value alone on the line is read as one word. */
  lemma ScanLastWord(v: PyValue, done: seq<string>)
    requires Readable(v)
    ensures Scan(QuoteValue(v), done, [], false, false) == Some(done + [Str(v)])
  {
    assert QuoteValue(v) + [] == QuoteValue(v);
    ScanQuoteValue(v, [], done);
  }

  /** The first of several corrected values is read as the first word. */
  lemma ScanJoinedStep(vs: seq<PyValue>, done: seq<string>)
    requires |vs| >= 2 && Readable(vs[0])
    ensures Scan(CommandLine(QuotedArgs(vs)), done, [], false, false)
         == Scan(CommandLine(QuotedArgs(vs[1..])), done + [Str(vs[0])], [], false, false)
  {
    var qs := QuotedArgs(vs);
    JoinFirst(qs);
    assert QuotedArgs(vs[1..]) == qs[1..];
    ScanWordThenBlank(vs[0], CommandLine(qs[1..]), done);
  }

  /** Corrected values joined with blanks are read back as the values, one word each. */
  lemma {:induction false} ScanJoined(vs: seq<PyValue>, done: seq<string>)
    requires AllReadable(vs)
    ensures Scan(CommandLine(QuotedArgs(vs)), done, [], false, false) == Some(done + ArgStrings(vs))
  {
    if |vs| == 0 {
      assert done + ArgStrings(vs) == done;
    } else if |vs| == 1 {
      ScanSingle(vs, done);
    } else {
      ScanJoinedStep(vs, done);
      assert AllReadable(vs[1..]) by {
        forall i | 0 <= i < |vs[1..]|
          ensures Readable(vs[1..][i])
        {
          assert vs[1..][i] == vs[i + 1];
        }
      }
      ScanJoined(vs[1..], done + [Str(vs[0])]);
      ArgStringsFirst(vs, done);
    }
  }

  lemma ScanSingle(vs: seq<PyValue>, done: seq<string>)
    requires |vs| == 1 && Readable(vs[0])
    ensures Scan(CommandLine(QuotedArgs(vs)), done, [], false, false) == Some(done + ArgStrings(vs))
  {
    assert CommandLine(QuotedArgs(vs)) == QuoteValue(vs[0]);
    ScanLastWord(vs[0], done);
    assert ArgStrings(vs) == [Str(vs[0])];
  }

  lemma ArgStringsFirst(vs: seq<PyValue>, done: seq<string>)
    requires |vs| >= 1
    ensures done + [Str(vs[0])] + ArgStrings(vs[1..]) == done + ArgStrings(vs)
  {
    assert ArgStrings(vs) == [Str(vs[0])] + ArgStrings(vs[1..]);
  }

  /** Readable values, corrected and joined with blanks, are read back as their texts, one word each. */
  lemma QuotedRoundTrip(vs: seq<PyValue>)
    requires AllReadable(vs)
    ensures Words(CommandLine(QuotedArgs(vs))) == Some(ArgStrings(vs))
  {
    ScanJoined(vs, []);
    assert [] + ArgStrings(vs) == ArgStrings(vs);
  }

  /**
   * The property the runner needs: with the corrected quoting, the shell
   * reads the command line of `git.name(*args, **kwargs)` as exactly the
   * argument vector the generic command runner builds for `git`, whenever
   * each token either holds a blank (whatever else it holds, quotes
   * included) or is made of characters the shell gives no meaning to.
   */
  lemma QuotedGitCallWords(name: string, args: seq<PyValue>, kwargs: seq<Kwarg>)
    requires AllReadable(CallValues(name, args, kwargs))
    ensures Words(QuotedGitCall(name, args, kwargs)) == Some(RawCommand(Command("git"), SubcommandName(name), args, kwargs))
  {
    QuotedRoundTrip(CallValues(name, args, kwargs));
    CallValueStrings(name, args, kwargs);
  }

  /**
   * The correction changes exactly the values the written formatting gets
   * wrong: those holding both a blank and a single quote. Every other value,
   * `--format="%B"` among them, is formatted as before.
   */
  lemma SameAsWritten(v: PyValue)
    ensures QuoteValue(v) == FormatValue(v) <==> ' ' !in Str(v) || '\'' !in Str(v)
  {
    var value := Str(v);
    if ' ' in value {
      if '\'' in value {
        BodiesDiffer(value);
        var q, f := QuoteValue(v), FormatValue(v);
        if q == f {
          assert q[1..|q| - 1] == QuoteBody(value);
          assert f[1..|f| - 1] == Escape(value);
        }
      } else {
        EscapePlain(value);
        QuoteBodyPlain(value);
      }
    }
  }

  /** A text holding a quote is quoted differently by the two formattings. */
  lemma {:induction false} BodiesDiffer(s: string)
    requires '\'' in s
    ensures QuoteBody(s) != Escape(s)
  {
    if s[0] == '\'' {
      assert QuoteBody(s)[0] == '\'' && Escape(s)[0] == '\\';
    } else {
      assert '\'' in s[1..] by {
        var i :| 0 <= i < |s| && s[i] == '\'';
        assert s[1..][i - 1] == '\'';
      }
      BodiesDiffer(s[1..]);
      var a, b := QuoteBody(s[1..]), Escape(s[1..]);
      assert QuoteBody(s) == [s[0]] + a && Escape(s) == [s[0]] + b;
      assert ([s[0]] + a)[1..] == a && ([s[0]] + b)[1..] == b;
    }
  }

  /** Quoting changes nothing inside a text without quotes. */
  lemma {:induction false} QuoteBodyPlain(s: string)
    requires '\'' !in s
    ensures QuoteBody(s) == s
  {
    if s != [] {
      NotInTail(s, '\'');
      QuoteBodyPlain(s[1..]);
      assert [s[0]] + s[1..] == s;
    }
  }

  /** A character missing from a text is missing from its tail too. */
  lemma NotInTail(s: string, c: char)
    requires s != [] && c !in s
    ensures s[0] != c && c !in s[1..]
  {
    forall i | 0 <= i < |s[1..]|
      ensures s[1..][i] != c
    {
      assert s[1..][i] == s[i + 1];
    }
  }

  /** Escaping distributes over concatenation. */
  lemma {:induction false} EscapeAppend(a: string, b: string)
    ensures Escape(a + b) == Escape(a) + Escape(b)
  {
    if a != [] {
      assert (a + b)[1..] == a[1..] + b;
      EscapeAppend(a[1..], b);
    } else {
      assert a + b == b;
    }
  }

  /** Escaping changes nothing in a value without quotes. */
  lemma {:induction false} EscapePlain(s: string)
    requires '\'' !in s
    ensures Escape(s) == s
  {
    if s != [] {
      NotInTail(s, '\'');
      EscapePlain(s[1..]);
      assert [s[0]] + s[1..] == s;
    }
  }

  /** Inside quotes, a text without `'` is read into the current word as it is. */
  lemma {:induction false} ScanQuotedPlain(s: string, rest: string, done: seq<string>, cur: string)
    requires '\'' !in s
    ensures Scan(s + rest, done, cur, true, true) == Scan(rest, done, cur + s, true, true)
  {
    if s == [] {
      assert s + rest == rest;
      assert cur + s == cur;
    } else {
      NotInTail(s, '\'');
      assert (s + rest)[1..] == s[1..] + rest;
      ScanQuotedPlain(s[1..], rest, done, cur + [s[0]]);
      assert cur + [s[0]] + s[1..] == cur + s;
    }
  }

  /** Outside quotes, a text without quotes or backslashes followed by a lone `'` leaves a quote open. */
  lemma {:induction false} ScanOpenQuote(s: string, done: seq<string>, cur: string, inWord: bool)
    requires '\'' !in s && '\\' !in s
    ensures Scan(s + "'", done, cur, inWord, false) == None
  {
    if s == [] {
      assert s + "'" == "'";
      assert "'"[1..] == [];
    } else {
      NotInTail(s, '\'');
      NotInTail(s, '\\');
      assert (s + "'")[1..] == s[1..] + "'";
      if s[0] == ' ' {
        ScanOpenQuote(s[1..], if inWord then done + [cur] else done, [], false);
      } else {
        ScanOpenQuote(s[1..], done, cur + [s[0]], true);
      }
    }
  }

  /** A value without blanks, quotes or backslashes is read as one word. */
  lemma {:induction false} PlainOutsideQuotes(s: string, cur: string, inWord: bool)
    requires s != [] && ' ' !in s && '\'' !in s && '\\' !in s
    ensures Scan(s, [], cur, inWord, false) == Some([cur + s])
  {
    if |s| == 1 {
      assert s[1..] == [];
      assert cur + [s[0]] == cur + s;
      assert [] + [cur + s] == [cur + s];
    } else {
      NotInTail(s, ' ');
      NotInTail(s, '\'');
      NotInTail(s, '\\');
      PlainOutsideQuotes(s[1..], cur + [s[0]], true);
      assert cur + [s[0]] + s[1..] == cur + s;
    }
  }

  /**
   * The formatting as written is right as long as the value holds no `'`
   * or `\` and is not empty: the shell then reads it back as the value.
   */
  lemma FormatValueReadable(v: PyValue)
    requires Str(v) != [] && '\'' !in Str(v) && '\\' !in Str(v)
    ensures Words(FormatValue(v)) == Some([Str(v)])
  {
    var value := Str(v);
    if ' ' in value {
      EscapePlain(value);
      assert FormatValue(v) == "'" + value + "'";
      QuotedPlainWord(value);
    } else {
      PlainOutsideQuotes(value, [], false);
      assert [] + value == value;
    }
  }

  /** A text without `'`, put in quotes, is read as one word. */
  lemma QuotedPlainWord(value: string)
    requires '\'' !in value
    ensures Words("'" + value + "'") == Some([value])
  {
    assert "'" + value + "'" == "'" + (value + "'");
    ScanOpen(value + "'", [], [], false);
    ScanQuotedPlain(value, "'", [], []);
    assert [] + value == value;
    assert "'" == "'" + [];
    ScanClose([], [], value, true);
    assert [] + [value] == [value];
  }

  /**
   * The formatting as written breaks the command line for a value holding
   * a blank and one single quote: the quote is written `\'` inside single
   * quotes, where the backslash is literal, so that `'` closes the quotes
   * and the closing `'` opens a quote that never ends.
   */
  lemma {:induction false} ApostropheBreaks(a: string, b: string)
    requires ' ' in a + b
    requires '\'' !in a && '\\' !in a && '\'' !in b && '\\' !in b
    ensures Escape(a + "'" + b) == a + "\\'" + b
    ensures Words(FormatValue(Other(a + "'" + b))) == None
  {
    var value := a + "'" + b;
    assert ' ' in value by {
      if ' ' in a {
        var i :| 0 <= i < |a| && a[i] == ' ';
        assert value[i] == ' ';
      } else {
        var i :| 0 <= i < |b| && b[i] == ' ';
        assert value[|a| + 1 + i] == ' ';
      }
    }
    EscapeApostrophe(a, b);
    assert FormatValue(Other(value)) == "'" + (a + "\\'" + b) + "'";
    BrokenQuote(a, b);
  }

  lemma EscapeApostrophe(a: string, b: string)
    requires '\'' !in a && '\'' !in b
    ensures Escape(a + "'" + b) == a + "\\'" + b
  {
    EscapeAppend(a + "'", b);
    EscapeAppend(a, "'");
    EscapePlain(a);
    EscapePlain(b);
    assert Escape("'") == "\\'";
  }

  /** `'a\'b'` leaves a quote open when `a` and `b` hold no quotes or backslashes. */
  lemma BrokenQuote(a: string, b: string)
    requires '\'' !in a && '\\' !in a && '\'' !in b && '\\' !in b
    ensures Words("'" + (a + "\\'" + b) + "'") == None
  {
    var e := a + "\\'" + b;
    assert "'" + e + "'" == "'" + (e + "'");
    ScanOpen(e + "'", [], [], false);
    assert e + "'" == a + (['\\'] + ("'" + (b + "'")));
    ScanQuotedPlain(a, ['\\'] + ("'" + (b + "'")), [], []);
    ScanQuotedChar('\\', "'" + (b + "'"), [], [] + a, true);
    ScanClose(b + "'", [], [] + a + ['\\'], true);
    ScanOpenQuote(b, [], [] + a + ['\\'], true);
  }

  /** The value `it's ok`, formatted as written, cannot be read by the shell. */
  lemma ApostropheBreaksLine(value: string)
    requires value == "it's ok"
    ensures Words(FormatValue(Other(value))) == None
  {
    var a, b := "it", "s ok";
    assert value == a + "'" + b;
    assert b[1] == ' ';
    ApostropheBreaks(a, b);
  }

  /** The corrected quoting reads the same value back. */
  lemma ApostropheQuoted(value: string)
    requires value == "it's ok"
    ensures Words(QuoteValue(Other(value))) == Some([value])
  {
    ScanLastWord(Other(value), []);
    assert [] + [value] == [value];
  }
}
