/**
  The two quoting layers of run_networksetup_batch in
  redog-gui/src-tauri/src/sysproxy.rs: shell words inside an AppleScript string.
  The decoders are the readers on the other side: AppleScript's string literal,
  and the word splitting of section 2.2 of the POSIX Shell Command Language.
 */
module ShellQuoting {
  import opened Options
  import opened Text

  // ---- What the program emits ----

  /** s.replace(c, with') for a single character. */
  function Replace(s: string, c: char, with': string): string {
    if s == "" then ""
    else (if s[0] == c then with' else [s[0]]) + Replace(s[1..], c, with')
  }

  function Quote(arg: string): string {
    "'" + Replace(arg, '\'', "'\\''") + "'"
  }

  function QuoteAll(args: seq<string>): seq<string> {
    if args == [] then [] else [Quote(args[0])] + QuoteAll(args[1..])
  }

  function ShellLine(args: seq<string>): string {
    "networksetup " + Join(QuoteAll(args), " ")
  }

  function ShellLines(commands: seq<seq<string>>): seq<string> {
    if commands == [] then [] else [ShellLine(commands[0])] + ShellLines(commands[1..])
  }

  function ShellScript(commands: seq<seq<string>>): string {
    Join(ShellLines(commands), " && ")
  }

  function AppleEscape(s: string): string {
    Replace(Replace(s, '\\', "\\\\"), '"', "\\\"")
  }

  const PREFIX := "do shell script \""
  const SUFFIX := " with administrator privileges"

  function AppleScript(commands: seq<seq<string>>): string {
    PREFIX + (AppleEscape(ShellScript(commands)) + ("\"" + SUFFIX))
  }

  // ---- What the readers make of it ----

  /** The text of a string literal after its opening quote, and what follows its closing one. */
  function ReadAppleString(s: string): Option<(string, string)> {
    if s == "" then None
    else if s[0] == '"' then Some(("", s[1..]))
    else if s[0] == '\\' then
      if |s| < 2 then None
      else
        var c := UnescapeApple(s[1]);
        var rest := ReadAppleString(s[2..]);
        if c.None? || rest.None? then None else Some(([c.value] + rest.value.0, rest.value.1))
    else
      var rest := ReadAppleString(s[1..]);
      if rest.None? then None else Some(([s[0]] + rest.value.0, rest.value.1))
  }

  function UnescapeApple(c: char): Option<char> {
    if c == '\\' || c == '"' then Some(c)
    else if c == 'n' then Some('\n')
    else if c == 'r' then Some('\r')
    else if c == 't' then Some('\t')
    else None
  }

  /** Characters that stand for themselves outside quotes, anywhere in a word. */
  predicate IsPlain(c: char) {
    && c != '|' && c != '&' && c != ';' && c != '<' && c != '>' && c != '(' && c != ')'
    && c != '$' && c != '`' && c != '\\' && c != '"' && c != '\'' && c != ' ' && c != '\t' && c != '\n'
    && c != '*' && c != '?' && c != '[' && c != ']' && c != '#' && c != '~' && c != '=' && c != '%'
    && c != '!' && c != '{' && c != '}'
  }

  function EndWord(word: Option<string>, words: seq<string>): seq<string> {
    if word.Some? then words + [word.value] else words
  }

  /**
    The commands of a script: words of plain characters, backslash escapes and
    single-quoted strings, commands joined by &&. Anything else is None. `word`
    is the word being read, `words` those before it in the command.
   */
  function ReadShell(s: string, quoted: bool, word: Option<string>, words: seq<string>,
                     done: seq<seq<string>>): Option<seq<seq<string>>> {
    if quoted then
      if s == "" || word.None? then None
      else if s[0] == '\'' then ReadShell(s[1..], false, word, words, done)
      else ReadShell(s[1..], true, Some(word.value + [s[0]]), words, done)
    else if s == "" then
      var command := EndWord(word, words);
      if command != [] then Some(done + [command]) else if done == [] then Some([]) else None
    else if s[0] == ' ' || s[0] == '\t' then
      ReadShell(s[1..], false, None, EndWord(word, words), done)
    else if s[0] == '\'' then
      ReadShell(s[1..], true, Some(if word.Some? then word.value else ""), words, done)
    else if s[0] == '\\' then
      if |s| < 2 then None
      else if s[1] == '\n' then ReadShell(s[2..], false, word, words, done)
      else ReadShell(s[2..], false, Some((if word.Some? then word.value else "") + [s[1]]), words, done)
    else if StartsWith(s, "&&") then
      var command := EndWord(word, words);
      if command == [] then None else ReadShell(s[2..], false, None, [], done + [command])
    else if IsPlain(s[0]) then
      ReadShell(s[1..], false, Some((if word.Some? then word.value else "") + [s[0]]), words, done)
    else None
  }

  /** The commands an AppleScript source hands to the shell, asking for administrator rights. */
  function ReadCommands(source: string): Option<seq<seq<string>>> {
    var literal := StripPrefix(source, "do shell script \"");
    if literal.None? then None
    else
      var script := ReadAppleString(literal.value);
      if script.None? || script.value.1 != " with administrator privileges" then None
      else ReadShell(script.value.0, false, None, [], [])
  }

  function WithProgram(commands: seq<seq<string>>): seq<seq<string>> {
    if commands == [] then [] else [["networksetup"] + commands[0]] + WithProgram(commands[1..])
  }

  // ---- The AppleScript layer ----

  lemma {:induction false} ReplaceConcat(a: string, b: string, c: char, with': string)
    ensures Replace(a + b, c, with') == Replace(a, c, with') + Replace(b, c, with')
  {
    if a == "" {
      assert a + b == b;
    } else {
      assert (a + b)[1..] == a[1..] + b;
      ReplaceConcat(a[1..], b, c, with');
    }
  }

  function EscapeChar(c: char): string {
    if c == '\\' then "\\\\" else if c == '"' then "\\\"" else [c]
  }

  lemma EscapeStep(s: string)
    requires s != ""
    ensures AppleEscape(s) == EscapeChar(s[0]) + AppleEscape(s[1..])
  {
    var first := if s[0] == '\\' then "\\\\" else [s[0]];
    ReplaceConcat(first, Replace(s[1..], '\\', "\\\\"), '"', "\\\"");
    assert Replace("\\\\", '"', "\\\"") == "\\\\" by {
      assert "\\\\"[1..] == "\\";
      assert "\\"[1..] == "";
    }
    assert Replace([s[0]], '"', "\\\"") == if s[0] == '"' then "\\\"" else [s[0]] by {
      assert [s[0]][1..] == "";
    }
  }

  lemma AppleEnd(rest: string)
    ensures ReadAppleString(AppleEscape("") + ("\"" + rest)) == Some(("", rest))
  {
    var tail := "\"" + rest;
    assert AppleEscape("") + tail == tail;
    assert tail[0] == '"' && tail[1..] == rest;
  }

  lemma {:induction false} AppleRoundTrip(s: string, rest: string)
    ensures ReadAppleString(AppleEscape(s) + ("\"" + rest)) == Some((s, rest))
  {
    hide AppleEscape, ReadAppleString, EscapeChar;
    var tail := "\"" + rest;
    if s == "" {
      AppleEnd(rest);
    } else {
      EscapeStep(s);
      AppleRoundTrip(s[1..], rest);
      ReadEscaped(s[0], AppleEscape(s[1..]) + tail);
      assert AppleEscape(s) + tail == EscapeChar(s[0]) + (AppleEscape(s[1..]) + tail);
      assert [s[0]] + s[1..] == s;
    }
  }

  lemma ReadEscaped(c: char, more: string)
    ensures ReadAppleString(more).Some? ==>
              ReadAppleString(EscapeChar(c) + more)
              == Some(([c] + ReadAppleString(more).value.0, ReadAppleString(more).value.1))
  {
    var s := EscapeChar(c) + more;
    if c == '\\' || c == '"' {
      assert s[0] == '\\' && s[1] == c && s[2..] == more;
    } else {
      assert s[1..] == more;
    }
  }

  // ---- The shell layer ----

  lemma {:induction false} QuotedReads(arg: string, rest: string, before: string, words: seq<string>,
                                       done: seq<seq<string>>)
    ensures ReadShell(Replace(arg, '\'', "'\\''") + ("'" + rest), true, Some(before), words, done)
            == ReadShell(rest, false, Some(before + arg), words, done)
  {
    var s := Replace(arg, '\'', "'\\''") + ("'" + rest);
    if arg == "" {
      assert s[1..] == rest;
      assert before + arg == before;
    } else {
      var more := Replace(arg[1..], '\'', "'\\''") + ("'" + rest);
      QuotedReads(arg[1..], rest, before + [arg[0]], words, done);
      assert before + [arg[0]] + arg[1..] == before + arg;
      if arg[0] == '\'' {
        assert s == "'\\''" + more;
        ReadQuoteEscape(more, before, words, done);
      } else {
        assert s[0] == arg[0] && s[1..] == more;
      }
    }
  }

  lemma ReadQuoteEscape(more: string, before: string, words: seq<string>, done: seq<seq<string>>)
    ensures ReadShell("'\\''" + more, true, Some(before), words, done)
            == ReadShell(more, true, Some(before + "'"), words, done)
  {
    var s := "'\\''" + more;
    var s1 := "\\''" + more;
    var s2 := "'" + more;
    assert s[0] == '\'' && s[1..] == s1;
    assert ReadShell(s, true, Some(before), words, done) == ReadShell(s1, false, Some(before), words, done);
    assert s1[0] == '\\' && s1[1] == '\'' && s1[2..] == s2;
    assert ReadShell(s1, false, Some(before), words, done) == ReadShell(s2, false, Some(before + "'"), words, done);
    assert s2[0] == '\'' && s2[1..] == more;
  }

  lemma ArgReads(arg: string, rest: string, words: seq<string>, done: seq<seq<string>>)
    ensures ReadShell(Quote(arg) + rest, false, None, words, done) == ReadShell(rest, false, Some(arg), words, done)
  {
    var s := Quote(arg) + rest;
    assert s[0] == '\'' && s[1..] == Replace(arg, '\'', "'\\''") + ("'" + rest);
    QuotedReads(arg, rest, "", words, done);
    assert "" + arg == arg;
  }

  lemma SpaceReads(rest: string, word: Option<string>, words: seq<string>, done: seq<seq<string>>)
    ensures ReadShell(" " + rest, false, word, words, done) == ReadShell(rest, false, None, EndWord(word, words), done)
  {
    assert (" " + rest)[1..] == rest;
  }

  lemma {:induction false} ArgsRead(args: seq<string>, rest: string, words: seq<string>, done: seq<seq<string>>)
    requires args != []
    ensures ReadShell(Join(QuoteAll(args), " ") + rest, false, None, words, done)
            == ReadShell(rest, false, Some(args[|args| - 1]), words + args[..|args| - 1], done)
  {
    hide ReadShell, Quote;
    var quoted := QuoteAll(args);
    if |args| == 1 {
      assert args[1..] == [];
      assert quoted == [Quote(args[0])];
      ArgReads(args[0], rest, words, done);
      assert words + args[..0] == words;
    } else {
      var tail := args[1..];
      assert quoted[1..] == QuoteAll(tail);
      var more := Join(QuoteAll(tail), " ") + rest;
      assert Join(quoted, " ") + rest == Quote(args[0]) + (" " + more);
      ArgReads(args[0], " " + more, words, done);
      SpaceReads(more, Some(args[0]), words, done);
      ArgsRead(tail, rest, words + [args[0]], done);
      assert words + [args[0]] + tail[..|tail| - 1] == words + args[..|args| - 1];
    }
  }

  lemma PlainStep(c: char, more: string, before: string, words: seq<string>, done: seq<seq<string>>)
    requires IsPlain(c)
    ensures ReadShell([c] + more, false, Some(before), words, done)
            == ReadShell(more, false, Some(before + [c]), words, done)
    ensures ReadShell([c] + more, false, None, words, done) == ReadShell(more, false, Some([c]), words, done)
  {
    var s := [c] + more;
    assert s[0] == c && s[1..] == more;
    assert !StartsWith(s, "&&") by {
      assert "&&"[0] == '&';
    }
    assert "" + [c] == [c];
  }

  lemma {:induction false} PlainReads(w: string, rest: string, before: string, words: seq<string>,
                                      done: seq<seq<string>>)
    requires forall c :: c in w ==> IsPlain(c)
    ensures ReadShell(w + rest, false, Some(before), words, done)
            == ReadShell(rest, false, Some(before + w), words, done)
  {
    hide ReadShell, IsPlain;
    if w == "" {
      assert w + rest == rest && before + w == before;
    } else {
      assert w + rest == [w[0]] + (w[1..] + rest);
      PlainStep(w[0], w[1..] + rest, before, words, done);
      PlainReads(w[1..], rest, before + [w[0]], words, done);
      assert before + [w[0]] + w[1..] == before + w;
    }
  }

  lemma ProgramIsPlain()
    ensures IsPlain('n') && forall c :: c in "etworksetup" ==> IsPlain(c)
  {
  }

  lemma ProgramReads(rest: string, done: seq<seq<string>>)
    ensures ReadShell("networksetup " + rest, false, None, [], done)
            == ReadShell(rest, false, None, ["networksetup"], done)
  {
    hide ReadShell, IsPlain;
    ProgramIsPlain();
    assert "networksetup " + rest == ['n'] + ("etworksetup" + (" " + rest));
    PlainStep('n', "etworksetup" + (" " + rest), "", [], done);
    PlainReads("etworksetup", " " + rest, ['n'], [], done);
    assert ['n'] + "etworksetup" == "networksetup";
    SpaceReads(rest, Some("networksetup"), [], done);
    assert EndWord(Some("networksetup"), []) == ["networksetup"];
  }

  /** After a line: the last word may still be open, but the command it belongs to is known. */
  lemma LineReads(args: seq<string>, rest: string, done: seq<seq<string>>)
    ensures exists word: Option<string>, words: seq<string> ::
              && EndWord(word, words) == ["networksetup"] + args
              && ReadShell(ShellLine(args) + rest, false, None, [], done) == ReadShell(rest, false, word, words, done)
  {
    hide ReadShell;
    var quoted := Join(QuoteAll(args), " ");
    assert ShellLine(args) + rest == "networksetup " + (quoted + rest);
    ProgramReads(quoted + rest, done);
    if args == [] {
      assert quoted + rest == rest;
      assert EndWord(None, ["networksetup"]) == ["networksetup"] + args;
    } else {
      ArgsRead(args, rest, ["networksetup"], done);
      assert EndWord(Some(args[|args| - 1]), ["networksetup"] + args[..|args| - 1]) == ["networksetup"] + args;
    }
  }

  lemma AndReads(rest: string, word: Option<string>, words: seq<string>, done: seq<seq<string>>)
    requires EndWord(word, words) != []
    ensures ReadShell(" && " + rest, false, word, words, done)
            == ReadShell(rest, false, None, [], done + [EndWord(word, words)])
  {
    assert " && " + rest == " " + ("&& " + rest);
    SpaceReads("&& " + rest, word, words, done);
    var s := "&& " + rest;
    assert StartsWith(s, "&&") && s[2..] == " " + rest;
    SpaceReads(rest, None, [], done + [EndWord(word, words)]);
  }

  lemma EndReads(word: Option<string>, words: seq<string>, done: seq<seq<string>>)
    requires EndWord(word, words) != []
    ensures ReadShell("", false, word, words, done) == Some(done + [EndWord(word, words)])
  {
  }

  lemma {:induction false} ScriptReads(commands: seq<seq<string>>, done: seq<seq<string>>)
    requires commands != []
    ensures ReadShell(ShellScript(commands), false, None, [], done) == Some(done + WithProgram(commands))
  {
    hide ShellLine, ReadShell;
    var lines := ShellLines(commands);
    var command := ["networksetup"] + commands[0];
    assert lines[1..] == ShellLines(commands[1..]);
    var more := ShellScript(commands[1..]);
    var rest := if |commands| == 1 then "" else " && " + more;
    LineReads(commands[0], rest, done);
    var word: Option<string>, words: seq<string> :|
      EndWord(word, words) == command
      && ReadShell(ShellLine(commands[0]) + rest, false, None, [], done) == ReadShell(rest, false, word, words, done);
    assert ShellScript(commands) == ShellLine(commands[0]) + rest;
    if |commands| == 1 {
      assert commands[1..] == [];
      assert WithProgram(commands) == [command];
      EndReads(word, words, done);
    } else {
      AndReads(more, word, words, done);
      ScriptReads(commands[1..], done + [command]);
      assert done + [command] + WithProgram(commands[1..]) == done + WithProgram(commands);
    }
  }

  /**
    Both layers undone: for every list of argument lists, the readers recover
    exactly the commands, whatever quotes, backslashes, spaces or nothing the
    arguments hold.
   */
  lemma CommandsSurviveQuoting(commands: seq<seq<string>>)
    ensures ReadCommands(AppleScript(commands)) == Some(WithProgram(commands))
  {
    var script := ShellScript(commands);
    var source := AppleScript(commands);
    assert source[|PREFIX|..] == AppleEscape(script) + ("\"" + SUFFIX);
    AppleRoundTrip(script, SUFFIX);
    if commands == [] {
      assert script == "";
    } else {
      ScriptReads(commands, []);
      assert [] + WithProgram(commands) == WithProgram(commands);
    }
  }
}
