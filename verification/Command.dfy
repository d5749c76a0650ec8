// The start command of the engine (internal/pipeline/manage.go): a shell wrapper that
// exports each secret file and then execs the base command.
module Command {
  import opened Shell
  import opened Wrappers

  /** An environment variable and the path of the secret file it is read from. */
  datatype SecretExport = SecretExport(name: string, path: string)

  /** strings.ReplaceAll(s, "'", `'\''`) */
  function EscapeQuotes(s: string): string {
    if s == "" then "" else (if s[0] == '\'' then "'\\''" else [s[0]]) + EscapeQuotes(s[1..])
  }

  function ShQuote(s: string): string {
    "'" + EscapeQuotes(s) + "'"
  }

  function ExportText(e: SecretExport): string {
    "export " + e.name + "=\"$(cat " + ShQuote(e.path) + ")\"; "
  }

  function ExportsText(es: seq<SecretExport>): string {
    if es == [] then "" else ExportText(es[0]) + ExportsText(es[1..])
  }

  function ArgsText(args: seq<string>): string {
    if args == [] then "" else " " + ShQuote(args[0]) + ArgsText(args[1..])
  }

  function Script(base: seq<string>, exports: seq<SecretExport>): string {
    ExportsText(exports) + "exec" + ArgsText(base)
  }

  function Wrapped(base: seq<string>, exports: seq<SecretExport>): seq<string> {
    if exports == [] then base else ["/bin/sh", "-c", Script(base, exports)]
  }

  lemma {:induction false} ExportsTextSnoc(es: seq<SecretExport>, e: SecretExport)
    ensures ExportsText(es + [e]) == ExportsText(es) + ExportText(e)
  {
    if es == [] {
      assert es + [e] == [e];
    } else {
      assert (es + [e])[1..] == es[1..] + [e];
      ExportsTextSnoc(es[1..], e);
    }
  }

  lemma {:induction false} ArgsTextSnoc(args: seq<string>, a: string)
    ensures ArgsText(args + [a]) == ArgsText(args) + (" " + ShQuote(a))
  {
    if args == [] {
      assert args + [a] == [a];
    } else {
      assert (args + [a])[1..] == args[1..] + [a];
      ArgsTextSnoc(args[1..], a);
    }
  }

  lemma NoText()
    ensures ExportsText([]) == "" && ArgsText([]) == ""
  {
  }

  method WrapCommandWithSecrets(base: seq<string>, exports: seq<SecretExport>) returns (cmd: seq<string>)
    ensures cmd == Wrapped(base, exports)
  {
    hide ShQuote, ExportsText, ArgsText;
    if |exports| == 0 {
      return base;
    }
    var sb := "";
    NoText();
    assert exports[..0] == [] && base[..0] == [];
    var i := 0;
    while i < |exports|
      invariant i <= |exports|
      invariant sb == ExportsText(exports[..i])
    {
      ExportsTextSnoc(exports[..i], exports[i]);
      assert exports[..i + 1] == exports[..i] + [exports[i]];
      sb := sb + ("export " + exports[i].name + "=\"$(cat " + ShQuote(exports[i].path) + ")\"; ");
      i := i + 1;
    }
    assert exports[..i] == exports;
    sb := sb + "exec";
    ghost var head := sb;
    i := 0;
    while i < |base|
      invariant i <= |base|
      invariant sb == head + ArgsText(base[..i])
    {
      ArgsTextSnoc(base[..i], base[i]);
      assert base[..i + 1] == base[..i] + [base[i]];
      sb := sb + (" " + ShQuote(base[i]));
      i := i + 1;
    }
    assert base[..i] == base;
    return ["/bin/sh", "-c", sb];
  }

  // ---- What the shell makes of it ----

  /** Any string, quoted by ShQuote, is read back as one word with exactly its characters. */
  lemma ReadQuoted(a: string, rest: string, r: Reading, nested: bool)
    ensures Read(ShQuote(a) + rest, r, nested) == Read(rest, Add(r, Lit(a)), nested)
  {
    assert (ShQuote(a) + rest)[1..] == EscapeQuotes(a) + "'" + rest;
    ReadQuotedBody(a, rest, Add(r, []), nested);
    assert Add(Add(r, []), Lit(a)) == Add(r, Lit(a));
  }

  lemma {:induction false} ReadQuotedBody(a: string, rest: string, r: Reading, nested: bool)
    requires r.inWord
    ensures ReadSingle(EscapeQuotes(a) + "'" + rest, r, nested) == Read(rest, Add(r, Lit(a)), nested)
    decreases |a|
  {
    hide Read, ReadSingle, Add, Lit;
    if a == "" {
      assert EscapeQuotes(a) + "'" + rest == "'" + rest;
      ReadCloseQuote(rest, r, nested);
      AddNothing(r);
    } else {
      var c, b := a[0], a[1..];
      var t := EscapeQuotes(b) + "'" + rest;
      ReadEscapedChar(c, t, r, nested);
      StaysInWord(r, [Char(c)]);
      ReadQuotedBody(b, rest, Add(r, [Char(c)]), nested);
      AddLit(r, c, b);
      assert a == [c] + b;
      assert EscapeQuotes(a) + "'" + rest == (if c == '\'' then "'\\''" else [c]) + t;
    }
  }

  lemma StaysInWord(r: Reading, parts: Word)
    ensures Add(r, parts).inWord
  {
  }

  lemma ReadEscapedChar(c: char, t: string, r: Reading, nested: bool)
    requires r.inWord
    ensures ReadSingle((if c == '\'' then "'\\''" else [c]) + t, r, nested) ==
            ReadSingle(t, Add(r, [Char(c)]), nested)
  {
    hide Read, ReadSingle;
    if c == '\'' {
      ReadEscapedQuote(t, r, nested);
    } else {
      ReadSingleChar(c, t, r, nested);
    }
  }

  /** '\'' closes the quotes, adds a quote and opens them again. */
  lemma ReadEscapedQuote(t: string, r: Reading, nested: bool)
    requires r.inWord
    ensures ReadSingle("'\\''" + t, r, nested) == ReadSingle(t, Add(r, [Char('\'')]), nested)
  {
    hide Read, ReadSingle;
    var r1 := Add(r, [Char('\'')]);
    assert "'\\''" + t == "'" + ("\\" + ("'" + ("'" + t)));
    ReadCloseQuote("\\" + ("'" + ("'" + t)), r, nested);
    ReadBackslash('\'', "'" + t, r, nested);
    ReadOpenQuote(t, r1, nested);
    assert Add(r1, []) == r1;
  }

  /** The words of an argument list, each exactly one argument. */
  function Words(args: seq<string>): Command {
    seq(|args|, i requires 0 <= i < |args| => Lit(args[i]))
  }

  /** The command an export line means: NAME= and then the output of cat on the path. */
  function ExportCommand(e: SecretExport): Command {
    [Lit("export"), Lit(e.name + "=") + [Subst([Words(["cat", e.path])])]]
  }

  function ExportCommands(es: seq<SecretExport>): seq<Command> {
    seq(|es|, i requires 0 <= i < |es| => ExportCommand(es[i]))
  }

  /** Between two words: nothing is being read. */
  predicate AtGap(r: Reading) {
    r.word == [] && !r.inWord
  }

  lemma {:induction false} ReadArgs(args: seq<string>, r: Reading)
    requires r.inWord
    ensures Read(ArgsText(args), r, false) ==
            Some(Parsed(EndCommand(Reading(r.commands, r.words + [r.word] + Words(args), [], false)), ""))
    decreases |args|
  {
    hide Read, ShQuote;
    if args == [] {
      ReadEnd(r);
      assert r.words + [r.word] + Words(args) == r.words + [r.word];
    } else {
      var r1 := Add(EndWord(r), Lit(args[0]));
      ReadArg(args[0], ArgsText(args[1..]), r);
      ReadArgs(args[1..], r1);
      assert r1.word == Lit(args[0]);
      assert r1.words + [r1.word] + Words(args[1..]) == r.words + [r.word] + Words(args);
    }
  }

  lemma ReadArg(a: string, rest: string, r: Reading)
    ensures Read(" " + ShQuote(a) + rest, r, false) == Read(rest, Add(EndWord(r), Lit(a)), false)
  {
    hide Read, ShQuote;
    assert " " + ShQuote(a) + rest == " " + (ShQuote(a) + rest);
    ReadSpace(ShQuote(a) + rest, r, false);
    ReadQuoted(a, rest, EndWord(r), false);
  }

  predicate IsVarName(v: string) {
    v != "" && forall c :: c in v ==> 'a' <= c <= 'z' || 'A' <= c <= 'Z' || '0' <= c <= '9' || c == '_'
  }

  /** The command substitution of an export: the shell runs cat on exactly the path. */
  lemma ReadCat(path: string, rest: string, word: Word)
    ensures ReadDouble("$(cat " + ShQuote(path) + ")" + rest, word) ==
            ReadDouble(rest, word + [Subst([Words(["cat", path])])])
  {
    hide Read, ReadDouble, ShQuote;
    var t := ")" + rest;
    var body := "cat" + (" " + (ShQuote(path) + t));
    assert "$(cat " + ShQuote(path) + ")" + rest == "$(" + body;
    ReadPlain("cat", " " + (ShQuote(path) + t), START, true);
    var r1 := Add(START, Lit("cat"));
    ReadSpace(ShQuote(path) + t, r1, true);
    ReadQuoted(path, t, EndWord(r1), true);
    var r2 := Add(EndWord(r1), Lit(path));
    ReadClose(rest, r2);
    assert r1.word == Lit("cat") && r2.word == Lit(path);
    assert EndWord(r2).words == Words(["cat", path]);
    assert EndCommand(r2).commands == [Words(["cat", path])];
    ReadSubstitution(body, EndCommand(r2), rest, word);
  }

  /** The assignment word of an export, up to the end of its double quotes. */
  lemma ReadAssignment(e: SecretExport, rest: string, r: Reading)
    requires IsVarName(e.name)
    ensures Read(e.name + "=" + ("\"" + ("$(cat " + ShQuote(e.path) + ")" + ("\"" + rest))), r, false) ==
            Read(rest, Add(r, ExportCommand(e)[1]), false)
  {
    var assign := e.name + "=";
    var subst := "$(cat " + ShQuote(e.path) + ")" + ("\"" + rest);
    ReadPlain(assign, "\"" + subst, r, false);
    var parts: Word := [Subst([Words(["cat", e.path])])];
    ReadCat(e.path, "\"" + rest, []);
    assert [] + parts == parts && ("\"" + rest)[1..] == rest;
    ReadDoubleQuoted(subst, parts, rest, Add(r, Lit(assign)), false);
    assert Add(Add(r, Lit(assign)), parts) == Add(r, ExportCommand(e)[1]);
  }

  lemma ReadExport(e: SecretExport, rest: string, r: Reading)
    requires IsVarName(e.name)
    requires AtGap(r) && r.words == []
    ensures Read(ExportText(e) + rest, r, false) ==
            Read(rest, Reading(r.commands + [ExportCommand(e)], [], [], false), false)
  {
    hide Read, ReadSingle, ReadDouble, ShQuote;
    var after := ";" + (" " + rest);
    var text := e.name + "=" + ("\"" + ("$(cat " + ShQuote(e.path) + ")" + ("\"" + after)));
    assert ExportText(e) + rest == "export" + (" " + text);
    ReadPlain("export", " " + text, r, false);
    var r1 := Add(r, Lit("export"));
    ReadSpace(text, r1, false);
    ReadAssignment(e, after, EndWord(r1));
    var r2 := Add(EndWord(r1), ExportCommand(e)[1]);
    ReadSemicolon(" " + rest, r2, false);
    assert r1.word == Lit("export") && r2.word == ExportCommand(e)[1];
    assert r2.words + [r2.word] == ExportCommand(e);
    ReadSpace(rest, EndCommand(r2), false);
  }

  lemma {:induction false} ReadExports(es: seq<SecretExport>, rest: string, r: Reading)
    requires forall e :: e in es ==> IsVarName(e.name)
    requires AtGap(r) && r.words == []
    ensures Read(ExportsText(es) + rest, r, false) ==
            Read(rest, Reading(r.commands + ExportCommands(es), [], [], false), false)
    decreases |es|
  {
    if es == [] {
      assert ExportsText(es) + rest == rest;
      assert r.commands + ExportCommands(es) == r.commands;
    } else {
      var r1 := Reading(r.commands + [ExportCommand(es[0])], [], [], false);
      assert ExportsText(es) + rest == ExportText(es[0]) + (ExportsText(es[1..]) + rest);
      ReadExport(es[0], ExportsText(es[1..]) + rest, r);
      ReadExports(es[1..], rest, r1);
      assert r1.commands + ExportCommands(es[1..]) == r.commands + ExportCommands(es);
    }
  }

  /** The round trip: the shell reads the script as the exports, each running cat on
      exactly its path, followed by an exec of exactly the base command. */
  lemma ScriptMeaning(base: seq<string>, exports: seq<SecretExport>)
    requires forall e :: e in exports ==> IsVarName(e.name)
    ensures Commands(Script(base, exports)) == Some(ExportCommands(exports) + [Words(["exec"] + base)])
  {
    hide Read, ReadSingle, ReadDouble, ShQuote, ExportCommands, ExportsText, ArgsText, Words;
    assert Script(base, exports) == ExportsText(exports) + ("exec" + ArgsText(base));
    ReadExports(exports, "exec" + ArgsText(base), START);
    assert [] + ExportCommands(exports) == ExportCommands(exports);
    ReadExec(base, ExportCommands(exports));
  }

  lemma ReadExec(base: seq<string>, before: seq<Command>)
    ensures Read("exec" + ArgsText(base), Reading(before, [], [], false), false) ==
            Some(Parsed(Reading(before + [Words(["exec"] + base)], [], [], false), ""))
  {
    hide Read, ShQuote;
    var r := Reading(before, [], [], false);
    ReadPlain("exec", ArgsText(base), r, false);
    ReadArgs(base, Add(r, Lit("exec")));
    assert Add(r, Lit("exec")).word == Lit("exec");
    assert [Lit("exec")] + Words(base) == Words(["exec"] + base) by {
      assert forall i :: 0 <= i < |base| ==> (["exec"] + base)[i + 1] == base[i];
    }
    assert [] + [Lit("exec")] + Words(base) == [Lit("exec")] + Words(base);
  }

  /** No two different commands are wrapped alike, so no change goes unnoticed. */
  lemma WrappedInjective(base: seq<string>, exports: seq<SecretExport>, base': seq<string>, exports': seq<SecretExport>)
    requires forall e :: e in exports + exports' ==> IsVarName(e.name)
    requires Script(base, exports) == Script(base', exports')
    ensures base == base' && exports == exports'
  {
    assert forall e :: e in exports || e in exports' ==> e in exports + exports';
    ScriptMeaning(base, exports);
    ScriptMeaning(base', exports');
    var cs, cs' := ExportCommands(exports) + [Words(["exec"] + base)], ExportCommands(exports')
        + [Words(["exec"] + base')];
    assert |exports| == |cs| - 1 == |exports'|;
    assert cs[|exports|] == Words(["exec"] + base) && cs'[|exports|] == Words(["exec"] + base');
    WordsInjective(["exec"] + base, ["exec"] + base');
    assert (["exec"] + base)[1..] == base && (["exec"] + base')[1..] == base';
    forall i | 0 <= i < |exports| ensures exports[i] == exports'[i] {
      assert cs[i] == ExportCommand(exports[i]) && cs'[i] == ExportCommand(exports'[i]);
      ExportInjective(exports[i], exports'[i]);
    }
  }

  lemma WordsInjective(a: seq<string>, b: seq<string>)
    requires Words(a) == Words(b)
    ensures a == b
  {
    assert |a| == |Words(a)| == |b|;
    forall i | 0 <= i < |a| ensures a[i] == b[i] {
      assert Words(a)[i] == Words(b)[i];
      LitInjective(a[i], b[i]);
    }
  }

  lemma ExportInjective(e: SecretExport, f: SecretExport)
    requires ExportCommand(e) == ExportCommand(f)
    ensures e == f
  {
    var w, w' := ExportCommand(e)[1], ExportCommand(f)[1];
    var n := |e.name| + 1;
    assert |w| == n + 1 && |w'| == |f.name| + 2;
    assert w[..n] == Lit(e.name + "=") && w'[..n] == Lit(f.name + "=");
    LitInjective(e.name + "=", f.name + "=");
    assert (e.name + "=")[..n - 1] == e.name && (f.name + "=")[..n - 1] == f.name;
    assert w[n] == Subst([Words(["cat", e.path])]) && w'[n] == Subst([Words(["cat", f.path])]);
    WordsInjective(["cat", e.path], ["cat", f.path]);
    assert ["cat", e.path][1] == ["cat", f.path][1];
  }

  lemma {:induction false} QuotedIsLonger(args: seq<string>, i: nat)
    requires i < |args|
    ensures |ArgsText(args)| > |args[i]|
  {
    EscapedIsAsLong(args[0]);
    if i > 0 { QuotedIsLonger(args[1..], i - 1); }
  }

  lemma {:induction false} EscapedIsAsLong(s: string)
    ensures |EscapeQuotes(s)| >= |s|
  {
    if s != "" { EscapedIsAsLong(s[1..]); }
  }

  /** No command is the wrapper of itself. */
  lemma WrappedIsAnother(command: seq<string>, exports: seq<SecretExport>)
    requires exports != []
    ensures command != Wrapped(command, exports)
  {
    hide ArgsText, ExportsText;
    if command == Wrapped(command, exports) {
      assert |command| == 3 && command[2] == Script(command, exports);
      QuotedIsLonger(command, 2);
    }
  }
}
