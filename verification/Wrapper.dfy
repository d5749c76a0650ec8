// What the engine's start command does when the shell runs it: the variables that the engine
// gets from secret files (internal/pipeline/manage.go:193-215; IEEE Std 1003.1-2017, Shell
// Command Language, sections 2.6.3, 2.9.1 and 2.14).
module Wrapper {
  import opened Wrappers
  import opened Shell
  import opened Command
  import opened Expansion

  /** What cat prints of a path. */
  type Files = string -> string

  /** Command substitution drops the newlines at the end. */
  function Stripped(s: string): (t: string)
    ensures t <= s && (t != "" ==> t[|t| - 1] != '\n')
  {
    if s != "" && s[|s| - 1] == '\n' then Stripped(s[..|s| - 1]) else s
  }

  predicate IsLiteral(w: Word) {
    forall i :: 0 <= i < |w| ==> w[i].Char?
  }

  function TextOf(w: Word): string
    requires IsLiteral(w)
  {
    seq(|w|, i requires 0 <= i < |w| => w[i].c)
  }

  /** What a command substitution prints: only cat of one path is modelled. */
  function Printed(commands: seq<Shell.Command>, files: Files): Option<string> {
    if |commands| != 1 || |commands[0]| != 2 || !IsLiteral(commands[0][0]) || !IsLiteral(commands[0][1]) then None
    else if TextOf(commands[0][0]) != "cat" then None
    else Some(files(TextOf(commands[0][1])))
  }

  /** A word with its substitutions replaced; all of it was quoted, so it stays one word. */
  function Value(w: Word, files: Files): Option<string> {
    if w == [] then Some("")
    else
      var rest := Value(w[1..], files);
      match w[0]
      case Char(c) => if rest.None? then None else Some([c] + rest.value)
      case Subst(commands) =>
        var out := Printed(commands, files);
        if out.None? || rest.None? then None else Some(Stripped(out.value) + rest.value)
  }

  function Values(ws: seq<Word>, files: Files): Option<seq<string>> {
    if ws == [] then Some([])
    else
      var v, rest := Value(ws[0], files), Values(ws[1..], files);
      if v.None? || rest.None? then None else Some([v.value] + rest.value)
  }

  predicate IsShellName(v: string) {
    IsVarName(v) && !('0' <= v[0] <= '9')
  }

  datatype Assignment = Assignment(name: string, val: string)

  /** NAME=value, up to the first '='. */
  function AssignmentOf(s: string): (a: Option<Assignment>)
    ensures a.Some? ==> s == a.value.name + "=" + a.value.val && '=' !in a.value.name
  {
    if s == "" then None
    else if s[0] == '=' then Some(Assignment("", s[1..]))
    else
      var rest := AssignmentOf(s[1..]);
      if rest.None? then None else Some(Assignment([s[0]] + rest.value.name, rest.value.val))
  }

  datatype Process = Process(args: seq<string>, env: Env)

  /** The process that the commands end in: export sets a variable, exec starts the process, and
      does nothing without one. Anything else is not modelled. */
  function Runs(commands: seq<Shell.Command>, env: Env, files: Files): Option<Process> {
    if commands == [] then None
    else
      match Values(commands[0], files)
      case None => None
      case Some(ws) =>
        if |ws| == 2 && ws[0] == "export" then
          (match AssignmentOf(ws[1])
           case None => None
           case Some(a) => if IsShellName(a.name) then Runs(commands[1..], env[a.name := a.val], files) else None)
        else if ws == ["exec"] then Runs(commands[1..], env, files)
        else if |ws| >= 2 && ws[0] == "exec" then Some(Process(ws[1..], env))
        else None
  }

  // ---- The wrapper ----

  /** The environment with the secrets in it. */
  function Exported(env: Env, exports: seq<SecretExport>, files: Files): Env
    decreases |exports|
  {
    if exports == [] then env
    else Exported(env[exports[0].name := Stripped(files(exports[0].path))], exports[1..], files)
  }

  lemma {:induction false} LitValue(s: string, rest: Word, files: Files)
    ensures Value(Lit(s) + rest, files) ==
            match Value(rest, files) { case None => None case Some(v) => Some(s + v) }
  {
    if s == "" {
      assert Lit(s) + rest == rest;
      assert forall v: string :: "" + v == v;
    } else {
      LitValue(s[1..], rest, files);
      assert (Lit(s) + rest)[1..] == Lit(s[1..]) + rest;
      assert forall v: string :: [s[0]] + (s[1..] + v) == s + v;
    }
  }

  lemma WordValue(s: string, files: Files)
    ensures Value(Lit(s), files) == Some(s)
  {
    LitValue(s, [], files);
    assert Lit(s) + [] == Lit(s) && s + "" == s;
  }

  lemma {:induction false} ArgValues(args: seq<string>, files: Files)
    ensures Values(Words(args), files) == Some(args)
  {
    if args != [] {
      WordValue(args[0], files);
      ArgValues(args[1..], files);
      assert Words(args)[1..] == Words(args[1..]);
      assert [args[0]] + args[1..] == args;
    }
  }

  lemma TextOfLit(s: string)
    ensures IsLiteral(Lit(s)) && TextOf(Lit(s)) == s
  {
  }

  lemma CatPrints(path: string, files: Files)
    ensures Printed([Words(["cat", path])], files) == Some(files(path))
  {
    hide IsLiteral, TextOf, Lit;
    TextOfLit("cat");
    TextOfLit(path);
    assert Words(["cat", path]) == [Lit("cat"), Lit(path)];
  }

  lemma SubstValue(path: string, files: Files)
    ensures Value([Subst([Words(["cat", path])])], files) == Some(Stripped(files(path)))
  {
    hide Printed, Stripped, Words;
    var sub := [Subst([Words(["cat", path])])];
    CatPrints(path, files);
    assert sub[1..] == [] && Value([], files) == Some("");
    assert Stripped(files(path)) + "" == Stripped(files(path));
  }

  lemma TwoValues(v: Word, w: Word, a: string, b: string, files: Files)
    requires Value(v, files) == Some(a) && Value(w, files) == Some(b)
    ensures Values([v, w], files) == Some([a, b])
  {
    hide Value;
    MoreValues(w, [], b, [], files);
    assert [w] + [] == [w] && [b] + [] == [b];
    MoreValues(v, [w], a, [b], files);
    assert [v] + [w] == [v, w] && [a] + [b] == [a, b];
  }

  lemma MoreValues(w: Word, ws: seq<Word>, v: string, vs: seq<string>, files: Files)
    requires Value(w, files) == Some(v) && Values(ws, files) == Some(vs)
    ensures Values([w] + ws, files) == Some([v] + vs)
  {
    hide Value;
    assert ([w] + ws)[1..] == ws;
  }

  lemma ExportValues(e: SecretExport, files: Files)
    ensures Values(ExportCommand(e), files) == Some(["export", e.name + "=" + Stripped(files(e.path))])
  {
    hide Value, Stripped, Values, Words;
    var sub := [Subst([Words(["cat", e.path])])];
    SubstValue(e.path, files);
    LitValue(e.name + "=", sub, files);
    WordValue("export", files);
    TwoValues(Lit("export"), Lit(e.name + "=") + sub, "export", e.name + "=" + Stripped(files(e.path)), files);
  }

  lemma {:induction false} FirstEquals(name: string, val: string)
    requires '=' !in name
    ensures AssignmentOf(name + "=" + val) == Some(Assignment(name, val))
  {
    var s := name + "=" + val;
    if name == "" {
      assert s[1..] == val;
    } else {
      assert name[0] in name && s[1..] == name[1..] + "=" + val;
      FirstEquals(name[1..], val);
      assert [name[0]] + name[1..] == name;
    }
  }

  /** The process that the wrapper ends in, if there is a command for it. */
  function Wraps(base: seq<string>, exports: seq<SecretExport>, env: Env, files: Files): Option<Process> {
    if base == [] then None else Some(Process(base, Exported(env, exports, files)))
  }

  lemma ExecRuns(base: seq<string>, env: Env, files: Files)
    ensures Runs([Words(["exec"] + base)], env, files) == Wraps(base, [], env, files)
  {
    hide Words, Values;
    var ws, cs := ["exec"] + base, [Words(["exec"] + base)];
    ArgValues(ws, files);
    assert ws[1..] == base && cs[1..] == [];
    if base == [] { assert ws == ["exec"]; }
  }

  lemma {:induction false} ExportsRun(base: seq<string>, exports: seq<SecretExport>, env: Env, files: Files)
    requires forall e :: e in exports ==> IsShellName(e.name)
    ensures Runs(ExportCommands(exports) + [Words(["exec"] + base)], env, files) == Wraps(base, exports, env, files)
    decreases |exports|
  {
    hide Values, IsShellName, ExportCommand, Stripped, Words;
    var last := Words(["exec"] + base);
    var cs := ExportCommands(exports) + [last];
    if exports == [] {
      ExecRuns(base, env, files);
      assert cs == [last];
    } else {
      var e := exports[0];
      assert e in exports && forall f :: f in exports[1..] ==> f in exports;
      NameHasNoEquals(e.name);
      assert cs[0] == ExportCommand(e) && cs[1..] == ExportCommands(exports[1..]) + [last];
      ExportValues(e, files);
      FirstEquals(e.name, Stripped(files(e.path)));
      ExportsRun(base, exports[1..], env[e.name := Stripped(files(e.path))], files);
    }
  }

  lemma NameHasNoEquals(v: string)
    requires IsShellName(v)
    ensures '=' !in v
  {
  }

  /** Run by the shell, the wrapped command is the base command with exactly its arguments, and
      each secret file's text, less the newlines at its end, in its variable; without a base
      command it starts nothing. */
  lemma WrapperRuns(base: seq<string>, exports: seq<SecretExport>, env: Env, files: Files)
    requires exports != [] && forall e :: e in exports ==> IsShellName(e.name)
    ensures var cmd := Wrapped(base, exports);
            && |cmd| == 3 && cmd[..2] == ["/bin/sh", "-c"] && Commands(cmd[2]).Some?
            && var p := Runs(Commands(cmd[2]).value, env, files);
               (p.Some? <==> base != []) && (p.Some? ==> p.value == Process(base, Exported(env, exports, files)))
  {
    hide Runs, Exported, Script, Commands, ExportCommands;
    ScriptMeaning(base, exports);
    ExportsRun(base, exports, env, files);
  }

  // ---- The environment of the engine ----

  lemma {:induction false} NotExported(env: Env, exports: seq<SecretExport>, files: Files, name: string)
    requires forall e :: e in exports ==> e.name != name
    ensures name in Exported(env, exports, files) <==> name in env
    ensures name in env ==> Exported(env, exports, files)[name] == env[name]
    decreases |exports|
  {
    if exports != [] {
      assert exports[0] in exports && forall f :: f in exports[1..] ==> f in exports;
      NotExported(env[exports[0].name := Stripped(files(exports[0].path))], exports[1..], files, name);
    }
  }

  /** A variable exported once has the text of its file. */
  lemma {:induction false} ExportedOnce(env: Env, exports: seq<SecretExport>, files: Files, e: SecretExport)
    requires e in exports && forall f :: f in exports && f.name == e.name ==> f == e
    ensures Getenv(Exported(env, exports, files), e.name) == Stripped(files(e.path))
    decreases |exports|
  {
    hide Stripped;
    var next := env[exports[0].name := Stripped(files(exports[0].path))];
    assert forall f :: f in exports[1..] ==> f in exports;
    if e in exports[1..] {
      ExportedOnce(next, exports[1..], files, e);
    } else {
      NotExported(next, exports[1..], files, e.name);
    }
  }
}
