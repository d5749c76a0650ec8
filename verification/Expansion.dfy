// What gobackup does to the config text before it parses it: Go's os.ExpandEnv.
// A Go string is a sequence of bytes; a `char` stands for one byte here, and every
// scanner below compares bytes with ASCII characters only.
module Expansion {

  predicate IsLetter(c: char) {
    'a' <= c <= 'z' || 'A' <= c <= 'Z'
  }

  predicate IsNameByte(c: char) {
    IsLetter(c) || '0' <= c <= '9' || c == '_'
  }

  /** Go's isShellSpecialVar: the one-byte variable names. */
  predicate IsSpecial(c: char) {
    c in "*#$@!?-" || '0' <= c <= '9'
  }

  /** The length of the longest prefix of s made of name bytes. */
  function NameRun(s: string): (n: nat)
    ensures n <= |s|
    ensures forall k :: 0 <= k < n ==> IsNameByte(s[k])
    ensures n < |s| ==> !IsNameByte(s[n])
  {
    if s == "" || !IsNameByte(s[0]) then 0 else 1 + NameRun(s[1..])
  }

  /** The position of the first '}' of s, or |s| when there is none. */
  function BraceEnd(s: string): (n: nat)
    ensures n <= |s|
    ensures forall k :: 0 <= k < n ==> s[k] != '}'
    ensures n < |s| ==> s[n] == '}'
  {
    if s == "" || s[0] == '}' then 0 else 1 + BraceEnd(s[1..])
  }

  /** The variable read after a '$', and how many bytes it takes. */
  datatype ShellName = ShellName(name: string, width: nat)

  /** Go's getShellName, on the non-empty text after a '$'. */
  function GetShellName(s: string): (r: ShellName)
    requires s != ""
    ensures r.width <= |s|
    ensures |r.name| <= r.width
  {
    if s[0] == '{' then
      if |s| > 2 && IsSpecial(s[1]) && s[2] == '}' then ShellName([s[1]], 3)
      else
        var end := 1 + BraceEnd(s[1..]);
        if end == |s| then ShellName("", 1)       // unclosed: "${" is eaten
        else if end == 1 then ShellName("", 2)    // "${}" is eaten
        else ShellName(s[1..end], end + 1)
    else if IsSpecial(s[0]) then ShellName([s[0]], 1)
    else ShellName(s[..NameRun(s)], NameRun(s))
  }

  type Env = map<string, string>

  /** os.Getenv: an unset variable reads as the empty string. */
  function Getenv(env: Env, name: string): string {
    if name in env then env[name] else ""
  }

  /** Go's os.Expand with os.Getenv as its mapping. */
  function Expand(s: string, env: Env): string
    decreases |s|
  {
    if s == "" then ""
    else if s[0] != '$' || |s| == 1 then [s[0]] + Expand(s[1..], env)
    else
      var n := GetShellName(s[1..]);
      var put := if n.name != "" then Getenv(env, n.name) else if n.width > 0 then "" else "$";
      put + Expand(s[1 + n.width..], env)
  }

  lemma ExpandNothing(env: Env)
    ensures Expand("", env) == ""
  {
  }

  lemma ExpandByte(c: char, rest: string, env: Env)
    requires c != '$'
    ensures Expand([c] + rest, env) == [c] + Expand(rest, env)
  {
    assert ([c] + rest)[1..] == rest;
  }

  /** Text without a '$' is not changed, and neither hides nor joins what follows it. */
  lemma {:induction false} ExpandPlain(t: string, rest: string, env: Env)
    requires '$' !in t
    ensures Expand(t + rest, env) == t + Expand(rest, env)
  {
    hide Expand;
    if t == "" {
      assert t + rest == rest;
    } else {
      assert t + rest == [t[0]] + (t[1..] + rest);
      ExpandByte(t[0], t[1..] + rest, env);
      ExpandPlain(t[1..], rest, env);
    }
  }
}
