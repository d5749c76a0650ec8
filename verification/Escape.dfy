// Escaping of literal '$' (internal/render/escape.go) and its inverse, the expansion
// of the written config by os.ExpandEnv.
module Escape {
  import opened Expansion

  const SENTINEL_VAR := "GB_DOLLAR"
  const SENTINEL_REF := "${GB_DOLLAR}"

  /** s[..n] is a variable reference that cannot be made longer: NAME or {NAME} with a
      NAME of a letter and at least one more name byte. */
  ghost predicate IsRef(s: string, n: nat) {
    && n <= |s|
    && var braced := n > 0 && s[0] == '{';
    && var from, to := if braced then 1 else 0, if braced then n - 1 else n;
    && from + 2 <= to
    && IsLetter(s[from])
    && (forall k :: from <= k < to ==> IsNameByte(s[k]))
    && (if braced then s[to] == '}' else to < |s| ==> !IsNameByte(s[to]))
  }

  /** The length of the reference at the start of s, 0 if there is none. */
  function RefLen(s: string): (n: nat)
    ensures n <= |s|
    ensures n > 0 ==> IsRef(s, n)
  {
    if s == "" then 0
    else if s[0] == '{' then
      var run := NameRun(s[1..]);
      if run >= 2 && IsLetter(s[1]) && 1 + run < |s| && s[1 + run] == '}' then run + 2 else 0
    else if IsLetter(s[0]) && NameRun(s) >= 2 then NameRun(s)
    else 0
  }

  /** RefLen finds the reference whenever there is one, and there is at most one. */
  lemma RefLenIsTheReference(s: string, n: nat)
    requires IsRef(s, n)
    ensures RefLen(s) == n
  {
    if s[0] == '{' {
      var t, run := s[1..], NameRun(s[1..]);
      assert t[n - 2] == '}';
      assert forall k :: 0 <= k < n - 2 ==> t[k] == s[k + 1];
      assert run == n - 2;
    } else {
      assert NameRun(s) == n;
    }
  }

  method RefPrefixLen(s: string) returns (n: nat)
    ensures n == RefLen(s)
    ensures n > 0 ==> IsRef(s, n)
    ensures n == 0 ==> forall m: nat :: !IsRef(s, m)
  {
    if |s| == 0 {
      return 0;
    }
    if s[0] == '{' {
      if |s| < 2 || !IsLetter(s[1]) {
        NoRef(s);
        return 0;
      }
      var j := 2;
      while j < |s| && IsNameByte(s[j])
        invariant 2 <= j <= |s|
        invariant forall k :: 1 <= k < j ==> IsNameByte(s[k])
      {
        j := j + 1;
      }
      if j >= 3 && j < |s| && s[j] == '}' {
        RefLenIsTheReference(s, j + 1);
        return j + 1;
      }
      NoRef(s);
      return 0;
    }
    if IsLetter(s[0]) {
      var j := 1;
      while j < |s| && IsNameByte(s[j])
        invariant 1 <= j <= |s|
        invariant forall k :: 0 <= k < j ==> IsNameByte(s[k])
      {
        j := j + 1;
      }
      if j >= 2 {
        RefLenIsTheReference(s, j);
        return j;
      }
    }
    NoRef(s);
    return 0;
  }

  lemma NoRef(s: string)
    requires RefLen(s) == 0
    ensures forall m: nat :: !IsRef(s, m)
  {
    forall m: nat | IsRef(s, m) ensures false {
      RefLenIsTheReference(s, m);
    }
  }

  /** A '$' that no reference follows. */
  ghost predicate BareAt(s: string, i: nat) {
    i < |s| && s[i] == '$' && RefLen(s[i + 1..]) == 0
  }

  predicate Bare(s: string) {
    exists i | 0 <= i < |s| :: s[i] == '$' && RefLen(s[i + 1..]) == 0
  }

  method HasBareDollar(s: string) returns (b: bool)
    ensures b <==> Bare(s)
  {
    var i := 0;
    while i < |s|
      invariant i <= |s|
      invariant forall k :: 0 <= k < i ==> !BareAt(s, k)
    {
      if s[i] == '$' {
        var n := RefPrefixLen(s[i + 1..]);
        if n == 0 {
          return true;
        }
      }
      assert !BareAt(s, i);
      i := i + 1;
    }
    assert forall k | 0 <= k < |s| && s[k] == '$' && RefLen(s[k + 1..]) == 0 :: BareAt(s, k);
    return false;
  }

  /** How many bytes are escaped at once: a whole reference, else one. */
  function HeadLen(s: string): (n: nat)
    requires s != ""
    ensures 0 < n <= |s|
  {
    if s[0] == '$' then 1 + RefLen(s[1..]) else 1
  }

  /** What is written for them. */
  function HeadText(s: string): string
    requires s != ""
  {
    if s[0] == '$' && RefLen(s[1..]) == 0 then SENTINEL_REF else s[..HeadLen(s)]
  }

  /** The escaped text. */
  function Escaped(s: string): string
    decreases |s|
  {
    if s == "" then "" else HeadText(s) + Escaped(s[HeadLen(s)..])
  }

  lemma EscapedAt(s: string, i: nat)
    requires i < |s|
    ensures var n := if s[i] == '$' then RefLen(s[i + 1..]) else 0;
            var text := if s[i] == '$' && n == 0 then SENTINEL_REF else s[i..i + 1 + n];
            Escaped(s[i..]) == text + Escaped(s[i + 1 + n..])
  {
    hide Escaped, RefLen;
    var t := s[i..];
    EscapedStep(t);
    assert t[1..] == s[i + 1..];
    assert t[..HeadLen(t)] == s[i..i + HeadLen(t)] && t[HeadLen(t)..] == s[i + HeadLen(t)..];
  }

  method EscapeBareDollars(s: string) returns (e: string)
    ensures e == Escaped(s)
  {
    var bare := HasBareDollar(s);
    if !bare {
      EscapeWithoutBare(s);
      return s;
    }
    e := WriteEscaped(s);
  }

  method WriteEscaped(s: string) returns (b: string)
    ensures b == Escaped(s)
  {
    hide Escaped;
    b := "";
    var i := 0;
    assert "" + Escaped(s) == Escaped(s) && s[0..] == s;
    while i < |s|
      invariant i <= |s|
      invariant b + Escaped(s[i..]) == Escaped(s)
    {
      var text, n := WriteHead(s, i);
      Assoc(b, text, Escaped(s[i + n..]));
      b := b + text;
      i := i + n;
    }
    EscapedNothing();
    assert s[i..] == "" && b + "" == b;
  }

  /** One round of the loop. */
  method WriteHead(s: string, i: nat) returns (text: string, n: nat)
    requires i < |s|
    ensures 0 < n <= |s| - i
    ensures Escaped(s[i..]) == text + Escaped(s[i + n..])
  {
    hide Escaped;
    EscapedAt(s, i);
    text, n := [s[i]], 1;
    if s[i] == '$' {
      var len := RefPrefixLen(s[i + 1..]);
      if len > 0 {
        text, n := s[i..i + 1 + len], 1 + len;
      } else {
        text := SENTINEL_REF;
      }
    }
  }

  lemma EscapedNothing()
    ensures Escaped("") == ""
  {
  }

  lemma EscapedStep(s: string)
    requires s != ""
    ensures Escaped(s) == HeadText(s) + Escaped(s[HeadLen(s)..])
  {
  }

  // ---- What escaping does to the text ----

  lemma BareSuffix(s: string, i: nat)
    requires i <= |s|
    ensures Bare(s[i..]) ==> Bare(s)
  {
    var t := s[i..];
    if Bare(t) {
      var k :| 0 <= k < |t| && t[k] == '$' && RefLen(t[k + 1..]) == 0;
      assert t[k + 1..] == s[i + k + 1..];
      assert s[i + k] == '$';
    }
  }

  lemma {:induction false} EscapeWithoutBare(s: string)
    requires !Bare(s)
    ensures Escaped(s) == s
    decreases |s|
  {
    hide *;
    if s == "" {
      EscapedNothing();
    } else {
      var n := HeadLen(s);
      BareSuffix(s, n);
      EscapeWithoutBare(s[n..]);
      EscapedStep(s);
      HeadIsKept(s);
      assert s[..n] + s[n..] == s;
    }
  }

  lemma HeadIsKept(s: string)
    requires s != "" && !Bare(s)
    ensures HeadText(s) == s[..HeadLen(s)]
  {
  }

  lemma EscapedHead(s: string)
    ensures s == "" <==> Escaped(s) == ""
    ensures s != "" ==> Escaped(s)[0] == s[0]
  {
  }

  /** t may follow any escaped value: it does not go on with a name. */
  ghost predicate Boundary(t: string) {
    t != "" ==> !IsNameByte(t[0])
  }

  lemma EscapedBoundary(s: string, t: string)
    requires Boundary(s) && Boundary(t)
    ensures Boundary(Escaped(s) + t)
  {
    EscapedHead(s);
  }

  /** A reference is still read as the same reference when other text follows it. */
  lemma RefInContext(s: string, t: string)
    requires RefLen(s) > 0
    requires s[0] == '{' || Boundary(t)
    ensures RefLen(s[..RefLen(s)] + t) == RefLen(s)
  {
    var n := RefLen(s);
    var u := s[..n] + t;
    assert forall k :: 0 <= k < n ==> u[k] == s[k];
    assert IsRef(u, n);
    RefLenIsTheReference(u, n);
  }

  /** What follows the reference at the start of s, once escaped, does not prolong it. */
  lemma AfterRef(s: string, t: string)
    requires RefLen(s) > 0 && Boundary(t)
    ensures s[0] == '{' || Boundary(Escaped(s[RefLen(s)..]) + t)
  {
    if s[0] != '{' {
      EscapedBoundary(s[RefLen(s)..], t);
    }
  }

  lemma RefHasNoDollar(s: string)
    ensures '$' !in s[..RefLen(s)]
  {
  }

  lemma BareSplit(a: string, b: string)
    requires '$' !in a
    requires Bare(a + b)
    ensures Bare(b)
  {
    var s := a + b;
    var k :| 0 <= k < |s| && s[k] == '$' && RefLen(s[k + 1..]) == 0;
    assert forall j :: 0 <= j < |a| ==> s[j] in a;
    assert s[k + 1..] == b[k - |a| + 1..];
    assert b[k - |a|] == '$';
  }

  lemma BareAfterRef(s: string, t: string)
    requires RefLen(s) > 0
    requires s[0] == '{' || Boundary(t)
    requires Bare("$" + s[..RefLen(s)] + t)
    ensures Bare(t)
  {
    hide Bare, RefLen;
    var u := s[..RefLen(s)] + t;
    RefInContext(s, t);
    assert "$" + s[..RefLen(s)] + t == "$" + u;
    BareAfterDollar(u);
    RefHasNoDollar(s);
    BareSplit(s[..RefLen(s)], t);
  }

  lemma BareAfterDollar(u: string)
    requires Bare("$" + u) && RefLen(u) > 0
    ensures Bare(u)
  {
    hide RefLen;
    var s := "$" + u;
    var k :| 0 <= k < |s| && s[k] == '$' && RefLen(s[k + 1..]) == 0;
    assert s[1..] == u;
    assert k != 0;
    assert u[k - 1] == '$' && s[k + 1..] == u[k..];
  }

  const SENTINEL_BODY := "{GB_DOLLAR}"

  lemma SentinelIsRef()
    ensures RefLen(SENTINEL_BODY) == 11 == |SENTINEL_BODY|
    ensures RefName(SENTINEL_BODY) == SENTINEL_VAR
  {
    assert IsRef(SENTINEL_BODY, 11);
    RefLenIsTheReference(SENTINEL_BODY, 11);
  }

  lemma BareAfterSentinel(t: string)
    requires Bare(SENTINEL_REF + t)
    ensures Bare(t)
  {
    hide Bare, RefLen;
    SentinelIsRef();
    assert SENTINEL_REF + t == "$" + SENTINEL_BODY[..11] + t;
    BareAfterRef(SENTINEL_BODY, t);
  }

  /** Escaped text holds no bare '$'. */
  lemma {:induction false} EscapedHasNoBare(s: string)
    ensures !Bare(Escaped(s))
    decreases |s|
  {
    hide *;
    if s == "" {
      EscapedNothing();
      NothingIsNotBare();
    } else {
      EscapedHasNoBare(s[HeadLen(s)..]);
      EscapedStep(s);
      HeadAddsNoBare(s);
    }
  }

  lemma NothingIsNotBare()
    ensures !Bare("")
  {
  }

  lemma HeadIs(s: string)
    requires s != ""
    ensures var r := s[1..];
            HeadText(s) ==
            if s[0] != '$' then [s[0]] else if RefLen(r) > 0 then "$" + r[..RefLen(r)] else SENTINEL_REF
    ensures s[0] == '$' ==> s[HeadLen(s)..] == s[1..][RefLen(s[1..])..]
  {
    hide RefLen;
    if s[0] != '$' { assert s[..1] == [s[0]]; }
  }

  lemma HeadAddsNoBare(s: string)
    requires s != ""
    ensures var rest := Escaped(s[HeadLen(s)..]); Bare(HeadText(s) + rest) ==> Bare(rest)
  {
    hide Escaped, RefLen, Bare, HeadText, HeadLen;
    var r, rest := s[1..], Escaped(s[HeadLen(s)..]);
    HeadIs(s);
    if s[0] != '$' {
      if Bare(HeadText(s) + rest) { BareSplit([s[0]], rest); }
    } else if RefLen(r) > 0 {
      var n := RefLen(r);
      assert rest + "" == rest;
      AfterRef(r, "");
      if Bare("$" + r[..n] + rest) { BareAfterRef(r, rest); }
    } else {
      if Bare(SENTINEL_REF + rest) { BareAfterSentinel(rest); }
    }
  }

  /** hasBareDollar tells exactly when escaping changes the text. */
  lemma {:induction false} BareIffChanged(s: string)
    ensures Bare(s) <==> Escaped(s) != s
  {
    EscapedHasNoBare(s);
    if !Bare(s) { EscapeWithoutBare(s); }
  }

  lemma {:induction false} EscapeIsIdempotent(s: string)
    ensures Escaped(Escaped(s)) == Escaped(s)
  {
    EscapedHasNoBare(s);
    EscapeWithoutBare(Escaped(s));
  }

  // ---- Expansion undoes escaping ----

  /** The name inside the reference at the start of s. */
  function RefName(s: string): string
    requires RefLen(s) > 0
  {
    if s[0] == '{' then s[1..RefLen(s) - 1] else s[..RefLen(s)]
  }

  /** The value s is meant to have in the engine: every reference replaced by its
      variable, every other byte, and so every other '$', kept. */
  function Meaning(s: string, env: Env): string
    decreases |s|
  {
    if s == "" then ""
    else if s[0] == '$' && RefLen(s[1..]) > 0 then
      Getenv(env, RefName(s[1..])) + Meaning(s[1 + RefLen(s[1..])..], env)
    else [s[0]] + Meaning(s[1..], env)
  }

  /** The environment the supervisor gives the engine when it escaped something. */
  ghost predicate HasSentinel(env: Env) {
    SENTINEL_VAR in env && env[SENTINEL_VAR] == "$"
  }

  /** os.Expand reads a reference exactly as the escaper does. */
  lemma ShellNameOfRef(s: string, t: string)
    requires RefLen(s) > 0
    requires s[0] == '{' || Boundary(t)
    ensures GetShellName(s[..RefLen(s)] + t) == ShellName(RefName(s), RefLen(s)) && RefName(s) != ""
  {
    var n := RefLen(s);
    var u := s[..n] + t;
    assert forall k :: 0 <= k < n ==> u[k] == s[k];
    if s[0] == '{' {
      var v := u[1..];
      assert v[n - 2] == '}';
      assert forall k :: 0 <= k < n - 2 ==> v[k] == s[k + 1] && IsNameByte(v[k]);
      assert BraceEnd(v) == n - 2;
      assert u[1..n - 1] == s[1..n - 1];
    } else {
      assert |u| > n ==> u[n] == t[0];
      assert NameRun(u) == n;
      assert u[..n] == s[..n];
    }
  }

  lemma ExpandRef(s: string, t: string, env: Env)
    requires RefLen(s) > 0
    requires s[0] == '{' || Boundary(t)
    ensures Expand("$" + s[..RefLen(s)] + t, env) == Getenv(env, RefName(s)) + Expand(t, env)
  {
    hide GetShellName, RefLen, RefName;
    var n := RefLen(s);
    var u := "$" + s[..n] + t;
    ShellNameOfRef(s, t);
    assert u[1..] == s[..n] + t;
    assert u[1 + n..] == t;
  }

  lemma ExpandSentinel(t: string, env: Env)
    requires HasSentinel(env)
    ensures Expand(SENTINEL_REF + t, env) == "$" + Expand(t, env)
  {
    hide Expand, RefLen, RefName;
    SentinelIsRef();
    ExpandRef(SENTINEL_BODY, t, env);
    assert SENTINEL_REF == "$" + SENTINEL_BODY[..11];
  }

  /** In the engine the text of s stands for s, whatever text t comes after it. */
  ghost predicate Faithful(s: string, t: string, env: Env) {
    Expand(Escaped(s) + t, env) == Meaning(s, env) + Expand(t, env)
  }

  lemma Assoc(a: string, b: string, c: string)
    ensures a + (b + c) == a + b + c
  {
  }

  /** The written head of a value, then its faithful tail. */
  lemma FaithfulHead(e: string, m: string, s: string, r: string, t: string, env: Env)
    requires Escaped(s) == e + Escaped(r) && Meaning(s, env) == m + Meaning(r, env)
    requires Expand(e + (Escaped(r) + t), env) == m + Expand(Escaped(r) + t, env)
    requires Faithful(r, t, env)
    ensures Faithful(s, t, env)
  {
    Assoc(e, Escaped(r), t);
    Assoc(m, Meaning(r, env), Expand(t, env));
  }

  lemma FaithfulChar(c: char, s: string, t: string, env: Env)
    requires c != '$'
    requires Faithful(s, t, env)
    ensures Faithful([c] + s, t, env)
  {
    assert ([c] + s)[1..] == s;
    ExpandPlain([c], Escaped(s) + t, env);
    FaithfulHead([c], [c], [c] + s, s, t, env);
  }

  lemma RefStep(s: string, env: Env)
    requires RefLen(s) > 0
    ensures var n := RefLen(s);
            && Escaped("$" + s) == "$" + s[..n] + Escaped(s[n..])
            && Meaning("$" + s, env) == Getenv(env, RefName(s)) + Meaning(s[n..], env)
  {
    var n := RefLen(s);
    assert ("$" + s)[1..] == s;
    assert ("$" + s)[..1 + n] == "$" + s[..n];
    assert ("$" + s)[1 + n..] == s[n..];
  }

  lemma FaithfulRef(s: string, t: string, env: Env)
    requires RefLen(s) > 0 && Boundary(t)
    requires Faithful(s[RefLen(s)..], t, env)
    ensures Faithful("$" + s, t, env)
  {
    var n := RefLen(s);
    AfterRef(s, t);
    RefStep(s, env);
    ExpandRef(s, Escaped(s[n..]) + t, env);
    FaithfulHead("$" + s[..n], Getenv(env, RefName(s)), "$" + s, s[n..], t, env);
  }

  lemma FaithfulBare(s: string, t: string, env: Env)
    requires RefLen(s) == 0 && HasSentinel(env)
    requires Faithful(s, t, env)
    ensures Faithful("$" + s, t, env)
  {
    assert ("$" + s)[1..] == s;
    ExpandSentinel(Escaped(s) + t, env);
    FaithfulHead(SENTINEL_REF, "$", "$" + s, s, t, env);
  }

  /** The text written for one value is expanded to that value's meaning whatever
      follows it, as long as what follows does not start with a name byte: no value
      reaches into the text after it, not even through an open brace. */
  lemma {:induction false} ExpandEscapedThen(s: string, t: string, env: Env)
    requires (Bare(s) ==> HasSentinel(env)) && Boundary(t)
    ensures Faithful(s, t, env)
    decreases |s|
  {
    if s == "" {
      assert Escaped(s) + t == t;
    } else {
      var c, r := s[0], s[1..];
      var n := if c == '$' then RefLen(r) else 0;
      assert s == [c] + r && s[1 + n..] == r[n..];
      BareSuffix(s, 1 + n);
      ExpandEscapedThen(r[n..], t, env);
      if c != '$' {
        FaithfulChar(c, r, t, env);
      } else if n > 0 {
        FaithfulRef(r, t, env);
      } else {
        FaithfulBare(r, t, env);
      }
    }
  }

  /** The composition theorem. The sentinel is needed only if something was escaped. */
  lemma ExpandUndoesEscape(s: string, env: Env)
    requires Bare(s) ==> HasSentinel(env)
    ensures Expand(Escaped(s), env) == Meaning(s, env)
  {
    assert Escaped(s) + "" == Escaped(s);
    ExpandEscapedThen(s, "", env);
  }

  /** A value that contains no reference reaches gobackup byte for byte. */
  lemma {:induction false} LiteralSurvives(s: string, env: Env)
    requires Bare(s) ==> HasSentinel(env)
    requires forall i :: 0 <= i < |s| && s[i] == '$' ==> BareAt(s, i)
    ensures Expand(Escaped(s), env) == s
  {
    MeaningOfLiteral(s, env);
    ExpandUndoesEscape(s, env);
  }

  lemma {:induction false} MeaningOfLiteral(s: string, env: Env)
    requires forall i :: 0 <= i < |s| && s[i] == '$' ==> BareAt(s, i)
    ensures Meaning(s, env) == s
  {
    if s != "" {
      assert s[0] == '$' ==> BareAt(s, 0);
      forall i | 0 <= i < |s[1..]| && s[1..][i] == '$' ensures BareAt(s[1..], i) {
        assert BareAt(s, i + 1);
        assert s[1..][i + 1..] == s[i + 2..];
      }
      MeaningOfLiteral(s[1..], env);
    }
  }

  // ---- Text that is not escaped ----

  /** What opens a brace unescaped swallows the text after it up to the next '}'. */
  lemma OpenBraceSwallows(t: string, rest: string, env: Env)
    requires |t| >= 2 && '}' !in t
    ensures Expand("${" + t + "}" + rest, env) == Getenv(env, t) + Expand(rest, env)
  {
    hide BraceEnd;
    var u := "${" + t + "}" + rest;
    NameInBraces(t, rest);
    assert u[1..] == "{" + t + "}" + rest;
    assert u[3 + |t|..] == rest;
  }

  lemma NameInBraces(t: string, rest: string)
    requires |t| >= 2 && '}' !in t
    ensures GetShellName("{" + t + "}" + rest) == ShellName(t, |t| + 2)
  {
    hide BraceEnd;
    var u := "{" + t + "}" + rest;
    var v := u[1..];
    assert v[|t|] == '}';
    assert forall k :: 0 <= k < |t| ==> v[k] == t[k];
    assert BraceEnd(v) == |t|;
    assert u[1..1 + |t|] == t;
  }
}
