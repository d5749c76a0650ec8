// The config file as gobackup reads it: one text, expanded as a whole, of which some parts
// were escaped and others, map keys and rewritten includes, were written as they are
// (internal/render/escape.go:128-159, internal/pipeline/volumes.go:227-232).
module FileText {
  import opened Expansion
  import opened Escape

  // ---- Text that is not escaped ----

  /** A byte before which os.Expand leaves a '$' alone. */
  predicate Quiet(c: char) {
    !IsNameByte(c) && !IsSpecial(c) && c != '{'
  }

  /** A '$' that no reference follows, and that os.Expand does not leave alone. */
  predicate HarmfulAt(s: string, i: nat) {
    i + 1 < |s| && s[i] == '$' && RefLen(s[i + 1..]) == 0 && !Quiet(s[i + 1])
  }

  predicate Harmful(s: string) {
    exists i | 0 <= i < |s| :: HarmfulAt(s, i)
  }

  /** Text that may follow a part of the file: it ends every reference and every name. */
  ghost predicate Closes(t: string) {
    t != "" ==> Quiet(t[0]) && t[0] != '}'
  }

  lemma HarmfulSuffix(s: string, k: nat)
    requires k <= |s|
    ensures Harmful(s[k..]) ==> Harmful(s)
    ensures '$' !in s[..k] ==> (Harmful(s) <==> Harmful(s[k..]))
  {
    var t := s[k..];
    forall i | 0 <= i < |t| ensures HarmfulAt(t, i) <==> HarmfulAt(s, k + i) {
      assert t[i + 1..] == s[k + i + 1..];
    }
    if '$' !in s[..k] {
      forall i | 0 <= i < k ensures !HarmfulAt(s, i) {
        assert s[i] == s[..k][i];
      }
      forall i | k <= i < |s| ensures HarmfulAt(s, i) <==> HarmfulAt(t, i - k) {
      }
    }
  }

  /** Past a '$' that does no harm nothing changes. */
  lemma HarmlessHead(s: string, k: nat)
    requires 0 < k <= |s| && !HarmfulAt(s, 0) && '$' !in s[1..k]
    ensures Harmful(s) <==> Harmful(s[k..])
  {
    HarmfulSuffix(s, k);
    forall j | 1 <= j < k ensures s[j] != '$' {
      assert s[j] == s[1..k][j - 1];
    }
    if Harmful(s) {
      var i :| 0 <= i < |s| && HarmfulAt(s, i);
      assert s[k..][i - k + 1..] == s[i + 1..];
      assert HarmfulAt(s[k..], i - k);
    }
  }

  lemma LeftAlone(u: string, env: Env)
    requires u == "" || Quiet(u[0])
    ensures Expand("$" + u, env) == "$" + Expand(u, env)
  {
    var s := "$" + u;
    assert s[1..] == u;
    if u != "" {
      assert NameRun(u) == 0;
      assert u[..0] == "";
    }
  }

  /** The value as it is meant, and whatever the rest of the file comes to. */
  ghost predicate ReadApart(s: string, t: string, env: Env) {
    Expand(s + t, env) == Meaning(s, env) + Expand(t, env)
  }

  /** Text without harm needs no escaping. */
  lemma {:induction false} HarmlessIsReadApart(s: string, t: string, env: Env)
    requires !Harmful(s) && Closes(t)
    ensures ReadApart(s, t, env)
    decreases |s|
  {
    hide Expand, Meaning, RefLen, Harmful;
    if s == "" {
      NothingMeant(env);
      assert s + t == t && "" + Expand(t, env) == Expand(t, env);
    } else {
      var n := HeadLen(s);
      NotHarmfulAt(s, 0);
      HeadHasOneDollar(s);
      HarmlessHead(s, n);
      HarmlessIsReadApart(s[n..], t, env);
      HeadIsReadApart(s, t, env);
    }
  }

  lemma NothingMeant(env: Env)
    ensures Meaning("", env) == "" && Expand("", env) == ""
  {
  }

  lemma NotHarmfulAt(s: string, i: nat)
    requires !Harmful(s) && i < |s|
    ensures !HarmfulAt(s, i)
  {
  }

  lemma HeadHasOneDollar(s: string)
    requires s != ""
    ensures '$' !in s[1..HeadLen(s)]
  {
    if s[0] == '$' {
      RefHasNoDollar(s[1..]);
      assert s[1..HeadLen(s)] == s[1..][..RefLen(s[1..])];
    }
  }

  lemma HeadIsReadApart(s: string, t: string, env: Env)
    requires s != "" && !HarmfulAt(s, 0) && Closes(t)
    requires ReadApart(s[HeadLen(s)..], t, env)
    ensures ReadApart(s, t, env)
  {
    hide Expand, Meaning, RefLen, HeadMeaning;
    MeaningHead(s, env);
    HeadExpands(s, t, env);
    Assoc(HeadMeaning(s, env), Meaning(s[HeadLen(s)..], env), Expand(t, env));
  }

  lemma HeadExpands(s: string, t: string, env: Env)
    requires s != "" && !HarmfulAt(s, 0) && Closes(t)
    ensures Expand(s + t, env) == HeadMeaning(s, env) + Expand(s[HeadLen(s)..] + t, env)
  {
    hide Expand, RefLen;
    var n := HeadLen(s);
    var rest := s[n..];
    if s[0] != '$' {
      assert s + t == [s[0]] + (rest + t);
      ExpandPlain([s[0]], rest + t, env);
    } else if n > 1 {
      var r := s[1..];
      assert s + t == "$" + r[..n - 1] + (rest + t) && r[n - 1..] == rest;
      AfterRawRef(r, t);
      ExpandRef(r, rest + t, env);
    } else {
      assert s + t == "$" + (rest + t);
      assert rest != "" ==> rest[0] == s[1];
      LeftAlone(rest + t, env);
    }
  }

  lemma AfterRawRef(r: string, t: string)
    requires RefLen(r) > 0 && Closes(t)
    ensures r[0] == '{' || Boundary(r[RefLen(r)..] + t)
  {
  }

  /** What the head of s means. */
  function HeadMeaning(s: string, env: Env): string
    requires s != ""
  {
    if s[0] == '$' && RefLen(s[1..]) > 0 then Getenv(env, RefName(s[1..])) else [s[0]]
  }

  lemma MeaningHead(s: string, env: Env)
    requires s != ""
    ensures Meaning(s, env) == HeadMeaning(s, env) + Meaning(s[HeadLen(s)..], env)
    ensures HeadLen(s) == (if s[0] == '$' then 1 + RefLen(s[1..]) else 1)
  {
    assert s[0] == '$' && RefLen(s[1..]) > 0 ==> s[1..][RefLen(s[1..])..] == s[1 + RefLen(s[1..])..];
  }

  // ---- Harm does show ----

  /** An environment in which every variable but the sentinel is empty. */
  const PROBE: Env := map[SENTINEL_VAR := "$"]

  function Dollars(s: string): nat {
    if s == "" then 0 else (if s[0] == '$' then 1 else 0) + Dollars(s[1..])
  }

  lemma {:induction false} DollarsConcat(a: string, b: string)
    ensures Dollars(a + b) == Dollars(a) + Dollars(b)
  {
    if a == "" {
      assert a + b == b;
    } else {
      assert (a + b)[1..] == a[1..] + b;
      DollarsConcat(a[1..], b);
    }
  }

  lemma {:induction false} NoDollars(s: string)
    ensures Dollars(s) == 0 <==> '$' !in s
  {
    if s != "" {
      NoDollars(s[1..]);
      assert s == [s[0]] + s[1..];
    }
  }

  /** The dollars that are meant to stay. */
  function Meant(s: string): nat {
    Dollars(Meaning(s, PROBE))
  }

  function Read(s: string): nat {
    Dollars(Expand(s, PROBE))
  }

  lemma MeantHead(s: string)
    requires s != ""
    ensures Meant(s) == Dollars(HeadMeaning(s, PROBE)) + Meant(s[HeadLen(s)..])
    ensures s[0] != '$' ==> Dollars(HeadMeaning(s, PROBE)) == 0
    ensures s[0] == '$' && RefLen(s[1..]) == 0 ==> Dollars(HeadMeaning(s, PROBE)) == 1
  {
    hide Meaning;
    MeaningHead(s, PROBE);
    DollarsConcat(HeadMeaning(s, PROBE), Meaning(s[HeadLen(s)..], PROBE));
    if s[0] != '$' || RefLen(s[1..]) == 0 { assert Dollars([s[0]]) == (if s[0] == '$' then 1 else 0) + Dollars(""); }
  }

  lemma {:induction false} MeantPlain(p: string, r: string)
    requires '$' !in p
    ensures Meant(p + r) == Meant(r)
  {
    hide Meaning;
    if p == "" {
      assert p + r == r;
    } else {
      MeantHead(p + r);
      assert (p + r)[1..] == p[1..] + r && (p + r)[0] == p[0] && p[0] in p;
      MeantPlain(p[1..], r);
    }
  }

  /** A suffix means no more dollars than the whole. */
  lemma {:induction false} MeantSuffix(s: string, k: nat)
    requires k <= |s|
    ensures Meant(s[k..]) <= Meant(s)
    decreases k
  {
    hide Meaning;
    if k == 0 {
      assert s[0..] == s;
    } else {
      var t := s[1..];
      MeantSuffix(t, k - 1);
      assert t[k - 1..] == s[k..];
      MeantHead(s);
      HeadHasOneDollar(s);
      MeantPlain(s[1..HeadLen(s)], s[HeadLen(s)..]);
      assert t == s[1..HeadLen(s)] + s[HeadLen(s)..];
    }
  }

  /** What os.Expand takes after a '$' ends at the first '}' if it gets that far. */
  lemma TakenEndsAtBrace(s: string, k: nat)
    requires k < |s| && s[k] == '}' && '}' !in s[..k]
    ensures GetShellName(s).width <= k + 1
  {
    if s[0] == '{' {
      var v := s[1..];
      assert v[k - 1] == '}';
      assert BraceEnd(v) <= k - 1;
    } else {
      assert NameRun(s) <= k;
    }
  }

  lemma ReadTaken(s: string)
    requires s != "" && s[0] == '$' && |s| > 1 && GetShellName(s[1..]).width > 0
    ensures Read(s[1 + GetShellName(s[1..]).width..]) <= Read(s)
    ensures GetShellName(s[1..]).name != SENTINEL_VAR ==> Read(s) == Read(s[1 + GetShellName(s[1..]).width..])
  {
    var n := GetShellName(s[1..]);
    var put := if n.name != "" then Getenv(PROBE, n.name) else "";
    DollarsConcat(put, Expand(s[1 + n.width..], PROBE));
  }

  lemma ReadStays(s: string)
    requires s != "" && (s[0] != '$' || |s| == 1 || GetShellName(s[1..]).width == 0)
    ensures Read(s) == Read(s[1..]) + if s[0] == '$' then 1 else 0
  {
    hide RefLen;
    assert Expand(s, PROBE) == [s[0]] + Expand(s[1..], PROBE);
    DollarsConcat([s[0]], Expand(s[1..], PROBE));
    assert Dollars([s[0]]) == (if s[0] == '$' then 1 else 0) + Dollars("");
  }

  /** What is left of a text behind its first '}' reads no more dollars than the whole. */
  lemma {:induction false} ReadBehindBrace(t: string, k: nat)
    requires k < |t| && t[k] == '}' && '}' !in t[..k]
    ensures Read(t[k + 1..]) <= Read(t)
    decreases k
  {
    hide Expand, GetShellName;
    if k == 0 {
      ReadStays(t);
    } else {
      var w := if t[0] == '$' then GetShellName(t[1..]).width else 0;
      assert forall c :: c in t[1..k] ==> c in t[..k];
      if w == 0 {
        ReadStays(t);
        assert t[1..][..k - 1] == t[1..k] && t[1..][k..] == t[k + 1..];
        ReadBehindBrace(t[1..], k - 1);
      } else {
        assert t[1..][..k - 1] == t[1..k];
        TakenEndsAtBrace(t[1..], k - 1);
        ReadTaken(t);
        if w < k {
          var u := t[1 + w..];
          assert u[..k - 1 - w] == t[1 + w..k] && u[k - w..] == t[k + 1..];
          assert forall c :: c in t[1 + w..k] ==> c in t[..k];
          ReadBehindBrace(u, k - 1 - w);
        }
      }
    }
  }

  /** What os.Expand takes at a harmful '$' is not the sentinel, and ends in the value, or
      behind it at the first '}' of the text that follows. */
  lemma HarmTakes(r: string, t: string)
    requires r != "" && RefLen(r) == 0 && !Quiet(r[0]) && Closes(t)
    ensures var g := GetShellName(r + t);
            && g.width > 0 && g.name != SENTINEL_VAR
            && (g.width > |r| ==> var k := g.width - |r| - 1; k < |t| && t[k] == '}' && '}' !in t[..k])
  {
    var u := r + t;
    if r[0] == '{' {
      HarmTakesBrace(r, t);
    } else if !IsSpecial(r[0]) {
      var n := NameRun(r);
      assert forall i :: 0 <= i < n ==> u[i] == r[i];
      assert NameRun(u) == n by { assert |u| > n ==> u[n] == if n < |r| then r[n] else t[0]; }
      assert u[..n] == r[..n];
      assert n < 2 || !IsLetter(r[0]);
      assert IsLetter(SENTINEL_VAR[0]) && |SENTINEL_VAR| == 9;
    } else {
      assert |GetShellName(u).name| == 1;
    }
  }

  lemma HarmTakesBrace(r: string, t: string)
    requires r != "" && RefLen(r) == 0 && r[0] == '{' && Closes(t)
    ensures var g := GetShellName(r + t);
            && g.width > 0 && g.name != SENTINEL_VAR
            && (g.width > |r| ==> var k := g.width - |r| - 1; k < |t| && t[k] == '}' && '}' !in t[..k])
  {
    var u := r + t;
    var g := GetShellName(u);
    if g.width > |r| {
      BraceReaches(r, t);
    } else if g.name == SENTINEL_VAR {
      assert g.name == u[1..g.width - 1] == r[1..g.width - 1];
      assert r[g.width - 1] == u[g.width - 1] == '}' by { assert u[1..][g.width - 2] == u[g.width - 1]; }
      BracedSentinel(r, g.width);
    }
  }

  lemma BracedSentinel(r: string, n: nat)
    requires 2 <= n <= |r| && r[0] == '{' && r[n - 1] == '}' && r[1..n - 1] == SENTINEL_VAR
    ensures RefLen(r) > 0
  {
    hide RefLen, RefName;
    SentinelIsRef();
    assert r[..n] == "{" + r[1..n - 1] + "}" == SENTINEL_BODY;
    RefInContext(SENTINEL_BODY, r[n..]);
    assert SENTINEL_BODY[..11] + r[n..] == r;
  }

  /** An open brace closed in the text that follows. */
  lemma BraceReaches(r: string, t: string)
    requires r != "" && r[0] == '{' && Closes(t) && GetShellName(r + t).width > |r|
    ensures var g := GetShellName(r + t); var k := g.width - |r| - 1;
            g.name != SENTINEL_VAR && k < |t| && t[k] == '}' && '}' !in t[..k]
  {
    hide BraceEnd, GetShellName;
    var u, g := r + t, GetShellName(r + t);
    var v, end := u[1..], BraceEnd(u[1..]);
    WideName(r, t);
    var k := g.width - |r| - 1;
    assert forall i :: 0 <= i <= k && i < |t| ==> t[i] == v[|r| - 1 + i];
    assert g.name[|r| - 1] == u[|r|] == t[0];
  }

  /** A name that ends behind r is a name in braces. */
  lemma WideName(r: string, t: string)
    requires r != "" && r[0] == '{' && Closes(t) && GetShellName(r + t).width > |r|
    ensures var u, g := r + t, GetShellName(r + t); var end := BraceEnd(u[1..]);
            end < |u| - 1 && g.width == end + 2 && g.name == u[1..end + 1]
  {
    hide BraceEnd;
    var u := r + t;
    assert |r| == 1 ==> u[1] == t[0];
    assert |r| == 2 ==> u[2] == t[0];
  }

  /** Harm loses dollars, and nothing makes up for them. */
  lemma {:induction false} HarmLosesDollars(s: string, t: string)
    requires Closes(t)
    ensures Read(s + t) <= Meant(s) + Read(t)
    ensures Harmful(s) ==> Read(s + t) < Meant(s) + Read(t)
    decreases |s|
  {
    hide Expand, Meaning, RefLen, HeadMeaning, GetShellName, Harmful;
    if s == "" {
      NothingHarmful();
      assert s + t == t;
    } else if HarmfulAt(s, 0) {
      HarmfulHeadLoses(s, t);
    } else {
      var rest := s[HeadLen(s)..];
      HeadHasOneDollar(s);
      HarmlessHead(s, HeadLen(s));
      HarmLosesDollars(rest, t);
      MeantHead(s);
      HeadExpands(s, t, PROBE);
      DollarsConcat(HeadMeaning(s, PROBE), Expand(rest + t, PROBE));
    }
  }

  lemma NothingHarmful()
    ensures !Harmful("")
  {
  }

  lemma {:induction false} HarmfulHeadLoses(s: string, t: string)
    requires s != "" && HarmfulAt(s, 0) && Closes(t)
    ensures Read(s + t) < Meant(s) + Read(t)
    decreases |s|, 0
  {
    hide Expand, Meaning, RefLen, HeadMeaning, GetShellName, Harmful;
    var r, u := s[1..], s + t;
    HarmTakes(r, t);
    var w := GetShellName(r + t).width;
    assert u[1..] == r + t;
    ReadTaken(u);
    MeantHead(s);
    if w <= |r| {
      assert u[1 + w..] == r[w..] + t;
      HarmLosesDollars(r[w..], t);
      MeantSuffix(r, w);
    } else {
      var k := w - |r| - 1;
      assert u[1 + w..] == t[k + 1..];
      ReadBehindBrace(t, k);
    }
  }

  /** In every environment the file is read with s as it is meant, exactly when s holds no
      harmful '$'. */
  lemma HarmlessExactly(s: string, t: string)
    requires Closes(t)
    ensures (forall env :: ReadApart(s, t, env)) <==> !Harmful(s)
  {
    if Harmful(s) {
      HarmLosesDollars(s, t);
      DollarsConcat(Meaning(s, PROBE), Expand(t, PROBE));
      assert !ReadApart(s, t, PROBE);
    } else {
      forall env: Env ensures ReadApart(s, t, env) { HarmlessIsReadApart(s, t, env); }
    }
  }

  // ---- Read as written ----

  /** Every '$' is literally meant. */
  ghost predicate Literal(s: string) {
    forall i :: 0 <= i < |s| && s[i] == '$' ==> BareAt(s, i)
  }

  lemma LiteralHead(s: string)
    requires s != ""
    ensures Literal(s) ==> Literal(s[HeadLen(s)..]) && (s[0] == '$' ==> RefLen(s[1..]) == 0)
    ensures s[0] == '$' && RefLen(s[1..]) > 0 ==> !Literal(s)
    ensures !(s[0] == '$' && RefLen(s[1..]) > 0) && !Literal(s) ==> !Literal(s[HeadLen(s)..])
  {
    hide RefLen;
    var n := HeadLen(s);
    forall i | 0 <= i < |s| - n ensures BareAt(s[n..], i) <==> BareAt(s, n + i) {
      assert s[n..][i + 1..] == s[n + i + 1..];
    }
    assert s[0] == '$' && RefLen(s[1..]) > 0 ==> !BareAt(s, 0);
    if !(s[0] == '$' && RefLen(s[1..]) > 0) && !Literal(s) {
      var i :| 0 <= i < |s| && s[i] == '$' && !BareAt(s, i);
      assert i > 0 && s[n..][i - n] == '$' && !BareAt(s[n..], i - n);
    }
  }

  /** A reference costs bytes, and brings no dollar that was not there. */
  lemma {:induction false} ReferencesShrink(s: string)
    ensures |Meaning(s, PROBE)| <= |s| && Meant(s) <= Dollars(s)
    ensures !Literal(s) ==> |Meaning(s, PROBE)| < |s|
    decreases |s|
  {
    hide Meaning, RefLen;
    if s == "" {
      NothingMeant(PROBE);
    } else {
      var n := HeadLen(s);
      ReferencesShrink(s[n..]);
      LiteralHead(s);
      MeaningHead(s, PROBE);
      MeantHead(s);
      HeadShrinks(s);
      DollarsConcat(s[..n], s[n..]);
      assert s == s[..n] + s[n..];
    }
  }

  lemma HeadShrinks(s: string)
    requires s != ""
    ensures |HeadMeaning(s, PROBE)| <= HeadLen(s) && Dollars(HeadMeaning(s, PROBE)) <= Dollars(s[..HeadLen(s)])
    ensures s[0] == '$' && RefLen(s[1..]) > 0 ==> |HeadMeaning(s, PROBE)| < HeadLen(s)
  {
    assert s[..HeadLen(s)][0] == s[0];
    assert Dollars("$") == 1 + Dollars("") && Dollars([s[0]]) == (if s[0] == '$' then 1 else 0) + Dollars("");
  }

  /** What is on file for s is read as s. */
  ghost predicate ReadAs(file: string, s: string, t: string, env: Env) {
    Expand(file + t, env) == s + Expand(t, env)
  }

  /** In every environment unescaped text is read as it is written exactly when every '$' in it
      is literally meant and does no harm. */
  lemma ReadAsWrittenExactly(s: string, t: string)
    requires Closes(t)
    ensures (forall env :: ReadAs(s, s, t, env)) <==> Literal(s) && !Harmful(s)
  {
    hide Expand, Meaning, RefLen, Harmful;
    if Literal(s) && !Harmful(s) {
      forall env: Env ensures ReadAs(s, s, t, env) {
        MeaningOfLiteral(s, env);
        HarmlessIsReadApart(s, t, env);
      }
    } else {
      ReferencesShrink(s);
      HarmLosesDollars(s, t);
      DollarsConcat(s, Expand(t, PROBE));
      if !Harmful(s) { HarmlessIsReadApart(s, t, PROBE); }
      assert !ReadAs(s, s, t, PROBE);
    }
  }

  /** Escaped text is read as the value exactly when every '$' in the value is literally meant. */
  lemma EscapedIsReadExactly(s: string, t: string)
    requires Closes(t)
    ensures (forall env :: HasSentinel(env) ==> ReadAs(Escaped(s), s, t, env)) <==> Literal(s)
  {
    hide Expand, Meaning, RefLen, Escaped;
    forall env: Env | HasSentinel(env) ensures Faithful(s, t, env) { ExpandEscapedThen(s, t, env); }
    if Literal(s) {
      forall env: Env ensures Meaning(s, env) == s { MeaningOfLiteral(s, env); }
    } else {
      ReferencesShrink(s);
      assert HasSentinel(PROBE) && Faithful(s, t, PROBE) && !ReadAs(Escaped(s), s, t, PROBE);
    }
  }

  // ---- The whole file ----

  /** A part of the file, whether it was escaped, and the text that the encoder puts behind. */
  datatype Part = Part(value: string, escaped: bool, after: string)

  function OnFile(p: Part): string {
    if p.escaped then Escaped(p.value) else p.value
  }

  ghost predicate Separated(ps: seq<Part>) {
    forall k :: 0 <= k < |ps| ==> ps[k].after != "" && Closes(ps[k].after) && '$' !in ps[k].after
  }

  function Written(ps: seq<Part>): string {
    if ps == [] then "" else OnFile(ps[0]) + (ps[0].after + Written(ps[1..]))
  }

  function Intended(ps: seq<Part>, env: Env): string {
    if ps == [] then "" else Meaning(ps[0].value, env) + (ps[0].after + Intended(ps[1..], env))
  }

  /** Expanding the file as one text gives each part its meaning. */
  ghost predicate FileReadAsMeant(ps: seq<Part>, env: Env) {
    Expand(Written(ps), env) == Intended(ps, env)
  }

  /** Some part that was not escaped does harm. */
  ghost predicate SomeHarm(ps: seq<Part>) {
    exists k :: 0 <= k < |ps| && !ps[k].escaped && Harmful(ps[k].value)
  }

  lemma SomeHarmHead(ps: seq<Part>)
    requires ps != []
    ensures SomeHarm(ps) <==> (!ps[0].escaped && Harmful(ps[0].value)) || SomeHarm(ps[1..])
    ensures Separated(ps) ==> Separated(ps[1..])
  {
    if SomeHarm(ps[1..]) {
      var k :| 0 <= k < |ps| - 1 && !ps[1..][k].escaped && Harmful(ps[1..][k].value);
      assert ps[k + 1] == ps[1..][k];
    }
    if SomeHarm(ps) {
      var k :| 0 <= k < |ps| && !ps[k].escaped && Harmful(ps[k].value);
      assert k > 0 ==> ps[1..][k - 1] == ps[k];
    }
  }

  /** The sentinel is there if some part needs it. */
  ghost predicate Served(ps: seq<Part>, env: Env) {
    forall k :: 0 <= k < |ps| && ps[k].escaped && Bare(ps[k].value) ==> HasSentinel(env)
  }

  /** The file is read as it is meant if no part does harm. */
  lemma {:induction false} FileIsRead(ps: seq<Part>, env: Env)
    requires Separated(ps) && !SomeHarm(ps) && Served(ps, env)
    ensures FileReadAsMeant(ps, env)
  {
    hide Expand, Escaped, Meaning, Bare, Harmful;
    if ps == [] {
      NothingMeant(env);
    } else {
      var p, rest := ps[0], Written(ps[1..]);
      SomeHarmHead(ps);
      FileIsRead(ps[1..], env);
      ExpandPlain(p.after, rest, env);
      if p.escaped {
        ExpandEscapedThen(p.value, p.after + rest, env);
      } else {
        HarmlessIsReadApart(p.value, p.after + rest, env);
      }
    }
  }

  lemma {:induction false} FileLosesDollars(ps: seq<Part>)
    requires Separated(ps)
    ensures Read(Written(ps)) <= Dollars(Intended(ps, PROBE))
    ensures SomeHarm(ps) ==> Read(Written(ps)) < Dollars(Intended(ps, PROBE))
  {
    hide Expand, Escaped, Meaning, Harmful;
    if ps == [] {
      NothingMeant(PROBE);
    } else {
      var p, rest := ps[0], Written(ps[1..]);
      SomeHarmHead(ps);
      FileLosesDollars(ps[1..]);
      ExpandPlain(p.after, rest, PROBE);
      DollarsConcat(p.after, Expand(rest, PROBE));
      DollarsConcat(p.after, Intended(ps[1..], PROBE));
      DollarsConcat(Meaning(p.value, PROBE), p.after + Intended(ps[1..], PROBE));
      if p.escaped {
        ExpandEscapedThen(p.value, p.after + rest, PROBE);
        DollarsConcat(Meaning(p.value, PROBE), Expand(p.after + rest, PROBE));
      } else {
        HarmLosesDollars(p.value, p.after + rest);
      }
    }
  }

  /** In every environment with the sentinel the file is read as it is meant, exactly when no
      part that was not escaped does harm. */
  lemma FileIsReadExactly(ps: seq<Part>)
    requires Separated(ps)
    ensures (forall env :: HasSentinel(env) ==> FileReadAsMeant(ps, env)) <==> !SomeHarm(ps)
  {
    hide Expand, Escaped, Meaning, Harmful;
    if SomeHarm(ps) {
      FileLosesDollars(ps);
      assert HasSentinel(PROBE) && !FileReadAsMeant(ps, PROBE);
    } else {
      forall env: Env | HasSentinel(env) ensures FileReadAsMeant(ps, env) { FileIsRead(ps, env); }
    }
  }
}
