// internal/render/model.go:117-155: a credential that a client holds elsewhere appears in the
// config as a reference to an environment variable made for it.
module Credentials {
  import opened Wrappers
  import opened Text
  import opened Trees
  import opened Document
  import opened Paths
  import opened Labels
  import Expansion
  import Escape

  // ---- the variable ----

  function ToUpperByte(c: char): char { if 'a' <= c <= 'z' then c - 'a' + 'A' else c }

  predicate IsVarByte(c: char) { 'A' <= c <= 'Z' || '0' <= c <= '9' || c == '_' }

  function SanitizedByte(c: char): char {
    if IsVarByte(ToUpperByte(c)) then ToUpperByte(c) else '_'
  }

  function Sanitized(s: string): string {
    seq(|s|, i requires 0 <= i < |s| => SanitizedByte(s[i]))
  }

  method SanitizeVar(s: string) returns (b: string)
    ensures b == Sanitized(s)
  {
    b := seq(|s|, i requires 0 <= i < |s| => ToUpperByte(s[i]));
    for i := 0 to |b|
      invariant |b| == |s|
      invariant forall j :: 0 <= j < i ==> b[j] == SanitizedByte(s[j])
      invariant forall j :: i <= j < |s| ==> b[j] == ToUpperByte(s[j])
    {
      if !IsVarByte(b[i]) {
        b := b[i := '_'];
      }
    }
  }

  function SanitizedAll(parts: seq<string>): seq<string> {
    seq(|parts|, i requires 0 <= i < |parts| => Sanitized(parts[i]))
  }

  function CredVar(model: string, path: Path): string {
    Join(SanitizedAll(["GB", model] + path), '_')
  }

  method CredVarName(model: string, path: Path) returns (v: string)
    ensures v == CredVar(model, path)
  {
    var parts := ["GB", model] + path;
    ghost var was := parts;
    for i := 0 to |parts|
      invariant |parts| == |was|
      invariant forall j :: 0 <= j < i ==> parts[j] == Sanitized(was[j])
      invariant forall j :: i <= j < |parts| ==> parts[j] == was[j]
    {
      var s := SanitizeVar(parts[i]);
      parts := parts[i := s];
    }
    assert parts == SanitizedAll(was);
    v := Join(parts, '_');
  }

  function Placeholder(v: string): string { "${" + v + "}" }

  lemma {:induction false} SanitizedJoin(parts: seq<string>, c: char)
    requires !IsVarByte(ToUpperByte(c)) || c == '_'
    ensures Join(SanitizedAll(parts), '_') == Sanitized(Join(parts, c))
  {
    if |parts| > 1 {
      SanitizedJoin(parts[1..], c);
      assert SanitizedAll(parts)[1..] == SanitizedAll(parts[1..]);
    }
  }

  /** The variable of a credential is the name of its model and path, byte by byte. */
  lemma CredVarIs(model: string, path: Path)
    requires path != []
    ensures CredVar(model, path) == "GB_" + Sanitized(model) + "_" + Sanitized(Join(path, '.'))
  {
    var parts := ["GB", model] + path;
    SanitizedJoin(path, '.');
    assert Sanitized("GB") == "GB";
    assert SanitizedAll(parts) == [Sanitized("GB"), Sanitized(model)] + SanitizedAll(path);
    JoinConcat(["GB", Sanitized(model)], SanitizedAll(path), '_');
    assert Join(["GB", Sanitized(model)], '_') == "GB_" + Sanitized(model);
  }

  lemma NameBytes(s: string)
    requires s != "" && Expansion.IsLetter(s[0]) && (forall c :: c in s ==> Expansion.IsNameByte(c)) && |s| >= 2
    ensures Escape.RefLen("{" + s + "}") == |s| + 2
    ensures Escape.Escaped(Placeholder(s)) == Placeholder(s) && !Escape.Bare(Placeholder(s))
  {
    var t := "{" + s + "}";
    assert forall k :: 0 <= k < |s| ==> s[k] in s && t[k + 1] == s[k];
    assert Escape.IsRef(t, |t|);
    Escape.RefLenIsTheReference(t, |t|);
    var p := Placeholder(s);
    assert p[1..] == t;
    assert forall k :: 0 < k < |p| ==> p[k] != '$';
    Escape.EscapeWithoutBare(p);
  }

  lemma VarBytes(model: string, path: Path)
    requires path != []
    ensures var v := CredVar(model, path);
            |v| > 3 && v[..3] == "GB_" && forall c :: c in v ==> Expansion.IsNameByte(c)
  {
    CredVarIs(model, path);
    assert forall c :: c in CredVar(model, path) ==> IsVarByte(c);
  }

  /** Whatever the model and path, escaping leaves the placeholder alone, and its variable is
      not the one that stands for a dollar. */
  lemma PlaceholderIsAReference(model: string, path: Path)
    requires path != []
    ensures var v := CredVar(model, path);
            && "GB_" <= v && v != Escape.SENTINEL_VAR
            && Escape.Escaped(Placeholder(v)) == Placeholder(v)
            && !Escape.Bare(Placeholder(v))
  {
    hide Escape.Escaped, Escape.Bare, CredVar, Join;
    var v, rest := CredVar(model, path), Sanitized(model) + "_" + Sanitized(Join(path, '.'));
    CredVarIs(model, path);
    assert v == "GB_" + rest;
    assert rest[|model|] == '_' && v[|model| + 3] == '_';
    VarBytes(model, path);
    NameBytes(v);
  }

  /** The engine expands the placeholder to what its variable holds. */
  lemma PlaceholderExpands(model: string, path: Path, env: Expansion.Env)
    requires path != []
    ensures Expansion.Expand(Placeholder(CredVar(model, path)), env) == Expansion.Getenv(env, CredVar(model, path))
  {
    hide Expansion.Expand, Expansion.Getenv, Escape.RefLen, Escape.Escaped, Escape.Bare, CredVar;
    var v := CredVar(model, path);
    var t := "{" + v + "}";
    VarBytes(model, path);
    NameBytes(v);
    Expansion.ExpandNothing(env);
    assert t[1..|t| - 1] == v && t[..|t|] == t;
    assert Placeholder(v) == "$" + t[..|t|] + "";
    Escape.ExpandRef(t, "", env);
  }

  /** A byte of a name becomes this one: letters upper case, digits and '_' as they are, others '_'. */
  predicate NamedBy(c: char, b: char) {
    if 'a' <= c <= 'z' then b == c - 'a' + 'A'
    else if 'A' <= c <= 'Z' || '0' <= c <= '9' || c == '_' then b == c
    else b == '_'
  }

  /** The variable, byte by byte, of the model and path with dots between. */
  lemma CredVarBytes(model: string, path: Path)
    requires path != []
    ensures var v, x := CredVar(model, path), model + "." + Join(path, '.');
            |v| == 3 + |x| && v[..3] == "GB_" && forall i :: 0 <= i < |x| ==> NamedBy(x[i], v[3 + i])
  {
    hide CredVar, Join;
    CredVarIs(model, path);
    var v, x := CredVar(model, path), model + "." + Join(path, '.');
    assert v == "GB_" + (Sanitized(model) + "_" + Sanitized(Join(path, '.')));
    forall i | 0 <= i < |x| ensures NamedBy(x[i], v[3 + i]) {
      assert v[3 + i] == (Sanitized(model) + "_" + Sanitized(Join(path, '.')))[i];
    }
  }

  /** Two bytes the variable does not tell apart. */
  predicate Alike(c: char, d: char) {
    ToUpperByte(c) == ToUpperByte(d) || (SanitizedByte(c) == '_' && SanitizedByte(d) == '_')
  }

  /** Variables are not unique: two credentials share one exactly when the texts of model and
      path, with a dot between any two parts, differ in no more than case and punctuation. */
  lemma CredVarCollides(model: string, path: Path, model': string, path': Path)
    requires path != [] && path' != []
    ensures CredVar(model, path) == CredVar(model', path') <==>
            var x, x' := model + "." + Join(path, '.'), model' + "." + Join(path', '.');
            |x| == |x'| && forall i :: 0 <= i < |x| ==> Alike(x[i], x'[i])
    ensures CredVar("a-b", path) == CredVar("A_b", path)
  {
    CredVarIs(model, path);
    CredVarIs(model', path');
    CredVarIs("a-b", path);
    CredVarIs("A_b", path);
    var x, x' := model + "." + Join(path, '.'), model' + "." + Join(path', '.');
    assert CredVar(model, path) == "GB_" + Sanitized(x);
    assert CredVar(model', path') == "GB_" + Sanitized(x');
    SameSanitized(x, x');
    assert Sanitized("a-b") == Sanitized("A_b");
  }

  lemma SameSanitized(x: string, y: string)
    ensures "GB_" + Sanitized(x) == "GB_" + Sanitized(y) <==> |x| == |y| && forall i :: 0 <= i < |x| ==>
            Alike(x[i], y[i])
  {
    assert ("GB_" + Sanitized(x))[3..] == Sanitized(x) && ("GB_" + Sanitized(y))[3..] == Sanitized(y);
    if Sanitized(x) == Sanitized(y) {
      forall i | 0 <= i < |x| ensures Alike(x[i], y[i]) {
        assert Sanitized(x)[i] == Sanitized(y)[i];
      }
    }
  }

  // ---- substituteCreds ----

  datatype ResolvedCred = ResolvedCred(name: string, kind: CredKind, ref: string, container: string)

  datatype Rendered = Rendered(tree: Tree, creds: seq<ResolvedCred>)

  function Resolved(r: CredRef, model: string, container: string): ResolvedCred {
    ResolvedCred(CredVar(model, r.path), r.kind, r.ref, container)
  }

  function Mark(r: CredRef, model: string): Tree {
    Leaf(Str(Placeholder(CredVar(model, r.path))))
  }

  ghost predicate Refs(refs: seq<CredRef>) {
    forall r :: r in refs ==> r.path != []
  }

  /** The model with a placeholder for each reference, in turn; none if a reference is empty
      or its place is taken. */
  function Substituted(t: Tree, refs: seq<CredRef>, model: string, container: string): Option<Rendered>
    requires Refs(refs)
  {
    if refs == [] then Some(Rendered(t, []))
    else
      var n := |refs| - 1;
      var r := refs[n];
      match Substituted(t, refs[..n], model, container)
      case None => None
      case Some(before) =>
        if r.ref == "" || At(before.tree, r.path).Some? then None
        else Some(Rendered(SetAt(before.tree, r.path, Mark(r, model)), before.creds + [Resolved(r, model, container)]))
  }

  lemma SubstitutedStep(t: Tree, refs: seq<CredRef>, n: nat, model: string, container: string)
    requires Refs(refs) && n < |refs|
    ensures Refs(refs[..n]) && Refs(refs[..n + 1])
    ensures Substituted(t, refs[..n + 1], model, container) ==
            match Substituted(t, refs[..n], model, container)
            case None => None
            case Some(before) =>
              if refs[n].ref == "" || At(before.tree, refs[n].path).Some? then None
              else Some(Rendered(SetAt(before.tree, refs[n].path, Mark(refs[n], model)),
                                 before.creds + [Resolved(refs[n], model, container)]))
  {
    assert refs[..n + 1][..n] == refs[..n];
  }

  lemma {:induction false} StaysFailed(t: Tree, refs: seq<CredRef>, n: nat, model: string, container: string)
    requires Refs(refs) && n <= |refs|
    requires Substituted(t, refs[..n], model, container).None?
    ensures Substituted(t, refs, model, container).None?
    decreases |refs| - n
  {
    if n < |refs| {
      SubstitutedStep(t, refs, n, model, container);
      StaysFailed(t, refs, n + 1, model, container);
    } else {
      assert refs[..n] == refs;
    }
  }

  /** In place; the model of a failed substitution is thrown away. */
  method SubstituteCreds(m: MapNode, refs: seq<CredRef>, model: string, container: string, ghost sh: Shape)
    returns (creds: Option<seq<ResolvedCred>>, ghost sh': Shape)
    requires Rep(Obj(m), sh) && Refs(refs)
    modifies Foot(sh)
    ensures creds.Some? <==> Substituted(TreeOf(sh), refs, model, container).Some?
    ensures creds.Some? ==> Substituted(TreeOf(sh), refs, model, container) == Some(Rendered(TreeOf(sh'), creds.value))
    ensures creds.Some? ==> Rep(Obj(m), sh') && fresh(Foot(sh') - Foot(sh))
  {
    var out := [];
    sh' := sh;
    for i := 0 to |refs|
      invariant Rep(Obj(m), sh') && fresh(Foot(sh') - Foot(sh))
      invariant Substituted(TreeOf(sh), refs[..i], model, container) == Some(Rendered(TreeOf(sh'), out))
    {
      var r := refs[i];
      SubstitutedStep(TreeOf(sh), refs, i, model, container);
      var taken := HasLeaf(m, r.path, sh');
      if r.ref == "" || taken {
        StaysFailed(TreeOf(sh), refs, i + 1, model, container);
        return None, sh';
      }
      var v := CredVarName(model, r.path);
      sh' := SetPath(m, r.path, Placeholder(v), sh');
      out := out + [ResolvedCred(v, r.kind, r.ref, container)];
    }
    assert refs[..|refs|] == refs;
    creds := Some(out);
  }

  // ---- what it does to the model ----

  /** A later reference goes through the place of reference i. */
  ghost predicate Overridden(refs: seq<CredRef>, i: nat) {
    exists j :: i < j < |refs| && refs[i].path < refs[j].path
  }

  /** The place of each reference is taken, by its placeholder exactly when no later one goes
      through it. */
  ghost predicate Marked(t: Tree, refs: seq<CredRef>, model: string) {
    forall i :: 0 <= i < |refs| ==>
      && At(t, refs[i].path).Some?
      && (At(t, refs[i].path) == Some(Mark(refs[i], model)) <==> !Overridden(refs, i))
  }

  lemma {:induction false} CredentialsAreMarked(t: Tree, refs: seq<CredRef>, model: string, container: string)
    requires Refs(refs) && Substituted(t, refs, model, container).Some?
    ensures var r := Substituted(t, refs, model, container).value;
            && Marked(r.tree, refs, model)
            && r.creds == seq(|refs|, i requires 0 <= i < |refs| => Resolved(refs[i], model, container))
    decreases |refs|
  {
    hide CredVar, SetAt, At;
    if refs != [] {
      var n := |refs| - 1;
      assert refs[..n + 1] == refs;
      SubstitutedStep(t, refs, n, model, container);
      CredentialsAreMarked(t, refs[..n], model, container);
      MarkedMore(Substituted(t, refs[..n], model, container).value.tree, refs, model);
      AllResolved(refs, model, container);
    }
  }

  lemma AllResolved(refs: seq<CredRef>, model: string, container: string)
    requires refs != []
    ensures var n := |refs| - 1;
            seq(n, i requires 0 <= i < n => Resolved(refs[..n][i], model, container))
                + [Resolved(refs[n], model, container)] ==
            seq(|refs|, i requires 0 <= i < |refs| => Resolved(refs[i], model, container))
  {
  }

  lemma MarkedMore(before: Tree, refs: seq<CredRef>, model: string)
    requires refs != [] && Refs(refs)
    requires var n := |refs| - 1; Marked(before, refs[..n], model) && At(before, refs[n].path).None?
    ensures var n := |refs| - 1; Marked(SetAt(before, refs[n].path, Mark(refs[n], model)), refs, model)
  {
    var n := |refs| - 1;
    hide CredVar, SetAt, At;
    assert refs[n] in refs;
    forall i | 0 <= i < n { MarkedStill(before, refs, i, model); }
    LastIsMarked(before, refs[n], model);
  }

  lemma LastIsMarked(before: Tree, r: CredRef, model: string)
    requires r.path != []
    ensures At(SetAt(before, r.path, Mark(r, model)), r.path) == Some(Mark(r, model))
  {
    SetAtMeaning(before, r.path, Mark(r, model), r.path);
  }

  lemma NothingBelow(t: Tree, p: Path, q: Path)
    ensures p <= q && At(t, p).None? ==> At(t, q).None?
  {
    if p <= q {
      AtConcat(t, p, q[|p|..]);
      assert p + q[|p|..] == q;
    }
  }

  /** Adding the last reference. */
  lemma MarkedStill(t: Tree, refs: seq<CredRef>, i: nat, model: string)
    requires var n := |refs| - 1; 0 <= i < n && Marked(t, refs[..n], model)
    requires var last := refs[|refs| - 1]; last.path != [] && At(t, last.path).None?
    ensures var u := SetAt(t, refs[|refs| - 1].path, Mark(refs[|refs| - 1], model));
            && At(u, refs[i].path).Some?
            && (At(u, refs[i].path) == Some(Mark(refs[i], model)) <==> !Overridden(refs, i))
  {
    var n := |refs| - 1;
    var r, p := refs[n], refs[i].path;
    SetAtMeaning(t, r.path, Mark(r, model), p);
    assert At(t, refs[..n][i].path).Some?;
    NothingBelow(t, r.path, p);
    OverriddenMore(refs, i);
  }

  lemma OverriddenMore(refs: seq<CredRef>, i: nat)
    requires i < |refs| - 1
    ensures var n := |refs| - 1; Overridden(refs, i) <==> Overridden(refs[..n], i) || refs[i].path < refs[n].path
  {
    var n := |refs| - 1;
    if Overridden(refs[..n], i) {
      var j :| i < j < n && refs[..n][i].path < refs[..n][j].path;
      assert refs[i].path < refs[j].path;
    }
    if Overridden(refs, i) {
      var j :| i < j < |refs| && refs[i].path < refs[j].path;
      assert j < n ==> refs[..n][i].path < refs[..n][j].path;
    }
  }

  /** Nothing else changes: a value whose path neither leads into nor comes after a
      credential's is as it was. */
  lemma {:induction false} TheRestIsKept(t: Tree, refs: seq<CredRef>, model: string, container: string, q: Path)
    requires Refs(refs) && Substituted(t, refs, model, container).Some?
    requires forall r :: r in refs ==> !(r.path <= q) && !(q < r.path)
    ensures At(Substituted(t, refs, model, container).value.tree, q) == At(t, q)
    decreases |refs|
  {
    if refs != [] {
      var n := |refs| - 1;
      assert refs[n] in refs;
      TheRestIsKept(t, refs[..n], model, container, q);
      SetAtMeaning(Substituted(t, refs[..n], model, container).value.tree, refs[n].path, Mark(refs[n], model), q);
    }
  }

  /** Setting a free place leaves a taken one as it is, unless it is on the way. */
  lemma TakenStays(t: Tree, p: Path, v: Tree, q: Path)
    requires p != [] && At(t, p).None? && At(t, q).Some?
    ensures At(SetAt(t, p, v), q).Some?
    ensures if q < p then At(SetAt(t, p, v), q).value.Map? else At(SetAt(t, p, v), q) == At(t, q)
  {
    NothingBelow(t, p, q);
    SetAtMeaning(t, p, v, q);
  }

  /** An inline value is kept exactly when no credential's path goes through it; one that does
      replaces it by a map without an error. */
  lemma {:induction false} InlineValueIsKeptExactly(t: Tree, refs: seq<CredRef>, model: string, container: string,
                                                    q: Path)
    requires Refs(refs) && Substituted(t, refs, model, container).Some?
    requires At(t, q).Some? && !At(t, q).value.Map?
    ensures var u := Substituted(t, refs, model, container).value.tree;
            At(u, q).Some? && (At(u, q) == At(t, q) <==> forall r :: r in refs ==> !(q < r.path))
    ensures var u := Substituted(t, refs, model, container).value.tree;
            At(u, q) == At(t, q) || At(u, q).value.Map?
    decreases |refs|
  {
    hide CredVar, SetAt, At;
    if refs != [] {
      var n := |refs| - 1;
      assert refs[..n + 1] == refs && refs[..n] + [refs[n]] == refs;
      SubstitutedStep(t, refs, n, model, container);
      InlineValueIsKeptExactly(t, refs[..n], model, container, q);
      TakenStays(Substituted(t, refs[..n], model, container).value.tree, refs[n].path, Mark(refs[n], model), q);
      assert forall r :: r in refs <==> r in refs[..n] || r == refs[n];
    }
  }

  /** The references that labels are read into all have a path. */
  lemma ParsedRefs(labels: map<string, string>, exposed: bool, p: Parsed, es: seq<Entry>, sh: Shape)
    requires ReadSoFar(labels, labels.Keys, exposed, p, es, sh)
    ensures Refs(p.credRefs) && forall r :: r in p.credRefs ==> |r.path| >= 2
  {
    forall r | r in p.credRefs ensures |r.path| >= 2 {
      assert r in multiset(p.credRefs);
      var k :| k in labels && Classify(k, labels[k]).Cred? && r == Classify(k, labels[k]).ref;
      LabelOfCred(k, labels[k]);
    }
  }
}
