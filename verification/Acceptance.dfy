// Which containers come to a model, and what the document then has, said of the profile, the labels
// and the references of a container and not of the steps that turn them into a model
// (internal/render/model.go:50-135, 187-213; internal/render/merge.go).
module Acceptance {
  import opened Wrappers
  import opened Trees
  import opened Labels
  import opened Merging
  import opened Credentials
  import opened Templates
  import opened Coerce
  import opened Model
  import opened Paths
  import opened ConfigEscape

  // ---- Names and profiles ----

  /** The model of a container is called by its label, or else by the container and the host. */
  ghost predicate Called<M>(src: Source<M>, host: string, name: string) {
    && (src.name != "" ==> name == src.name)
    && (src.name == "" && host != "" ==> name == src.container + "-" + host)
    && (src.name == "" && host == "" ==> name == src.container)
  }

  lemma NameIsCalled<M>(src: Source<M>, host: string)
    ensures forall name :: Called(src, host, name) <==> NameOf(src, host) == name
  {
  }

  /** The profile that labels are laid over: the named one, which must be there; without a name the
      default one, or nothing. */
  ghost predicate Inherits(src: Source<Tree>, profiles: map<string, Tree>, b: Tree) {
    if src.profile != "" then src.profile in profiles && b == profiles[src.profile]
    else if "default" in profiles then b == profiles["default"]
    else b == EMPTY
  }

  lemma InheritsExactly(src: Source<Tree>, profiles: map<string, Tree>, b: Tree)
    ensures Inherits(src, profiles, b) <==> BaseOf(profiles, src.profile) == Some(b)
  {
  }

  // ---- What merging leaves ----

  /** A value that is not a map is what the label says at the path, or what the profile says where no
      label puts a value at or above the path; but never the opt-out. */
  ghost predicate MergedHas(b: Tree, o: Tree, path: Path, v: Tree) {
    && !v.Map? && v != Leaf(Str("!none"))
    && (At(o, path) == Some(v) || (At(b, path) == Some(v) && !Hides(o, path)))
  }

  /** There is something, be it a map. */
  ghost predicate MergedSome(b: Tree, o: Tree, path: Path) {
    || (At(o, path).Some? && At(o, path).value != Leaf(Str("!none")))
    || (At(b, path).Some? && At(b, path).value != Leaf(Str("!none")) && !Hides(o, path))
  }

  lemma MergedSomeExactly(b: Tree, o: Tree, path: Path)
    requires b.Map? && o.Map? && path != []
    ensures At(Pruned(Overlay(b, o)), path).Some? <==> MergedSome(b, o, path)
  {
    hide At, Blocks;
    OverlayAt(b, o, path);
    PrunedAt(Overlay(b, o), path);
    if At(b, path).Some? && At(o, path).Some? { OptOutOver(At(b, path).value, At(o, path).value); }
  }

  lemma OptOutOver(b: Tree, o: Tree)
    ensures Overlay(b, o) == OPT_OUT <==> o == OPT_OUT
  {
  }

  // ---- Strings that cannot be evaluated ----

  ghost predicate FailsAt(t: Tree, steps: seq<Step>, f: Template) {
    match Find(t, steps)
    case Some(Leaf(Str(s))) => HasAction(s) && f(s).None?
    case _ => false
  }

  /** The text holds "{{" somewhere. */
  ghost predicate HasAction(s: string) {
    exists before, after :: s == before + "{{" + after
  }

  lemma EvaluatedExactly(s: string, f: Template)
    ensures Evaluated(s, f).None? <==> HasAction(s) && f(s).None?
  {
    if i :| 0 <= i <= |s| && "{{" <= s[i..] { assert s == s[..i] + "{{" + s[i + 2..]; }
    if before, after :| s == before + "{{" + after { assert s[|before|..] == "{{" + after; }
  }

  lemma {:induction false} FailsSomewhere(t: Tree, f: Template)
    ensures Fails(t, f) <==> exists steps: seq<Step> :: FailsAt(t, steps, f)
  {
    match t {
      case Leaf(_) =>
        if t.scalar.Str? { EvaluatedExactly(t.scalar.s, f); }
        assert Find(t, []) == Some(t);
        if Fails(t, f) { assert FailsAt(t, [], f); }
      case Map(kids) =>
        forall k | k in kids ensures Fails(kids[k], f) ==> exists steps: seq<Step> :: FailsAt(t, steps, f) {
          FailsSomewhere(kids[k], f);
          if Fails(kids[k], f) {
            var steps :| FailsAt(kids[k], steps, f);
            assert ([Key(k)] + steps)[1..] == steps;
            assert FailsAt(t, [Key(k)] + steps, f);
          }
        }
        forall steps: seq<Step> | FailsAt(t, steps, f) ensures Fails(t, f) {
          FailsSomewhere(kids[steps[0].k], f);
          assert FailsAt(kids[steps[0].k], steps[1..], f);
        }
      case List(items) =>
        forall i | 0 <= i < |items| ensures Fails(items[i], f) ==> exists steps: seq<Step> :: FailsAt(t, steps, f) {
          FailsSomewhere(items[i], f);
          if Fails(items[i], f) {
            var steps :| FailsAt(items[i], steps, f);
            assert ([Index(i)] + steps)[1..] == steps;
            assert FailsAt(t, [Index(i)] + steps, f);
          }
        }
        forall steps: seq<Step> | FailsAt(t, steps, f) ensures Fails(t, f) {
          FailsSomewhere(items[steps[0].i], f);
          assert FailsAt(items[steps[0].i], steps[1..], f);
        }
    }
  }

  /** A value, at a path through maps, in which a string fails. */
  ghost predicate FailsBelow(t: Tree, path: Path, v: Tree, f: Template) {
    At(t, path) == Some(v) && !v.Map? && Fails(v, f)
  }

  lemma {:induction false} FailsInAValue(t: Tree, f: Template)
    ensures Fails(t, f) <==> exists path, v :: FailsBelow(t, path, v, f)
  {
    if t.Map? {
      forall k | k in t.kids ensures Fails(t.kids[k], f) <==> exists path, v :: FailsBelow(t.kids[k], path, v, f) {
        FailsInAValue(t.kids[k], f);
      }
      if k :| k in t.kids && Fails(t.kids[k], f) {
        var path, v :| FailsBelow(t.kids[k], path, v, f);
        assert ([k] + path)[1..] == path;
        assert FailsBelow(t, [k] + path, v, f);
      }
      forall path, v | FailsBelow(t, path, v, f) ensures Fails(t, f) {
        assert FailsBelow(t.kids[path[0]], path[1..], v, f);
      }
    } else if Fails(t, f) {
      assert FailsBelow(t, [], t, f);
    }
  }

  /** A string of the merged model has an action that fails. */
  ghost predicate MergedFails(b: Tree, o: Tree, f: Template) {
    exists path, v, steps :: MergedHas(b, o, path, v) && FailsAt(v, steps, f)
  }

  lemma MergedFailsExactly(b: Tree, o: Tree, f: Template)
    requires b.Map? && o.Map?
    ensures Fails(Pruned(Overlay(b, o)), f) <==> MergedFails(b, o, f)
  {
    hide FailsAt, Fails, Pruned, Overlay, At, Hides;
    var t := Pruned(Overlay(b, o));
    FailsInAValue(t, f);
    if path, v :| FailsBelow(t, path, v, f) {
      MergeMeaning(b, o, path, v);
      FailsSomewhere(v, f);
      var steps :| FailsAt(v, steps, f);
      assert MergedHas(b, o, path, v);
    }
    if path, v, steps :| MergedHas(b, o, path, v) && FailsAt(v, steps, f) {
      MergeMeaning(b, o, path, v);
      FailsSomewhere(v, f);
      assert FailsBelow(t, path, v, f);
    }
  }

  // ---- References ----

  /** No reference is empty, nothing is at its place, and no earlier one has that place or one below. */
  ghost predicate Free(t: Tree, refs: seq<CredRef>) {
    forall i :: 0 <= i < |refs| ==> FreeAt(t, refs, i)
  }

  ghost predicate FreeAt(t: Tree, refs: seq<CredRef>, i: nat)
    requires i < |refs|
  {
    && refs[i].ref != "" && At(t, refs[i].path).None?
    && forall j :: 0 <= j < i ==> !(refs[i].path <= refs[j].path)
  }

  /** Afterwards there is something at a path if there was, or if a reference's place is there or below. */
  ghost predicate SomeAfter(t: Tree, refs: seq<CredRef>, q: Path) {
    At(t, q).Some? || exists j :: 0 <= j < |refs| && q <= refs[j].path
  }

  lemma {:induction false} SubstitutedExactly(t: Tree, refs: seq<CredRef>, model: string, container: string)
    requires Refs(refs)
    ensures var r := Substituted(t, refs, model, container);
            && (r.Some? <==> Free(t, refs))
            && (r.Some? ==> forall q :: At(r.value.tree, q).Some? <==> SomeAfter(t, refs, q))
    decreases |refs|
  {
    hide SetAt, At;
    if refs != [] {
      var n := |refs| - 1;
      assert refs[..n + 1] == refs;
      SubstitutedStep(t, refs, n, model, container);
      SubstitutedExactly(t, refs[..n], model, container);
      FreeLast(t, refs);
      var before := Substituted(t, refs[..n], model, container);
      if before.Some? {
        assert At(before.value.tree, refs[n].path).Some? <==> SomeAfter(t, refs[..n], refs[n].path);
        LastIsFree(t, refs);
        if Substituted(t, refs, model, container).Some? {
          OneMoreSet(t, refs, before.value.tree, Mark(refs[n], model));
        }
      }
    }
  }

  lemma FreeLast(t: Tree, refs: seq<CredRef>)
    requires refs != []
    ensures var n := |refs| - 1; Free(t, refs) <==> Free(t, refs[..n]) && FreeAt(t, refs, n)
  {
    hide At;
    var n := |refs| - 1;
    forall i | 0 <= i < n ensures FreeAt(t, refs[..n], i) <==> FreeAt(t, refs, i) {
      assert forall j :: 0 <= j < n ==> refs[..n][j] == refs[j];
    }
  }

  lemma LastIsFree(t: Tree, refs: seq<CredRef>)
    requires refs != []
    ensures var n := |refs| - 1;
            FreeAt(t, refs, n) <==> refs[n].ref != "" && !SomeAfter(t, refs[..n], refs[n].path)
  {
    hide At;
    var n := |refs| - 1;
    assert forall j :: 0 <= j < n ==> refs[..n][j] == refs[j];
  }

  lemma OneMoreSet(t: Tree, refs: seq<CredRef>, u: Tree, v: Tree)
    requires refs != [] && refs[|refs| - 1].path != [] && v.Leaf?
    requires var n := |refs| - 1;
             && At(u, refs[n].path).None? && forall q :: At(u, q).Some? <==> SomeAfter(t, refs[..n], q)
    ensures var n := |refs| - 1;
            forall q :: At(SetAt(u, refs[n].path, v), q).Some? <==> SomeAfter(t, refs, q)
  {
    hide SetAt;
    var n := |refs| - 1;
    var path := refs[n].path;
    forall q ensures At(SetAt(u, path, v), q).Some? <==> SomeAfter(t, refs, q) {
      SetAtMeaning(u, path, v, q);
      MoreAfter(t, refs, q);
      if path <= q {
        NothingBelow(u, path, q);
        assert q == path <==> q[|path|..] == [];
        assert At(v, q[|path|..]).Some? <==> q == path;
        assert q <= path <==> q == path;
      }
    }
  }

  lemma MoreAfter(t: Tree, refs: seq<CredRef>, q: Path)
    requires refs != []
    ensures var n := |refs| - 1; SomeAfter(t, refs, q) <==> SomeAfter(t, refs[..n], q) || q <= refs[n].path
  {
    hide At;
    var n := |refs| - 1;
    assert forall j :: 0 <= j < n ==> refs[..n][j] == refs[j];
    if j :| 0 <= j < n && q <= refs[j].path { assert q <= refs[..n][j].path; }
  }

  lemma NothingBelow(u: Tree, path: Path, q: Path)
    requires At(u, path).None? && path <= q
    ensures At(u, q).None?
  {
    AtConcat(u, path, q[|path|..]);
    assert path + q[|path|..] == q;
  }

  // ---- Acceptance ----

  /** Something is at the path of the model: merging left it, or a reference's place is there or below. */
  ghost predicate SomeIn(b: Tree, o: Tree, refs: seq<CredRef>, path: Path) {
    MergedSome(b, o, path) || exists j :: 0 <= j < |refs| && path <= refs[j].path
  }

  ghost predicate AllFree(b: Tree, o: Tree, refs: seq<CredRef>) {
    forall i :: 0 <= i < |refs| ==>
      && refs[i].ref != "" && !MergedSome(b, o, refs[i].path)
      && forall j :: 0 <= j < i ==> !(refs[i].path <= refs[j].path)
  }

  /** Some key below the top-level key k. */
  ghost predicate SomeBelow(b: Tree, o: Tree, refs: seq<CredRef>, k: string) {
    exists id :: SomeIn(b, o, refs, [k, id])
  }

  /** The templates of a container's model are evaluated with its names. */
  ghost function Evaluator(src: Source<Tree>, s: Setting<Tree>): Template {
    (t: string) => s.eval(TemplateData(NameOf(src, s.host), src.container, s.host, s.instance), t)
  }

  /** The container is accepted, with b as its profile: no string fails, each reference is filled in and
      finds its place free, and there are storages, and databases or an archive. */
  ghost predicate AcceptedWith(src: Source<Tree>, s: Setting<Tree>, b: Tree) {
    && Inherits(src, s.profiles, b)
    && !MergedFails(b, src.model, Evaluator(src, s))
    && AllFree(b, src.model, src.credRefs)
    && SomeBelow(b, src.model, src.credRefs, "storages")
    && (SomeBelow(b, src.model, src.credRefs, "databases") || SomeIn(b, src.model, src.credRefs, ["archive"]))
  }

  ghost predicate Accepted(src: Source<Tree>, s: Setting<Tree>) {
    exists b :: AcceptedWith(src, s, b)
  }

  /** Profiles and the trees of labels are maps. */
  ghost predicate Maps(src: Source<Tree>, s: Setting<Tree>) {
    src.model.Map? && forall k :: k in s.profiles ==> s.profiles[k].Map?
  }

  lemma FinishedSome(b: Tree, o: Tree, f: Template, path: Path)
    requires b.Map? && o.Map? && path != []
    ensures At(Coerced(Expanded(Pruned(Overlay(b, o)), f), []), path).Some? <==> MergedSome(b, o, path)
  {
    hide At, Expanded, Coerced, Pruned, Overlay, MergedSome;
    var merged := Pruned(Overlay(b, o));
    CoercedAt(Expanded(merged, f), [], path);
    ExpandedAt(merged, f, path);
    MergedSomeExactly(b, o, path);
  }

  lemma FreeExactly(b: Tree, o: Tree, f: Template, refs: seq<CredRef>)
    requires b.Map? && o.Map? && Refs(refs)
    ensures Free(Coerced(Expanded(Pruned(Overlay(b, o)), f), []), refs) <==> AllFree(b, o, refs)
  {
    hide At, Expanded, Coerced, Pruned, Overlay, MergedSome;
    var t := Coerced(Expanded(Pruned(Overlay(b, o)), f), []);
    forall i | 0 <= i < |refs| ensures At(t, refs[i].path).Some? <==> MergedSome(b, o, refs[i].path) {
      assert refs[i] in refs;
      FinishedSome(b, o, f, refs[i].path);
    }
    assert forall i :: 0 <= i < |refs| ==> (FreeAt(t, refs, i) <==>
        refs[i].ref != "" && !MergedSome(b, o, refs[i].path) && forall j :: 0 <= j < i ==>
            !(refs[i].path <= refs[j].path));
  }

  lemma ResultIsValid(b: Tree, o: Tree, f: Template, refs: seq<CredRef>, model: string, container: string)
    requires b.Map? && o.Map? && Refs(refs)
    requires Substituted(Coerced(Expanded(Pruned(Overlay(b, o)), f), []), refs, model, container).Some?
    ensures ValidModel(Substituted(Coerced(Expanded(Pruned(Overlay(b, o)), f), []), refs, model, container).value.tree)
            <==> SomeBelow(b, o, refs, "storages")
                 && (SomeBelow(b, o, refs, "databases") || SomeIn(b, o, refs, ["archive"]))
  {
    hide At, Expanded, Coerced, Pruned, Overlay, MergedSome, Substituted, ValidModel;
    var t := Coerced(Expanded(Pruned(Overlay(b, o)), f), []);
    var r := Substituted(t, refs, model, container).value.tree;
    SubstitutedExactly(t, refs, model, container);
    ValidExactly(r);
    forall q: Path | q != [] ensures At(r, q).Some? <==> SomeIn(b, o, refs, q) {
      FinishedSome(b, o, f, q);
      assert At(r, q).Some? <==> SomeAfter(t, refs, q);
    }
    assert forall k: string, id :: [k, id] != [];
  }

  /** Acceptance, exactly. */
  lemma AcceptedExactly(src: Source<Tree>, s: Setting<Tree>)
    requires Refs(src.credRefs) && Maps(src, s)
    ensures Contribution(src, s).Some? <==> Accepted(src, s)
  {
    hide Fails, Expanded, Coerced, Pruned, Overlay, MergedFails, AllFree, SomeBelow, SomeIn, Substituted, ValidModel,
         Inherits, BaseOf, Free;
    var base := BaseOf(s.profiles, src.profile);
    forall b ensures Inherits(src, s.profiles, b) <==> base == Some(b) { InheritsExactly(src, s.profiles, b); }
    if base.Some? {
      var b := base.value;
      var f := Evaluate(src, s);
      BaseIsMap(src, s);
      SameEvaluator(b, src, s);
      MergedFailsExactly(b, src.model, f);
      var t := Coerced(Expanded(Pruned(Overlay(b, src.model)), f), []);
      FreeExactly(b, src.model, f, src.credRefs);
      SubstitutedExactly(t, src.credRefs, NameOf(src, s.host), src.containerId);
      if Substituted(t, src.credRefs, NameOf(src, s.host), src.containerId).Some? {
        ResultIsValid(b, src.model, f, src.credRefs, NameOf(src, s.host), src.containerId);
      }
      assert AcceptedWith(src, s, b) <==> Contribution(src, s).Some?;
    }
  }

  lemma BaseIsMap(src: Source<Tree>, s: Setting<Tree>)
    requires Maps(src, s) && BaseOf(s.profiles, src.profile).Some?
    ensures BaseOf(s.profiles, src.profile).value.Map?
  {
  }

  lemma SameEvaluator(b: Tree, src: Source<Tree>, s: Setting<Tree>)
    ensures MergedFails(b, src.model, Evaluator(src, s)) <==> MergedFails(b, src.model, Evaluate(src, s))
  {
    hide MergedHas, FailsAt;
    var f, g := Evaluator(src, s), Evaluate(src, s);
    assert forall t :: f(t) == g(t);
    forall v, steps ensures FailsAt(v, steps, f) <==> FailsAt(v, steps, g) { FailsAlike(v, steps, f, g); }
  }

  lemma FailsAlike(v: Tree, steps: seq<Step>, f: Template, g: Template)
    requires forall t :: f(t) == g(t)
    ensures FailsAt(v, steps, f) <==> FailsAt(v, steps, g)
  {
    match Find(v, steps)
    case Some(Leaf(Str(x))) => assert f(x) == g(x);
    case _ =>
  }

  // ---- The document ----

  ghost predicate AllMaps(sources: seq<Source<Tree>>, s: Setting<Tree>) {
    forall i :: 0 <= i < |sources| ==> Maps(sources[i], s)
  }

  /** Container i is accepted and no earlier accepted one is called the same. */
  ghost predicate FirstCalled(sources: seq<Source<Tree>>, s: Setting<Tree>, i: nat, name: string)
    requires i < |sources|
  {
    && Called(sources[i], s.host, name) && Accepted(sources[i], s)
    && forall j :: 0 <= j < i ==> !(Called(sources[j], s.host, name) && Accepted(sources[j], s))
  }

  lemma FirstIsKept(sources: seq<Source<Tree>>, s: Setting<Tree>, i: nat, name: string)
    requires AllRefs(sources) && AllMaps(sources, s) && i < |sources|
    ensures FirstCalled(sources, s, i, name) <==> Keeps(Offers(sources, s), i) && NameOf(sources[i], s.host) == name
  {
    hide Contribution, Accepted, Called, NameOf;
    var os := Offers(sources, s);
    forall j | 0 <= j < |sources|
      ensures os[j].model.Some? <==> Accepted(sources[j], s)
      ensures Called(sources[j], s.host, name) <==> os[j].name == name
    {
      AcceptedExactly(sources[j], s);
      NameIsCalled(sources[j], s.host);
    }
    NameIsCalled(sources[i], s.host);
  }

  /** A name is in the document exactly if some container that is called so is accepted. */
  lemma InDocumentExactly(sources: seq<Source<Tree>>, s: Setting<Tree>, name: string)
    requires AllRefs(sources) && AllMaps(sources, s)
    ensures name in BuiltConfig(sources, s).models <==>
            exists i :: 0 <= i < |sources| && Called(sources[i], s.host, name) && Accepted(sources[i], s)
  {
    hide Contribution, Accepted, Called, NameOf, Collected, FirstCalled;
    var os := Offers(sources, s);
    assert os[..|os|] == os;
    FirstOfEachName(os, |os|);
    if name in BuiltConfig(sources, s).models {
      var i :| 0 <= i < |os| && Keeps(os, i) && os[i].name == name;
      FirstIsKept(sources, s, i, name);
      FirstIsAccepted(sources, s, i, name);
    }
    if i :| 0 <= i < |sources| && Called(sources[i], s.host, name) && Accepted(sources[i], s) {
      AcceptedExactly(sources[i], s);
      NameIsCalled(sources[i], s.host);
      assert os[i].model.Some? && os[i].name == name;
      var j := FirstAccepted(os, i);
    }
  }

  lemma FirstIsAccepted(sources: seq<Source<Tree>>, s: Setting<Tree>, i: nat, name: string)
    requires i < |sources| && FirstCalled(sources, s, i, name)
    ensures Called(sources[i], s.host, name) && Accepted(sources[i], s)
  {
  }

  /** What merging leaves at a path off the references is in the document, evaluated and coerced; the
      document's model is that of the first accepted container of its name. */
  lemma DocumentHas(sources: seq<Source<Tree>>, s: Setting<Tree>, i: nat, name: string, b: Tree, q: Path, v: Tree)
    requires AllRefs(sources) && AllMaps(sources, s) && i < |sources| && FirstCalled(sources, s, i, name)
    requires Inherits(sources[i], s.profiles, b) && q != [] && MergedHas(b, sources[i].model, q, v)
    requires forall r :: r in sources[i].credRefs ==> !(r.path <= q) && !(q < r.path)
    ensures name in BuiltConfig(sources, s).models
    ensures At(BuiltConfig(sources, s).models[name], q) ==
            Some(CoercedKid(Expanded(v, Evaluate(sources[i], s)), q))
  {
    hide Contribution, Accepted, Called, FirstCalled, Inherits, BaseOf, Pruned, Overlay, At, Hides, Keeps, Collected,
         Expanded, CoercedKid;
    FirstIsKept(sources, s, i, name);
    InheritsExactly(sources[i], s.profiles, b);
    BaseIsMap(sources[i], s);
    KeptIsWritten(Offers(sources, s), i);
    KeptComes(sources, s, i);
    ContributionAt(sources[i], s, q);
    MergeMeaning(b, sources[i].model, q, v);
  }

  lemma KeptComes(sources: seq<Source<Tree>>, s: Setting<Tree>, i: nat)
    requires AllRefs(sources) && i < |sources| && Keeps(Offers(sources, s), i)
    ensures Contribution(sources[i], s).Some?
    ensures Offers(sources, s)[i] == Offer(NameOf(sources[i], s.host), Contribution(sources[i], s))
  {
  }

  /** x is the string s with its actions evaluated. */
  ghost predicate EvaluatesTo(s: string, f: Template, x: string) {
    if HasAction(s) then f(s) == Some(x) else x == s
  }

  /** Where no string fails, each string becomes what it evaluates to, wherever it is, and all else stays. */
  lemma {:induction false} EvaluatedFind(t: Tree, f: Template, steps: seq<Step>)
    requires !Fails(t, f)
    ensures match Find(t, steps)
            case Some(Leaf(Str(s))) =>
              exists x :: EvaluatesTo(s, f, x) && Find(Expanded(t, f), steps) == Some(Leaf(Str(x)))
            case Some(Leaf(y)) => Find(Expanded(t, f), steps) == Some(Leaf(y))
            case Some(_) => Find(Expanded(t, f), steps).Some?
            case None => Find(Expanded(t, f), steps).None?
    decreases |steps|
  {
    if steps == [] {
      if t.Leaf? && t.scalar.Str? {
        EvaluatedExactly(t.scalar.s, f);
        EvaluatedText(t.scalar.s, f);
      }
    } else if Child(t, steps[0]).Some? {
      assert !Fails(Child(t, steps[0]).value, f);
      assert Child(Expanded(t, f), steps[0]) == Some(Expanded(Child(t, steps[0]).value, f));
      EvaluatedFind(Child(t, steps[0]).value, f, steps[1..]);
    }
  }

  lemma EvaluatedText(s: string, f: Template)
    requires Evaluated(s, f).Some?
    ensures EvaluatesTo(s, f, Evaluated(s, f).value)
  {
    if i :| 0 <= i <= |s| && "{{" <= s[i..] { assert s == s[..i] + "{{" + s[i + 2..]; }
    if before, after :| s == before + "{{" + after { assert s[|before|..] == "{{" + after; }
  }

  /** A string of a label, or of the profile where no label is in its way, is in the document: evaluated,
      and then a list or a scalar by its place. */
  lemma {:induction false} DocumentText(sources: seq<Source<Tree>>, s: Setting<Tree>, i: nat, name: string, b: Tree,
                                        q: Path,
                     text: string)
    requires AllRefs(sources) && AllMaps(sources, s) && i < |sources| && FirstCalled(sources, s, i, name)
    requires Inherits(sources[i], s.profiles, b) && q != [] && MergedHas(b, sources[i].model, q, Leaf(Str(text)))
    requires forall r :: r in sources[i].credRefs ==> !(r.path <= q) && !(q < r.path)
    ensures name in BuiltConfig(sources, s).models
    ensures exists x :: EvaluatesTo(text, Evaluator(sources[i], s), x) &&
              At(BuiltConfig(sources, s).models[name], q) ==
              Some(if ListPlace(q) then List(Texts(Items(x))) else Leaf(CoercedScalar(q[|q| - 1], x)))
  {
    hide Contribution, Called, Pruned, Overlay, At, Hides, Collected, Items, CoercedScalar, MergedHas, Inherits,
         BuiltConfig, HasAction;
    DocumentHas(sources, s, i, name, b, q, Leaf(Str(text)));
    var f := Evaluate(sources[i], s);
    AcceptedEvaluates(sources[i], s, b, q, text);
    EvaluatedText(text, f);
    ArrayFieldsAre(q);
    var x := Evaluated(text, f).value;
    assert Evaluator(sources[i], s)(text) == f(text);
    assert EvaluatesTo(text, Evaluator(sources[i], s), x);
  }

  /** In an accepted container's model no string fails. */
  lemma AcceptedEvaluates(src: Source<Tree>, s: Setting<Tree>, b: Tree, q: Path, text: string)
    requires Accepted(src, s) && Inherits(src, s.profiles, b) && MergedHas(b, src.model, q, Leaf(Str(text)))
    ensures Evaluated(text, Evaluate(src, s)).Some?
  {
    hide MergedHas, HasAction, AllFree, SomeBelow, SomeIn;
    var f := Evaluator(src, s);
    assert Find(Leaf(Str(text)), []) == Some(Leaf(Str(text)));
    EvaluatedExactly(text, f);
    EvaluatedExactly(text, Evaluate(src, s));
    assert f(text) == Evaluate(src, s)(text);
    var c :| AcceptedWith(src, s, c);
    assert c == b && !MergedFails(b, src.model, f);
    assert !FailsAt(Leaf(Str(text)), [], f);
  }

  /** The credentials are exactly those of the first accepted containers of their names: one for each
      reference, to be looked up in that very container. */
  lemma CredsExactly(sources: seq<Source<Tree>>, s: Setting<Tree>, c: ResolvedCred)
    requires AllRefs(sources) && AllMaps(sources, s)
    ensures c in BuiltConfig(sources, s).creds <==> exists i, name, j ::
              && 0 <= i < |sources| && FirstCalled(sources, s, i, name) && 0 <= j < |sources[i].credRefs|
              && AsksAs(sources[i], j, name, c)
  {
    hide Contribution, Accepted, Called, FirstCalled, Collected, NameOf, CredVar;
    CredsAreOfKeptModels(sources, s, c);
    if i :| 0 <= i < |sources| && Keeps(Offers(sources, s), i) && c in Requested(sources[i], s) {
      var name := NameOf(sources[i], s.host);
      FirstIsKept(sources, s, i, name);
      var j :| 0 <= j < |sources[i].credRefs| && c == Requested(sources[i], s)[j];
      assert AsksAs(sources[i], j, name, c);
    }
    if i, name, j :| 0 <= i < |sources| && FirstCalled(sources, s, i, name) && 0 <= j < |sources[i].credRefs|
                     && AsksAs(sources[i], j, name, c) {
      FirstIsKept(sources, s, i, name);
      assert c == Requested(sources[i], s)[j];
    }
  }

  /** c stands for reference j of the container, in the model of that name. */
  predicate AsksAs(src: Source<Tree>, j: nat, name: string, c: ResolvedCred)
    requires j < |src.credRefs|
  {
    var r := src.credRefs[j];
    c.name == CredVar(name, r.path) && c.kind == r.kind && c.ref == r.ref && c.container == src.containerId
  }

  // ---- Containers to look volumes up in ----

  /** Container i is the last one that is called so. */
  ghost predicate LastCalled<M>(sources: seq<Source<M>>, host: string, i: nat, name: string)
    requires i < |sources|
  {
    Called(sources[i], host, name) && forall j :: i < j < |sources| ==> !Called(sources[j], host, name)
  }

  /** A name's volumes are looked up in the last container that is called so, model or not. */
  lemma {:induction false} OwnersExactly<M>(sources: seq<Source<M>>, host: string, name: string, id: string)
    ensures (name in Owners(sources, host) && Owners(sources, host)[name] == id) <==>
            exists i :: 0 <= i < |sources| && LastCalled(sources, host, i, name) && sources[i].containerId == id
  {
    hide Called, NameOf;
    if sources != [] {
      var n := |sources| - 1;
      var before := sources[..n];
      OwnersExactly(before, host, name, id);
      NameIsCalled(sources[n], host);
      if Called(sources[n], host, name) {
        assert LastCalled(sources, host, n, name);
      } else {
        forall i | 0 <= i < n ensures LastCalled(sources, host, i, name) <==> LastCalled(before, host, i, name) {
          assert forall j :: 0 <= j < n ==> before[j] == sources[j];
        }
        assert forall i :: 0 <= i < n ==> before[i] == sources[i];
      }
    }
  }
}
