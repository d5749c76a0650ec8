// internal/render/model.go: from the containers' labels and the shared profiles to the config
// document, and to the credentials the engine needs for it.
module Model {
  import opened Wrappers
  import opened Trees
  import opened Document
  import opened Paths
  import opened Labels
  import opened Merging
  import opened Credentials
  import opened Templates
  import opened Coerce

  /** One container's contribution, its model as a tree or as the map it is. */
  datatype Source<M> = Source(container: string, containerId: string, name: string, profile: string, model: M,
                              credRefs: seq<CredRef>)

  datatype TemplateData = TemplateData(model: string, container: string, host: string, instance: string)

  type Evaluator = (TemplateData, string) -> Option<string>

  function ModelName(container: string, custom: string, host: string): string {
    if custom != "" then custom
    else if host != "" then container + "-" + host
    else container
  }

  function NameOf<M>(src: Source<M>, host: string): string {
    ModelName(src.container, src.name, host)
  }

  function ProfileName(profile: string): string { if profile == "" then "default" else profile }

  /** Without a profile and without a default one, the labels stand alone. */
  function BaseOf(profiles: map<string, Tree>, profile: string): Option<Tree> {
    if ProfileName(profile) in profiles then Some(profiles[ProfileName(profile)])
    else if profile == "" then Some(EMPTY)
    else None
  }

  predicate HasSome(t: Tree, k: string) {
    k in Kids(t) && Kids(t)[k].Map? && Kids(t)[k].kids.Keys != {}
  }

  /** At least one storage, and databases or an archive. */
  predicate ValidModel(t: Tree) {
    HasSome(t, "storages") && (HasSome(t, "databases") || "archive" in Kids(t))
  }

  /** What the configuration of one pass is, apart from the containers. */
  datatype Setting<P> = Setting(profiles: map<string, P>, host: string, instance: string, eval: Evaluator)

  function DataOf<M, P>(src: Source<M>, s: Setting<P>): TemplateData {
    TemplateData(NameOf(src, s.host), src.container, s.host, s.instance)
  }

  function Evaluating(data: TemplateData, eval: Evaluator): Template {
    t => eval(data, t)
  }

  function Evaluate<M, P>(src: Source<M>, s: Setting<P>): Template {
    Evaluating(DataOf(src, s), s.eval)
  }

  /** The model of one container, if it comes to one that the engine accepts. */
  function Contribution(src: Source<Tree>, s: Setting<Tree>): Option<Rendered>
    requires Refs(src.credRefs)
  {
    match BaseOf(s.profiles, src.profile)
    case None => None
    case Some(base) => Finished(Pruned(Overlay(base, src.model)), src, s)
  }

  function Finished<M, P>(merged: Tree, src: Source<M>, s: Setting<P>): Option<Rendered>
    requires Refs(src.credRefs)
  {
    if Fails(merged, Evaluate(src, s)) then None
    else
      match Substituted(Coerced(Expanded(merged, Evaluate(src, s)), []), src.credRefs, NameOf(src, s.host),
          src.containerId)
      case None => None
      case Some(r) => if ValidModel(r.tree) then Some(r) else None
  }

  ghost predicate AllRefs<M>(sources: seq<Source<M>>) {
    forall i :: 0 <= i < |sources| ==> Refs(sources[i].credRefs)
  }

  // ---- collecting them ----

  /** What one container offers: a name, and a model if it comes to one. */
  datatype Offer = Offer(name: string, model: Option<Rendered>)

  function Offers(sources: seq<Source<Tree>>, s: Setting<Tree>): seq<Offer>
    requires AllRefs(sources)
  {
    seq(|sources|, i requires 0 <= i < |sources| => Offer(NameOf(sources[i], s.host), Contribution(sources[i], s)))
  }

  datatype Outcome = Outcome(models: map<string, Tree>, creds: seq<ResolvedCred>)

  function With(c: Outcome, o: Offer): Outcome {
    if o.model.None? || o.name in c.models then c
    else Outcome(c.models[o.name := o.model.value.tree], c.creds + o.model.value.creds)
  }

  function Collected(os: seq<Offer>): Outcome {
    if os == [] then Outcome(map[], []) else With(Collected(os[..|os| - 1]), os[|os| - 1])
  }

  /** Offer i is a model, and no earlier offer of its name is. */
  predicate Keeps(os: seq<Offer>, i: nat)
    requires i < |os|
  {
    os[i].model.Some? && forall j | 0 <= j < i :: os[j].name == os[i].name ==> os[j].model.None?
  }

  /** The credentials of the first n offers, where kept, in order. */
  function KeptCreds(os: seq<Offer>, n: nat): seq<ResolvedCred>
    requires n <= |os|
  {
    if n == 0 then [] else KeptCreds(os, n - 1) + if Keeps(os, n - 1) then os[n - 1].model.value.creds else []
  }

  ghost predicate KeptModels(os: seq<Offer>, n: nat, models: map<string, Tree>)
    requires n <= |os|
  {
    && (forall i :: 0 <= i < n && Keeps(os, i) ==> os[i].name in models && models[os[i].name] == os[i].model.value.tree)
    && (forall name :: name in models ==> exists i :: 0 <= i < n && Keeps(os, i) && os[i].name == name)
  }

  /** The models are those of the first accepted container of each name, and the credentials
      are exactly theirs. */
  lemma {:induction false} FirstOfEachName(os: seq<Offer>, n: nat)
    requires n <= |os|
    ensures KeptModels(os, n, Collected(os[..n]).models)
    ensures Collected(os[..n]).creds == KeptCreds(os, n)
  {
    hide Collected, Keeps, KeptModels, KeptCreds, With;
    if n > 0 {
      FirstOfEachName(os, n - 1);
      CollectedStep(os, n - 1);
      OneMoreOffer(os, n - 1, Collected(os[..n - 1]));
    } else {
      assert os[..0] == [];
      NothingCollected();
      NothingKept(os);
    }
  }

  lemma OneMoreOffer(os: seq<Offer>, n: nat, c: Outcome)
    requires n < |os| && KeptModels(os, n, c.models) && c.creds == KeptCreds(os, n)
    ensures KeptModels(os, n + 1, With(c, os[n]).models) && With(c, os[n]).creds == KeptCreds(os, n + 1)
  {
    hide Keeps;
    KeptExactly(os, n, c.models);
  }

  lemma NothingKept(os: seq<Offer>)
    ensures KeptModels(os, 0, map[]) && KeptCreds(os, 0) == []
  {
  }

  lemma NothingCollected()
    ensures Collected([]) == Outcome(map[], [])
  {
  }

  lemma CollectedStep(os: seq<Offer>, i: nat)
    requires i < |os|
    ensures Collected(os[..i + 1]) == With(Collected(os[..i]), os[i])
  {
    assert os[..i + 1][..i] == os[..i];
  }

  /** The name of offer n is taken exactly when an earlier one is a model. */
  lemma KeptExactly(os: seq<Offer>, n: nat, models: map<string, Tree>)
    requires n < |os| && KeptModels(os, n, models)
    ensures Keeps(os, n) <==> os[n].model.Some? && os[n].name !in models
  {
    forall j | 0 <= j < n && os[j].name == os[n].name && os[j].model.Some? ensures os[n].name in models {
      var i := FirstAccepted(os, j);
    }
  }

  lemma {:induction false} FirstAccepted(os: seq<Offer>, j: nat) returns (i: nat)
    requires j < |os| && os[j].model.Some?
    ensures i <= j && Keeps(os, i) && os[i].name == os[j].name
  {
    if Keeps(os, j) {
      i := j;
    } else {
      var k :| 0 <= k < j && os[k].name == os[j].name && os[k].model.Some?;
      i := FirstAccepted(os, k);
    }
  }

  function BuiltConfig(sources: seq<Source<Tree>>, s: Setting<Tree>): Outcome
    requires AllRefs(sources)
  {
    Collected(Offers(sources, s))
  }

  /** Every model written is one the engine accepts and comes from the first container of its
      name that came to a model; each of that container's credentials has its place in it,
      with its placeholder there unless a later one goes through that place. */
  lemma BuiltIsConsistent(sources: seq<Source<Tree>>, s: Setting<Tree>, name: string)
    requires AllRefs(sources) && name in BuiltConfig(sources, s).models
    ensures var t := BuiltConfig(sources, s).models[name];
            ValidModel(t) && exists i :: 0 <= i < |sources| && Keeps(Offers(sources, s), i) &&
                                         NameOf(sources[i], s.host) == name && Marked(t, sources[i].credRefs, name)
  {
    var os := Offers(sources, s);
    assert os[..|os|] == os;
    FirstOfEachName(os, |os|);
    var i :| 0 <= i < |os| && Keeps(os, i) && os[i].name == name;
    ContributionIsMarked(sources[i], s);
  }

  /** The credentials a container asks for, as the engine is to get them. */
  function Requested(src: Source<Tree>, s: Setting<Tree>): seq<ResolvedCred> {
    seq(|src.credRefs|, i requires 0 <= i < |src.credRefs| => Resolved(src.credRefs[i], NameOf(src, s.host),
        src.containerId))
  }

  lemma ContributionIsMarked(src: Source<Tree>, s: Setting<Tree>)
    requires Refs(src.credRefs) && Contribution(src, s).Some?
    ensures var r := Contribution(src, s).value;
            ValidModel(r.tree) && Marked(r.tree, src.credRefs, NameOf(src, s.host)) && r.creds == Requested(src, s)
  {
    var merged := Pruned(Overlay(BaseOf(s.profiles, src.profile).value, src.model));
    CredentialsAreMarked(Coerced(Expanded(merged, Evaluate(src, s)), []), src.credRefs, NameOf(src, s.host),
        src.containerId);
  }

  /** The credentials returned are those of the kept models and no others. */
  lemma CredsAreOfKeptModels(sources: seq<Source<Tree>>, s: Setting<Tree>, c: ResolvedCred)
    requires AllRefs(sources)
    ensures c in BuiltConfig(sources, s).creds <==>
            exists i :: 0 <= i < |sources| && Keeps(Offers(sources, s), i) && c in Requested(sources[i], s)
  {
    var os := Offers(sources, s);
    assert os[..|os|] == os;
    FirstOfEachName(os, |os|);
    CredsOfFirst(os, |os|, c);
    forall i | 0 <= i < |sources| && Keeps(os, i) ensures os[i].model.value.creds == Requested(sources[i], s) {
      ContributionIsMarked(sources[i], s);
    }
  }

  lemma {:induction false} CredsOfFirst(os: seq<Offer>, n: nat, c: ResolvedCred)
    requires n <= |os|
    ensures c in KeptCreds(os, n) <==> exists i :: 0 <= i < n && Keeps(os, i) && c in os[i].model.value.creds
  {
    if n > 0 {
      CredsOfFirst(os, n - 1, c);
    }
  }

  /** A value of a kept model away from the credentials: what merging left at its path, its
      templates evaluated and then coerced. */
  lemma ContributionAt(src: Source<Tree>, s: Setting<Tree>, q: Path)
    requires Refs(src.credRefs) && Contribution(src, s).Some? && q != []
    requires forall r :: r in src.credRefs ==> !(r.path <= q) && !(q < r.path)
    ensures At(Contribution(src, s).value.tree, q) ==
            match At(Pruned(Overlay(BaseOf(s.profiles, src.profile).value, src.model)), q)
            case None => None
            case Some(u) => Some(CoercedKid(Expanded(u, Evaluate(src, s)), q))
  {
    var f := Evaluate(src, s);
    var merged := Pruned(Overlay(BaseOf(s.profiles, src.profile).value, src.model));
    TheRestIsKept(Coerced(Expanded(merged, f), []), src.credRefs, NameOf(src, s.host), src.containerId, q);
    CoercedAt(Expanded(merged, f), [], q);
    assert [] + q == q;
    ExpandedAt(merged, f, q);
  }

  // ---- which container a model's volumes are looked up in ----

  /** modelToContainer (internal/pipeline/reconcile.go:309-336). */
  function Owners<M>(sources: seq<Source<M>>, host: string): map<string, string> {
    if sources == [] then map[]
    else var n := |sources| - 1; Owners(sources[..n], host)[NameOf(sources[n], host) := sources[n].containerId]
  }

  method ModelToContainer<M>(sources: seq<Source<M>>, host: string) returns (m: map<string, string>)
    ensures m == Owners(sources, host)
  {
    m := map[];
    for i := 0 to |sources|
      invariant m == Owners(sources[..i], host)
    {
      assert sources[..i + 1][..i] == sources[..i];
      m := m[NameOf(sources[i], host) := sources[i].containerId];
    }
    assert sources[..|sources|] == sources;
  }

  ghost predicate DistinctIds<M>(sources: seq<Source<M>>) {
    forall j, k :: 0 <= j < k < |sources| ==> sources[j].containerId != sources[k].containerId
  }

  lemma {:induction false} LastOwner<M>(sources: seq<Source<M>>, host: string, i: nat)
    requires i < |sources|
    requires DistinctIds(sources)
    ensures NameOf(sources[i], host) in Owners(sources, host)
    ensures Owners(sources, host)[NameOf(sources[i], host)] == sources[i].containerId <==>
            forall j :: i < j < |sources| ==> NameOf(sources[j], host) != NameOf(sources[i], host)
  {
    var n := |sources| - 1;
    if i < n {
      LastOwner(sources[..n], host, i);
      assert sources[..n][i] == sources[i];
      assert forall j :: i < j < n ==> sources[..n][j] == sources[j];
      assert sources[n].containerId != sources[i].containerId;
    }
  }

  lemma KeeperIsBuilt(sources: seq<Source<Tree>>, s: Setting<Tree>, i: nat)
    requires AllRefs(sources) && i < |sources| && Keeps(Offers(sources, s), i)
    ensures NameOf(sources[i], s.host) in BuiltConfig(sources, s).models
  {
    KeptIsWritten(Offers(sources, s), i);
  }

  /** A model is built from the first container of its name that comes to one, but its volumes
      are looked up in the last container of that name, model or not. The two are the same
      container exactly when no later one has the name. */
  lemma {:induction false} OwnerIsTheKeeper(sources: seq<Source<Tree>>, s: Setting<Tree>, i: nat)
    requires AllRefs(sources) && i < |sources| && Keeps(Offers(sources, s), i)
    requires DistinctIds(sources)
    ensures NameOf(sources[i], s.host) in BuiltConfig(sources, s).models
    ensures NameOf(sources[i], s.host) in Owners(sources, s.host)
    ensures Owners(sources, s.host)[NameOf(sources[i], s.host)] == sources[i].containerId <==>
            forall j :: i < j < |sources| ==> NameOf(sources[j], s.host) != NameOf(sources[i], s.host)
  {
    KeeperIsBuilt(sources, s, i);
    LastOwner(sources, s.host, i);
  }

  lemma KeptIsWritten(os: seq<Offer>, i: nat)
    requires i < |os| && Keeps(os, i)
    ensures os[i].name in Collected(os).models
    ensures Collected(os).models[os[i].name] == os[i].model.value.tree
  {
    assert os[..|os|] == os;
    FirstOfEachName(os, |os|);
  }

  // ---- BuildWithCreds ----

  /** validateModel, by what is at paths. */
  lemma ValidExactly(t: Tree)
    ensures ValidModel(t) <==>
            && (exists id :: At(t, ["storages", id]).Some?)
            && ((exists id :: At(t, ["databases", id]).Some?) || At(t, ["archive"]).Some?)
  {
    HasSomeExactly(t, "storages");
    HasSomeExactly(t, "databases");
    assert ["archive"][1..] == [];
  }

  lemma HasSomeExactly(t: Tree, k: string)
    ensures HasSome(t, k) <==> exists id :: At(t, [k, id]).Some?
  {
    forall id ensures At(t, [k, id]).Some? <==> k in Kids(t) && id in Kids(Kids(t)[k]) {
      assert [k, id][1..] == [id] && [id][1..] == [];
      if t.Map? && k in t.kids {
        assert At(t, [k, id]) == At(t.kids[k], [id]);
        assert At(t.kids[k], [id]).Some? <==> t.kids[k].Map? && id in t.kids[k].kids;
      }
    }
    if HasSome(t, k) {
      var id :| id in Kids(t)[k].kids.Keys;
      assert id in Kids(Kids(t)[k]);
    }
  }

  method ValidateModel(m: MapNode, ghost sh: Shape) returns (ok: bool)
    requires Rep(Obj(m), sh)
    ensures ok <==> ValidModel(TreeOf(sh))
    ensures ok <==>
            && (exists id :: At(TreeOf(sh), ["storages", id]).Some?)
            && ((exists id :: At(TreeOf(sh), ["databases", id]).Some?) || At(TreeOf(sh), ["archive"]).Some?)
  {
    hide At;
    ValidExactly(TreeOf(sh));
    var storages := SubmapSize(m, "storages", sh);
    var databases := SubmapSize(m, "databases", sh);
    if storages == 0 {
      return false;
    }
    ok := databases != 0 || "archive" in m.entries;
  }

  /** len(m[k]), where m[k] is a map; 0 otherwise. */
  method SubmapSize(m: MapNode, k: string, ghost sh: Shape) returns (n: nat)
    requires Rep(Obj(m), sh)
    ensures n != 0 <==> HasSome(TreeOf(sh), k)
  {
    if k in m.entries && m.entries[k].Obj? {
      assert Rep(m.entries[k], sh.kids[k]) && sh.kids[k].AtMap?;
      n := |m.entries[k].node.entries|;
      assert m.entries[k].node.entries.Keys == TreeOf(sh.kids[k]).kids.Keys;
    } else {
      assert k in sh.kids ==> Rep(m.entries[k], sh.kids[k]) && !TreeOf(sh.kids[k]).Map?;
      n := 0;
    }
  }

  ghost function TreesOf(shapes: map<string, Shape>): map<string, Tree> {
    map k | k in shapes :: TreeOf(shapes[k])
  }

  /** The profile a container inherits; a new empty map if there is nothing to inherit. */
  method ResolveProfile(profiles: map<string, MapNode>, profile: string, ghost shapes: map<string, Shape>)
    returns (base: Option<MapNode>, ghost sh: Shape)
    requires profiles.Keys == shapes.Keys && forall k :: k in profiles ==> Rep(Obj(profiles[k]), shapes[k])
    ensures base.Some? <==> BaseOf(TreesOf(shapes), profile).Some?
    ensures base.Some? ==> Rep(Obj(base.value), sh) && BaseOf(TreesOf(shapes), profile) == Some(TreeOf(sh))
  {
    var name := if profile == "" then "default" else profile;
    if name in profiles {
      return Some(profiles[name]), shapes[name];
    }
    if profile == "" {
      var m := new MapNode();
      return Some(m), AtMap(m, map[], {m});
    }
    return None, AtLeaf(Num(0));
  }

  /** What one container comes to, made of new objects only. */
  method Render(src: Source<MapNode>, base: MapNode, s: Setting<MapNode>, ghost bsh: Shape, ghost ssh: Shape)
    returns (m: Option<MapNode>, creds: seq<ResolvedCred>, ghost sh: Shape)
    requires Rep(Obj(base), bsh) && Rep(Obj(src.model), ssh) && Refs(src.credRefs)
    ensures Comes(Finished(Pruned(Overlay(TreeOf(bsh), TreeOf(ssh))), src, s), m, creds, sh)
    ensures m.Some? ==> Rep(Obj(m.value), sh) && fresh(Foot(sh))
  {
    var merged;
    merged, sh := MergeLabels(src, base, bsh, ssh);
    m, creds, sh := Finish(merged, src, s, sh);
  }

  ghost predicate Comes(r: Option<Rendered>, m: Option<MapNode>, creds: seq<ResolvedCred>, sh: Shape) {
    (m.Some? <==> r.Some?) && (m.Some? ==> r == Some(Rendered(TreeOf(sh), creds)))
  }

  /** The passes over the merged model, in place. */
  method Finish(merged: MapNode, src: Source<MapNode>, s: Setting<MapNode>, ghost was: Shape)
    returns (m: Option<MapNode>, creds: seq<ResolvedCred>, ghost sh: Shape)
    requires Rep(Obj(merged), was) && Refs(src.credRefs)
    modifies Foot(was)
    ensures Comes(Finished(TreeOf(was), src, s), m, creds, sh)
    ensures m.Some? ==> Rep(Obj(m.value), sh) && fresh(Foot(sh) - Foot(was))
  {
    hide Fails, Expanded, Coerced, Substituted, Evaluate, ValidModel, At, TreeOf;
    m, creds := None, [];
    var expanded: Option<Value>;
    expanded, sh := ExpandTemplates(Obj(merged), Evaluate(src, s), was);
    if expanded.None? {
      return;
    }
    sh := CoerceTree(Obj(merged), sh);
    var resolved;
    resolved, sh := SubstituteCreds(merged, src.credRefs, NameOf(src, s.host), src.containerId, sh);
    if resolved.None? {
      return;
    }
    var ok := ValidateModel(merged, sh);
    if ok {
      m, creds := Some(merged), resolved.value;
    }
  }

  /** The labels over a copy of the profile. */
  method MergeLabels(src: Source<MapNode>, base: MapNode, ghost bsh: Shape, ghost ssh: Shape)
    returns (m: MapNode, ghost sh: Shape)
    requires Rep(Obj(base), bsh) && Rep(Obj(src.model), ssh)
    ensures Rep(Obj(m), sh) && fresh(Foot(sh))
    ensures TreeOf(sh) == Pruned(Overlay(TreeOf(bsh), TreeOf(ssh)))
  {
    var c: Value;
    c, sh := DeepCopy(Obj(base), bsh);
    m := c.node;
    sh := DeepMerge(m, src.model, sh, ssh);
    sh := PruneOptOut(m, sh);
  }

  ghost function AsTree(src: Source<MapNode>, sh: Shape): Source<Tree> {
    Source(src.container, src.containerId, src.name, src.profile, TreeOf(sh), src.credRefs)
  }

  ghost function AsTrees(sources: seq<Source<MapNode>>, shapes: seq<Shape>): seq<Source<Tree>>
    requires |sources| == |shapes|
  {
    seq(|sources|, i requires 0 <= i < |sources| => AsTree(sources[i], shapes[i]))
  }

  ghost function InTrees(s: Setting<MapNode>, shapes: map<string, Shape>): Setting<Tree> {
    Setting(TreesOf(shapes), s.host, s.instance, s.eval)
  }

  /** One round of the loop: the offer of one container. */
  method Consider(src: Source<MapNode>, s: Setting<MapNode>, ghost ssh: Shape, ghost pshapes: map<string, Shape>)
    returns (m: Option<MapNode>, creds: seq<ResolvedCred>, ghost sh: Shape)
    requires s.profiles.Keys == pshapes.Keys && forall k :: k in pshapes ==> Rep(Obj(s.profiles[k]), pshapes[k])
    requires Rep(Obj(src.model), ssh) && Refs(src.credRefs)
    ensures Comes(Contribution(AsTree(src, ssh), InTrees(s, pshapes)), m, creds, sh)
    ensures m.Some? ==> Rep(Obj(m.value), sh) && fresh(Foot(sh))
  {
    ghost var bsh;
    var base;
    base, bsh := ResolveProfile(s.profiles, src.profile, pshapes);
    if base.None? {
      m, creds, sh := None, [], bsh;
      return;
    }
    SameFinish(Pruned(Overlay(TreeOf(bsh), TreeOf(ssh))), src, s, ssh, pshapes);
    m, creds, sh := Render(src, base.value, s, bsh, ssh);
  }

  lemma SameFinish(merged: Tree, src: Source<MapNode>, s: Setting<MapNode>, ssh: Shape, pshapes: map<string, Shape>)
    requires Refs(src.credRefs)
    ensures Finished(merged, src, s) == Finished(merged, AsTree(src, ssh), InTrees(s, pshapes))
  {
  }

  /** models[name] = m and append, unless there is no model or the name is taken. */
  method Keep(models: MapNode, name: string, m: Option<MapNode>, creds: seq<ResolvedCred>, more: seq<ResolvedCred>,
              ghost sh: Shape, ghost msh: Shape, ghost r: Option<Rendered>)
    returns (creds': seq<ResolvedCred>, ghost sh': Shape)
    requires Rep(Obj(models), sh) && Comes(r, m, more, msh)
    requires m.Some? ==> Rep(Obj(m.value), msh) && Foot(msh) !! Foot(sh)
    modifies models
    ensures Rep(Obj(models), sh') && Foot(sh') <= Foot(sh) + (if m.Some? then Foot(msh) else {})
    ensures Outcome(TreeOf(sh').kids, creds') == With(Outcome(TreeOf(sh).kids, creds), Offer(name, r))
  {
    creds', sh' := creds, sh;
    if m.Some? && name !in models.entries {
      RepWithout(models, sh.kids, sh.foot, name);
      Put(models, name, Obj(m.value), sh.kids, sh.foot, msh);
      WithKid(sh, name, msh, sh.foot + Foot(msh));
      sh' := AtMap(models, sh.kids[name := msh], sh.foot + Foot(msh));
      creds' := creds + more;
    }
  }

  /** The config document is BuiltConfig; it is made of new objects only, no two models share one,
      and the profiles and the containers' models are left as they are. */
  method BuildWithCreds(sources: seq<Source<MapNode>>, s: Setting<MapNode>, ghost sshapes: seq<Shape>,
                        ghost pshapes: map<string, Shape>)
    returns (cfg: MapNode, creds: seq<ResolvedCred>, ghost sh: Shape)
    requires s.profiles.Keys == pshapes.Keys && forall k :: k in pshapes ==> Rep(Obj(s.profiles[k]), pshapes[k])
    requires |sources| == |sshapes| && forall i :: 0 <= i < |sources| ==> Rep(Obj(sources[i].model), sshapes[i])
    requires AllRefs(sources)
    ensures Rep(Obj(cfg), sh) && fresh(Foot(sh))
    ensures AllRefs(AsTrees(sources, sshapes))
    ensures var c := BuiltConfig(AsTrees(sources, sshapes), InTrees(s, pshapes));
            TreeOf(sh) == Map(map["models" := Map(c.models)]) && creds == c.creds
  {
    hide Contribution, Collected, With, Offers, AsTrees, TreeOf;
    OfferCount(sources, s, sshapes, pshapes);
    ghost var os := Offers(AsTrees(sources, sshapes), InTrees(s, pshapes));
    NothingCollected();
    var models := new MapNode();
    creds, sh := [], AtMap(models, map[], {models});
    NoKids(models);
    assert os[..0] == [];
    for i := 0 to |sources|
      invariant Rep(Obj(models), sh) && fresh(Foot(sh)) && TreeOf(sh).Map?
      invariant Collected(os[..i]) == Outcome(TreeOf(sh).kids, creds)
    {
      CollectedStep(os, i);
      OfferAt(sources, s, sshapes, pshapes, i);
      creds, sh := Add(sources[i], s, models, creds, sshapes[i], pshapes, sh);
    }
    assert os[..|sources|] == os;
    cfg, sh := Wrap(models, sh);
  }

  lemma OfferCount(sources: seq<Source<MapNode>>, s: Setting<MapNode>, sshapes: seq<Shape>,
                   pshapes: map<string, Shape>)
    requires |sources| == |sshapes| && AllRefs(sources)
    ensures |AsTrees(sources, sshapes)| == |sources| && AllRefs(AsTrees(sources, sshapes))
    ensures |Offers(AsTrees(sources, sshapes), InTrees(s, pshapes))| == |sources|
  {
  }

  lemma NoKids(models: MapNode)
    ensures TreeOf(AtMap(models, map[], {models})) == EMPTY
  {
  }

  lemma OfferAt(sources: seq<Source<MapNode>>, s: Setting<MapNode>, sshapes: seq<Shape>, pshapes: map<string, Shape>,
                i: nat)
    requires i < |sources| == |sshapes| && AllRefs(sources)
    ensures AllRefs(AsTrees(sources, sshapes))
    ensures Offers(AsTrees(sources, sshapes), InTrees(s, pshapes))[i] ==
            Offer(NameOf(sources[i], s.host), Contribution(AsTree(sources[i], sshapes[i]), InTrees(s, pshapes)))
  {
  }

  /** One round of the loop. */
  method Add(src: Source<MapNode>, s: Setting<MapNode>, models: MapNode, creds: seq<ResolvedCred>,
             ghost ssh: Shape, ghost pshapes: map<string, Shape>, ghost sh: Shape)
    returns (creds': seq<ResolvedCred>, ghost sh': Shape)
    requires s.profiles.Keys == pshapes.Keys && forall k :: k in pshapes ==> Rep(Obj(s.profiles[k]), pshapes[k])
    requires Rep(Obj(src.model), ssh) && Refs(src.credRefs)
    requires Rep(Obj(models), sh)
    modifies models
    ensures Rep(Obj(models), sh') && fresh(Foot(sh') - Foot(sh)) && TreeOf(sh').Map?
    ensures var o := Offer(NameOf(src, s.host), Contribution(AsTree(src, ssh), InTrees(s, pshapes)));
            Outcome(TreeOf(sh').kids, creds') == With(Outcome(TreeOf(sh).kids, creds), o)
  {
    ghost var r := Contribution(AsTree(src, ssh), InTrees(s, pshapes));
    var m, more;
    ghost var msh;
    m, more, msh := Consider(src, s, ssh, pshapes);
    creds', sh' := Keep(models, NameOf(src, s.host), m, creds, more, sh, msh, r);
  }

  /** The document {"models": models}. */
  method Wrap(models: MapNode, ghost msh: Shape) returns (cfg: MapNode, ghost sh: Shape)
    requires Rep(Obj(models), msh)
    ensures Rep(Obj(cfg), sh) && fresh(cfg) && Foot(sh) == {cfg} + Foot(msh)
    ensures TreeOf(sh) == Map(map["models" := TreeOf(msh)])
  {
    cfg := new MapNode();
    ghost var empty := AtMap(cfg, map[], {cfg});
    RepWithout(cfg, map[], {cfg}, "models");
    Put(cfg, "models", Obj(models), map[], {cfg}, msh);
    sh := AtMap(cfg, empty.kids["models" := msh], {cfg} + Foot(msh));
    WithKid(empty, "models", msh, {cfg} + Foot(msh));
    assert TreeOf(empty).kids["models" := TreeOf(msh)] == map["models" := TreeOf(msh)];
  }
}
