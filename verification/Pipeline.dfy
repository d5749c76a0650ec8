// One pass from end to end (internal/pipeline/reconcile.go:125-220): what is rendered, rewritten,
// escaped and written is what the engine reads in the environment it is given.
module Pipeline {
  import opened Wrappers
  import opened Trees
  import opened Document
  import opened Expansion
  import opened Escape
  import opened ConfigEscape
  import opened FileText
  import opened ConfigFile
  import opened Docker
  import opened EngineSpec
  import opened Volumes
  import opened Collecting
  import opened Locations
  import opened PathMeaning
  import opened Credentials
  import opened EngineCreds
  import opened Wrapper
  import opened EngineEnvironment
  import opened Model
  import opened Rewriting
  import opened Acceptance
  import opened Positions
  import opened VolumePhase
  import opened ReadPaths

  /** The document with these models, after volume discovery. */
  function FinalDoc(models: map<string, Tree>, answers: map<string, Answer>): Tree {
    Map(map["models" := Map(ModelsRewritten(models, answers))])
  }

  /** What the container that each model's volumes are looked up in answered, if it did. */
  function AnswersOf(owners: map<string, string>, inspected: map<string, Answer>): map<string, Answer> {
    map name | name in owners && owners[name] != "" && owners[name] in inspected :: inspected[owners[name]]
  }

  /** A model has the answer of the last container that is called so, if that answered. */
  lemma AnswersExactly<M>(sources: seq<Source<M>>, host: string, inspected: map<string, Answer>, name: string,
                          a: Answer)
    ensures var answers := AnswersOf(Owners(sources, host), inspected);
            (name in answers && answers[name] == a) <==> exists i ::
              && 0 <= i < |sources| && LastCalled(sources, host, i, name)
              && sources[i].containerId != "" && sources[i].containerId in inspected
              && inspected[sources[i].containerId] == a
  {
    hide Owners, LastCalled;
    var owners := Owners(sources, host);
    if name in owners { OwnersExactly(sources, host, name, owners[name]); }
    forall i | 0 <= i < |sources| && LastCalled(sources, host, i, name)
      ensures name in owners && owners[name] == sources[i].containerId
    {
      OwnersExactly(sources, host, name, sources[i].containerId);
    }
  }

  /** What a pass mounts for the volumes of these clients: only wanted mounts, each target once;
      for the databases all that they want, for the archives one of each key that they want,
      and so all if no two of their targets share a key. */
  ghost predicate MountsFor(managed: seq<MountDef>, cs: seq<Client>) {
    && DistinctTargets(managed) && (forall d :: d in managed ==> Wants(cs, d))
    && DatabasesServed(managed, cs) && ArchivesServed(managed, cs) && (KeysApart(cs) ==> Serving(managed, cs))
  }

  /** The document has a model of a name exactly if some container that is called so is accepted. */
  ghost predicate NamesAccepted(doc: Tree, sources: seq<Source<Tree>>, s: Setting<Tree>) {
    forall name :: At(doc, ["models", name]).Some? <==>
      exists i :: 0 <= i < |sources| && Called(sources[i], s.host, name) && Accepted(sources[i], s)
  }

  lemma SourcesAreMaps(sources: seq<Source<MapNode>>, s: Setting<MapNode>, sshapes: seq<Shape>,
                       pshapes: map<string, Shape>)
    requires s.profiles.Keys == pshapes.Keys && forall k :: k in pshapes ==> Rep(Obj(s.profiles[k]), pshapes[k])
    requires |sources| == |sshapes| && forall i :: 0 <= i < |sources| ==> Rep(Obj(sources[i].model), sshapes[i])
    ensures AllMaps(AsTrees(sources, sshapes), InTrees(s, pshapes))
  {
    forall k | k in pshapes ensures TreeOf(pshapes[k]).Map? { KindOf(Obj(s.profiles[k]), pshapes[k]); }
    forall i | 0 <= i < |sources| ensures TreeOf(sshapes[i]).Map? { KindOf(Obj(sources[i].model), sshapes[i]); }
  }

  lemma AcceptedAreThere(sources: seq<Source<Tree>>, s: Setting<Tree>, answers: map<string, Answer>)
    requires AllRefs(sources) && AllMaps(sources, s)
    ensures NamesAccepted(EscapedTree(FinalDoc(BuiltConfig(sources, s).models, answers)), sources, s)
  {
    hide BuiltConfig, Accepted, Called, ModelRewritten, At, FinalDoc, EscapedTree;
    var models := BuiltConfig(sources, s).models;
    forall name ensures At(EscapedTree(FinalDoc(models, answers)), ["models", name]).Some? <==> name in models {
      NamesStay(models, answers, name);
    }
    forall name ensures name in models <==>
        exists i :: 0 <= i < |sources| && Called(sources[i], s.host, name) && Accepted(sources[i], s) {
      InDocumentExactly(sources, s, name);
    }
  }

  lemma NamesStay(models: map<string, Tree>, answers: map<string, Answer>, name: string)
    ensures At(EscapedTree(FinalDoc(models, answers)), ["models", name]).Some? <==> name in models
  {
    hide ModelRewritten, At;
    AtTwo(EscapedTree(FinalDoc(models, answers)), "models", name);
  }

  /** The steps of a pass up to the file: the document is built, its paths are rewritten and its
      strings escaped, all in place, on objects of its own. inspected has the answers of
      the containers that could be inspected, by their IDs. */
  method RenderPass(sources: seq<Source<MapNode>>, s: Setting<MapNode>, inspected: map<string, Answer>,
                    ghost sshapes: seq<Shape>, ghost pshapes: map<string, Shape>)
    returns (cfg: MapNode, creds: seq<ResolvedCred>, managed: seq<MountDef>, escaped: bool,
             ghost cs: seq<Client>, ghost sh: Shape)
    requires s.profiles.Keys == pshapes.Keys && forall k :: k in pshapes ==> Rep(Obj(s.profiles[k]), pshapes[k])
    requires |sources| == |sshapes| && forall i :: 0 <= i < |sources| ==> Rep(Obj(sources[i].model), sshapes[i])
    requires AllRefs(sources)
    ensures Rep(Obj(cfg), sh) && fresh(Foot(sh)) && AllRefs(AsTrees(sources, sshapes))
    ensures var c := BuiltConfig(AsTrees(sources, sshapes), InTrees(s, pshapes));
            var answers := AnswersOf(Owners(sources, s.host), inspected);
            && creds == c.creds
            && TreeOf(sh) == EscapedTree(FinalDoc(c.models, answers))
            && (escaped <==> HasBare(FinalDoc(c.models, answers)))
            && ListsClients(cs, c.models, answers) && MountsFor(managed, cs)
            && Targeted(managed, c.models, answers)
    ensures NamesAccepted(TreeOf(sh), AsTrees(sources, sshapes), InTrees(s, pshapes))
  {
    hide FinalDoc, EscapedTree, HasBare, MountsFor, ListsClients, BuiltConfig, Targeted, NamesAccepted, AllMaps,
         Owners, AnswersOf, AsTrees, InTrees, TreeOf, AllRefs;
    SourcesAreMaps(sources, s, sshapes, pshapes);
    cfg, creds, sh := BuildWithCreds(sources, s, sshapes, pshapes);
    ghost var built := BuiltConfig(AsTrees(sources, sshapes), InTrees(s, pshapes));
    var owners := ModelToContainer(sources, s.host);
    var answers := AnswersOf(owners, inspected);
    managed, cs, sh := RewriteDocument(cfg, answers, built.models, sh);
    AcceptedAreThere(AsTrees(sources, sshapes), InTrees(s, pshapes), answers);
    HasBareIsSomewhere(TreeOf(sh));
    escaped, sh := EscapeConfig(cfg, sh);
  }

  method RewriteDocument(cfg: MapNode, answers: map<string, Answer>, ghost models: map<string, Tree>, ghost sh: Shape)
    returns (managed: seq<MountDef>, ghost cs: seq<Client>, ghost sh': Shape)
    requires Rep(Obj(cfg), sh) && TreeOf(sh) == Map(map["models" := Map(models)])
    modifies Foot(sh)
    ensures Rep(Obj(cfg), sh') && Foot(sh') == Foot(sh) && TreeOf(sh') == FinalDoc(models, answers)
    ensures ListsClients(cs, models, answers) && MountsFor(managed, cs) && Targeted(managed, models, answers)
  {
    hide Targeted, AllMoved, ModelsRewritten, Wants, KeysApart, Serving, DistinctTargets, DatabasesServed,
         ArchivesServed, ListsClients;
    ghost var msh;
    ModelsKid(cfg, sh, models);
    RepWithout(cfg, sh.kids, sh.foot, "models");
    managed, cs, msh := RewriteModels(cfg.entries["models"].node, answers, sh.kids["models"]);
    KidChanged(cfg, sh, "models", msh);
    sh' := AtMap(cfg, sh.kids["models" := msh], sh.foot);
    OneKid(models, Map(ModelsRewritten(models, answers)));
  }

  lemma OneKid(models: map<string, Tree>, t: Tree)
    ensures map["models" := Map(models)]["models" := t] == map["models" := t]
  {
  }

  lemma ModelsKid(cfg: MapNode, sh: Shape, models: map<string, Tree>)
    requires Rep(Obj(cfg), sh) && TreeOf(sh) == Map(map["models" := Map(models)])
    ensures sh.AtMap? && "models" in sh.kids && "models" in cfg.entries && cfg.entries["models"].Obj?
    ensures TreeOf(sh.kids["models"]) == Map(models)
  {
    assert TreeOf(sh).kids["models"] == TreeOf(sh.kids["models"]);
    KindOf(cfg.entries["models"], sh.kids["models"]);
  }

  /** The variables that gobackup sees after a pass that wrote doc: the container's before, the
      sentinel if anything in doc was escaped, the credentials, and the exported secrets. */
  function EngineEnv(base: seq<string>, doc: Tree, creds: seq<ResolvedCred>, inspects: map<string, Inspected>,
                     files: Files): Env {
    StartedEnv(base, HasBare(doc), Additions(creds, inspects), files)
  }

  /** Some of the credentials that building returns, such as those whose containers answer
      (see EngineCreds.Answered). */
  ghost predicate SomeOf(creds: seq<ResolvedCred>, sources: seq<Source<Tree>>, s: Setting<Tree>)
    requires AllRefs(sources)
  {
    forall c :: c in creds ==> c in BuiltConfig(sources, s).creds
  }

  /** Every credential that building returns has a variable made for it. */
  lemma BuiltCredsAreMade(sources: seq<Source<Tree>>, s: Setting<Tree>)
    requires AllRefs(sources)
    ensures MadeForModels(BuiltConfig(sources, s).creds)
  {
    hide Contribution, BuiltConfig, Keeps, CredVar;
    forall c | c in BuiltConfig(sources, s).creds
      ensures exists model: string, path: seq<string> :: path != [] && c.name == CredVar(model, path)
    {
      CredsAreOfKeptModels(sources, s, c);
      var i :| 0 <= i < |sources| && Keeps(Offers(sources, s), i) && c in Requested(sources[i], s);
      var k :| 0 <= k < |sources[i].credRefs| && c == Requested(sources[i], s)[k];
      assert sources[i].credRefs[k] in sources[i].credRefs;
    }
  }

  lemma SomeAreMade(creds: seq<ResolvedCred>, sources: seq<Source<Tree>>, s: Setting<Tree>)
    requires AllRefs(sources) && SomeOf(creds, sources, s)
    ensures MadeForModels(creds)
  {
    hide BuiltConfig, CredVar;
    BuiltCredsAreMade(sources, s);
  }

  // ---- The document ----

  lemma WrappedHarm(t: Tree)
    ensures HoldsHarm(Map(map["models" := t])) <==> HoldsHarm(t)
  {
    var kids := map["models" := t];
    assert !Harmful("models");
    assert "models" in kids && kids["models"] == t;
  }

  /** Whatever the sources: of a document without harm in it, the file that a pass writes is
      read as it is meant, in every environment with the sentinel, if and only if volume
      discovery writes no include and no exclude with a harmful '$'. */
  lemma FileIsReadAsMeantExactly(models: map<string, Tree>, answers: map<string, Answer>,
                                 order: KeyOrder, after: seq<string>)
    requires ListsKeys(order) && !HoldsHarm(Map(models))
    requires |after| == |Texts(FinalDoc(models, answers), order)| && AllSeparate(after)
    ensures var doc := FinalDoc(models, answers);
            && |Texts(EscapedTree(doc), order)| == |after|
            && ((forall env :: HasSentinel(env) ==>
                   Expand(Encoded(Texts(EscapedTree(doc), order), after), env) ==
                       Intended(Parts(Texts(doc, order), after), env))
                <==> !exists name :: name in models && name in answers && WritesHarm(models[name], name, answers[name]))
  {
    hide Expand, Encoded, Texts, Intended, Parts, EscapedTree, HoldsHarm, ModelsRewritten, WritesHarm;
    DocumentIsReadExactly(FinalDoc(models, answers), order, after);
    WrappedHarm(Map(ModelsRewritten(models, answers)));
    RewritingHarmsExactly(models, answers);
  }

  /** The engine itself reads the file as it is meant, in the environment that the pass makes,
      whatever was in it before. */
  lemma EngineReadsTheDocument(sources: seq<Source<Tree>>, s: Setting<Tree>, answers: map<string, Answer>,
                               order: KeyOrder, after: seq<string>, base: seq<string>, creds: seq<ResolvedCred>,
                               inspects: map<string, Inspected>, files: Files)
    requires AllRefs(sources) && SomeOf(creds, sources, s) && ListsKeys(order)
    requires var doc := FinalDoc(BuiltConfig(sources, s).models, answers);
             |after| == |Texts(doc, order)| && AllSeparate(after) && !HoldsHarm(doc)
    ensures var doc := FinalDoc(BuiltConfig(sources, s).models, answers);
            var env := EngineEnv(base, doc, creds, inspects, files);
            && |Texts(EscapedTree(doc), order)| == |after|
            && Expand(Encoded(Texts(EscapedTree(doc), order), after), env) ==
                  Intended(Parts(Texts(doc, order), after), env)
  {
    hide Expand, Encoded, Texts, Intended, Parts, EscapedTree, HoldsHarm, FinalDoc, BuiltConfig, HasBare, StartedEnv,
         Additions;
    var doc := FinalDoc(BuiltConfig(sources, s).models, answers);
    SomeAreMade(creds, sources, s);
    SentinelStays(base, creds, inspects, files);
    DocumentIsRead(doc, order, after, EngineEnv(base, doc, creds, inspects, files));
  }

  // ---- The credentials ----

  /** A placeholder in the file means what its variable holds. */
  lemma PlaceholderMeans(creds: seq<ResolvedCred>, c: ResolvedCred, env: Env)
    requires MadeForModels(creds) && c in creds
    ensures Meaning(Placeholder(c.name), env) == Getenv(env, c.name)
  {
    hide Expand, Escaped, Meaning, Bare, Placeholder, CredVar;
    var model: string, path: seq<string> :| path != [] && c.name == CredVar(model, path);
    PlaceholderIsAReference(model, path);
    PlaceholderExpands(model, path, env);
    ExpandUndoesEscape(Placeholder(c.name), env);
  }

  /** A credential's placeholder stands in the engine for the value of the client's variable, if
      no other credential was given the same variable. */
  lemma EngineReadsTheCredential(sources: seq<Source<Tree>>, s: Setting<Tree>, doc: Tree, base: seq<string>,
                                 creds: seq<ResolvedCred>, inspects: map<string, Inspected>, files: Files, i: nat,
                                 val: string)
    requires AllRefs(sources) && SomeOf(creds, sources, s) && i < |creds|
    requires creds[i].kind.Env? && creds[i].container in inspects
    requires FirstEntry(inspects[creds[i].container].env, creds[i].ref, val)
    requires forall j :: 0 <= j < |creds| && creds[j].name == creds[i].name ==> j == i
    ensures Meaning(Placeholder(creds[i].name), EngineEnv(base, doc, creds, inspects, files)) ==
            val
  {
    hide Meaning, Placeholder, StartedEnv, Additions, FirstEntry, SomeOf, HasBare, MadeForModels;
    SomeAreMade(creds, sources, s);
    PlaceholderMeans(creds, creds[i], EngineEnv(base, doc, creds, inspects, files));
    ValueStays(base, HasBare(doc), creds, inspects, files, i, val);
  }

  /** A secret file's placeholder stands in the engine for the text of the client's file, less
      the newlines at its end, if the client has a bind mount at that very place. */
  lemma EngineReadsTheSecret(sources: seq<Source<Tree>>, s: Setting<Tree>, doc: Tree, base: seq<string>,
                             creds: seq<ResolvedCred>, inspects: map<string, Inspected>, existing: seq<MountPoint>,
                             managed: seq<MountDef>, contents: Contents, i: nat)
    requires AllRefs(sources) && SomeOf(creds, sources, s) && i < |creds|
    requires WellPlaced(existing) && AreVolumes(managed)
    requires creds[i].kind.File? && creds[i].container in inspects
    requires forall j :: 0 <= j < |creds| && creds[j].kind.File? && creds[j].name == creds[i].name ==> j == i
    requires var mounts := inspects[creds[i].container].mounts;
             && WellPlaced(mounts) && SecretMount(creds[i], mounts).Some?
             && BoundAt(mounts, creds[i].ref, SecretMount(creds[i], mounts).value.source)
    ensures var mounts := inspects[creds[i].container].mounts;
            var engine := EngineMounts(existing, managed, Additions(creds, inspects).mounts);
            && DataAt(Defs(mounts), creds[i].ref).Some?
            && Meaning(Placeholder(creds[i].name), EngineEnv(base, doc, creds, inspects, FilesOf(engine, contents))) ==
               Stripped(FilesOf(Defs(mounts), contents)(creds[i].ref))
  {
    hide Meaning, Placeholder, StartedEnv, Additions, SomeOf, HasBare, SecretMount, BoundAt, WellPlaced, AreVolumes,
         EngineMounts, DataOn, Stripped, FilesOf, MadeForModels;
    var engine := EngineMounts(existing, managed, Additions(creds, inspects).mounts);
    SomeAreMade(creds, sources, s);
    PlaceholderMeans(creds, creds[i], EngineEnv(base, doc, creds, inspects, FilesOf(engine, contents)));
    ClientSecretArrives(base, HasBare(doc), creds, inspects, existing, managed, contents, i);
  }

  /** The credentials whose containers answered are some of those that were built. */
  lemma AnsweredAreSome(sources: seq<Source<Tree>>, s: Setting<Tree>, answers: seq<Option<Inspected>>)
    requires AllRefs(sources) && |answers| == |BuiltConfig(sources, s).creds|
    ensures SomeOf(Answered(BuiltConfig(sources, s).creds, answers), sources, s)
  {
    hide BuiltConfig, Answered, Seen;
    var creds := Answered(BuiltConfig(sources, s).creds, answers);
    assert forall c :: c in creds ==> c in BuiltConfig(sources, s).creds;
  }

  // ---- The paths ----

  lemma ClientsAreProper(cs: seq<Client>, models: map<string, Tree>, answers: map<string, Answer>)
    requires ListsClients(cs, models, answers)
    requires forall name :: name in models && name in answers ==> Named(name) && WellPlaced(answers[name].mounts)
    ensures ProperClients(cs)
  {
    hide WellPlaced, ListOf, DatabasesOf;
  }

  /** The engine reads an include of the written document as it is written exactly when each '$'
      in it is literally meant and does no harm; a clean one then has the tree that the model's
      container has there, exactly when each mount in that tree is asked for. */
  lemma EngineReadsTheIncludes(models: map<string, Tree>, answers: map<string, Answer>, cs: seq<Client>,
                               managed: seq<MountDef>, existing: seq<MountPoint>, secrets: seq<MountDef>,
                               name: string, q: string, t: string)
    requires ListsClients(cs, models, answers) && MountsFor(managed, cs) && KeysApart(cs)
    requires forall n :: n in models && n in answers ==> Named(n) && WellPlaced(answers[n].mounts)
    requires AreSecrets(secrets) && WellPlaced(existing) && Closes(t)
    requires name in models && name in answers && answers[name].forArchives
    requires Rewritten(DestMap(answers[name].mounts), name, ListOf(models[name], "includes")) != []
    requires q in ListOf(ModelsRewritten(models, answers)[name], "includes")
    ensures (forall env :: ReadAs(q, q, t, env)) <==> Literal(q) && !Harmful(q)
    ensures exists p :: IncludeOf(ClientOf(models[name], name, answers[name]), p, q, t,
            EngineMounts(existing, managed, secrets))
  {
    hide ListOf, DatabasesOf, Rewritten, DestMap, RewriteDb, ModelRewritten, WellPlaced, Literal, Harmful, ReadAs,
         IncludeOf, Serving, KeysApart, Wants, DatabasesServed, DistinctTargets, AreSecrets, Closes, EngineMounts,
         ProperClients;
    ClientsAreProper(cs, models, answers);
    var i :| 0 <= i < |cs| && cs[i].model == name;
    WrittenIsReadBack(models[name], name, answers[name]);
    WrittenIncludesKeepTheirData(cs, i, q, t, existing, managed, secrets);
  }

  /** All that a pass mounts into the engine is under the two managed directories, so the next
      pass can tell it from the engine's own mounts. */
  lemma PassMountsAreManaged(cs: seq<Client>, managed: seq<MountDef>, creds: seq<ResolvedCred>,
                             inspects: map<string, Inspected>)
    requires (forall d :: d in managed ==> Wants(cs, d)) && MadeForModels(creds)
    ensures AllManaged(managed + Additions(creds, inspects).mounts)
    ensures AreSecrets(Additions(creds, inspects).mounts)
  {
    hide Wants;
    WantedAreManaged(cs, managed);
    SecretsAreClean(creds, inspects);
  }
}
