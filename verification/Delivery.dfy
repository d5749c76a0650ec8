// What a pass is for: after one that succeeds the engine has what the supervisor adds to it, and a
// pass without need leaves the engine alone (internal/pipeline/reconcile.go:122-228,
// internal/pipeline/manage.go:83-148, 222-370). Nothing here is said through the functions that
// build the spec or compare it.
module Delivery {
  import opened Wrappers
  import opened Docker
  import opened Command
  import opened EngineSpec
  import opened Replacement
  import opened Safety
  import opened Convergence

  // ---- What the engine is to have ----

  /** There is something to add. */
  predicate Adds(x: Extras) {
    x.mounts != [] || x.envVars != [] || x.exports != []
  }

  /** A target in one of the two directories that are the supervisor's. */
  predicate Supervised(target: string) {
    "/volumes/" <= target || "/gobackup-secrets/" <= target
  }

  /** In those directories the container has exactly these mounts, in any order. */
  ghost predicate MountsAre(c: Container, ds: seq<MountDef>) {
    forall d: MountDef :: Supervised(d.target) ==> multiset(Defs(c.mounts))[d] == multiset(ds)[d]
  }

  ghost predicate HasAll(c: Container, envVars: seq<string>) {
    forall e :: e in envVars ==> e in c.env
  }

  /** Docker gives a container no two mounts with one target, and no mount is taken for another. */
  ghost predicate Apart(c: Container, ds: seq<MountDef>) {
    DistinctTargets(Defs(c.mounts)) && KeysTellApart(Defs(c.mounts), Merged(c.mounts, ds))
  }

  /** The command is that of the settings, or else the recorded one, wrapped in these exports. */
  ghost predicate RunsWrapped(c: Container, cfg: Config, exports: seq<SecretExport>) {
    && (cfg.command.Some? && (cfg.command.value != [] || exports != []) ==>
          c.command == Wrapped(cfg.command.value, exports))
    && (cfg.command.None? && (c.labels.baseCommand != [] || exports != []) ==>
          c.command == Wrapped(c.labels.baseCommand, exports))
  }

  ghost predicate Delivered(c: Container, cfg: Config, x: Extras, l: Lineage) {
    && HasAll(c, x.envVars)
    && (Apart(c, x.mounts) ==> MountsAre(c, x.mounts))
    && RunsWrapped(c, cfg, x.exports)
    && (l.base.Some? ==> c.command == Wrapped(l.base.value, x.exports))
  }

  lemma MergedHas(existing: seq<MountPoint>, managed: seq<MountDef>, d: MountDef)
    ensures multiset(Merged(existing, managed))[d] ==
            multiset(managed)[d] + if Supervised(d.target) then 0 else multiset(Defs(existing))[d]
  {
    hide Only;
    OnlyMembers(false, Defs(existing), d);
  }

  /** The mounts of a container are the merged ones exactly when its managed ones are as wanted. */
  lemma MergedExactly(c: Container, managed: seq<MountDef>)
    requires AllManaged(managed)
    ensures multiset(Defs(c.mounts)) == multiset(Merged(c.mounts, managed)) <==> MountsAre(c, managed)
  {
    hide Merged;
    var all, merged := multiset(Defs(c.mounts)), multiset(Merged(c.mounts, managed));
    forall d: MountDef ensures Supervised(d.target) ==> merged[d] == multiset(managed)[d]
             ensures !Supervised(d.target) ==> merged[d] == all[d]
    {
      MergedHas(c.mounts, managed, d);
      if d in managed { assert IsManaged(d.target); }
    }
  }

  /** Inspect shows the mount d as mp. */
  predicate Shows(mp: MountPoint, d: MountDef) {
    && mp.kind == d.kind && mp.destination == d.target && mp.rw == !d.readOnly
    && d.source == if mp.name == "" then mp.source else mp.name
  }

  lemma {:induction false} ShownExactly(mps: seq<MountPoint>, d: MountDef)
    ensures d in Defs(mps) <==> exists mp :: mp in mps && Shows(mp, d)
  {
    if d in Defs(mps) {
      var i :| 0 <= i < |mps| && Defs(mps)[i] == d;
      assert mps[i] in mps && Shows(mps[i], d);
    }
    if mp :| mp in mps && Shows(mp, d) {
      var i :| 0 <= i < |mps| && mps[i] == mp;
      assert Defs(mps)[i] == d;
    }
  }

  /** What is wanted is shown, and nothing else is in the supervised directories. */
  lemma MountsAreShown(c: Container, ds: seq<MountDef>, d: MountDef)
    requires MountsAre(c, ds) && Supervised(d.target)
    ensures d in ds <==> exists mp :: mp in c.mounts && Shows(mp, d)
  {
    hide Shows;
    ShownExactly(c.mounts, d);
    assert d in Defs(c.mounts) <==> d in multiset(Defs(c.mounts));
    assert d in ds <==> d in multiset(ds);
  }

  // ---- The two ways to succeed ----

  lemma BaseIsTracked(cfg: Config, c: Container, l: Lineage)
    requires ContainerHolds(c, l) && Compatible(cfg, l)
    ensures l.base.Some? ==> BaseCommand(cfg, c) == l.base.value
  {
  }

  /** An engine that is left alone. */
  lemma UntouchedDelivers(c: Container, cfg: Config, id: Id, x: Extras, l: Lineage)
    requires AllManaged(x.mounts) && Proper(l) && ContainerHolds(c, l) && Compatible(cfg, l)
    requires !NeedsRecreate(c, Built(cfg, id, c, x), x.envVars)
    ensures Delivered(c, cfg, x, l)
  {
    hide SameMounts, Merged, MountsAre, DistinctTargets, KeysTellApart, Wrapped, ContainerHolds, Compatible;
    BaseIsTracked(cfg, c, l);
    MergedExactly(c, x.mounts);
    if Apart(c, x.mounts) { MountsEqualIsExact(c.mounts, Merged(c.mounts, x.mounts)); }
    if x.exports != [] { WrappedIsAnother(c.command, x.exports); }
    forall e | e in x.envVars ensures e in c.env {
      var i :| 0 <= i < |x.envVars| && x.envVars[i] == e;
    }
  }

  /** An engine that was made for it. */
  lemma EchoDelivers(c: Container, was: Container, cfg: Config, oldId: Id, x: Extras, l: Lineage)
    requires AllManaged(x.mounts) && Proper(l) && ContainerHolds(was, l) && Compatible(cfg, l)
    requires Echoes(c, Built(cfg, oldId, was, x))
    ensures Delivered(c, cfg, x, l)
  {
    hide Merged, MergedEnv, Only, ContainerHolds, Compatible;
    BaseIsTracked(cfg, was, l);
    MadeMounts(c, was, x.mounts);
    forall e | e in x.envVars ensures e in c.env {
      MergedEnvMeaning(if cfg.env != [] then cfg.env else was.env, x.envVars, e);
    }
  }

  lemma MadeMounts(c: Container, was: Container, managed: seq<MountDef>)
    requires AllManaged(managed)
    requires multiset(Only(true, Defs(c.mounts))) == multiset(Only(true, Merged(was.mounts, managed)))
    ensures MountsAre(c, managed)
  {
    OnlyOfMerged(was.mounts, managed);
    forall d: MountDef | Supervised(d.target) ensures multiset(Defs(c.mounts))[d] == multiset(managed)[d] {
      OnlyMembers(true, Defs(c.mounts), d);
    }
  }

  // ---- Passes that succeed ----

  lemma SyncDelivers(w: World, cfg: Config, x: Extras, recovered: Id, rs: seq<Reply>, l: Lineage)
    requires Inv(w, l) && w.record == Absent && Compatible(cfg, l) && AllManaged(x.mounts) && Adds(x)
    requires Sync(w, cfg, x, recovered, rs).result.Some?
    ensures var o := Sync(w, cfg, x, recovered, rs);
            IsEngine(o.world, o.result.value) && Delivered(o.world.containers[o.result.value], cfg, x, l)
  {
    hide Replace, WellFormed, AtMostOneEngine, Covered, LogSafe, NeedsRecreate, Built, Compatible, ContainerHolds,
         Proper, Delivered;
    var w1, rs1 := Arrive(w, rs), Tail(rs);
    ArriveKeeps(w, rs, l);
    var id := Engine(w1);
    EngineIsThe(w1, id, l);
    var w2, rs2 := Arrive(w1, rs1), Tail(rs1);
    ArriveKeeps(w1, rs1, l);
    EngineStays(w1, Head(rs1).before, id, l);
    var c := w2.containers[id];
    var p := Pending(id, Built(cfg, id, c, x));
    assert IsEngine(w2, id) && ContainerHolds(c, l);
    if NeedsRecreate(c, p.spec, x.envVars) {
      BuiltHolds(cfg, id, c, x, l);
      ReplaceMakes(w2, p, rs2, l);
      EchoDelivers(Replace(w2, p, rs2).world.containers[Engine(Replace(w2, p, rs2).world)], c, cfg, id, x, l);
    } else {
      UntouchedDelivers(c, cfg, id, x, l);
    }
  }

  lemma EnsureDelivers(w: World, cfg: Config, x: Extras, rs: seq<Reply>, l: Lineage)
    requires Inv(w, l) && Compatible(cfg, l) && AllManaged(x.mounts) && Adds(x)
    requires Ensure(w, cfg, x, rs).result.Some?
    ensures var o := Ensure(w, cfg, x, rs);
            IsEngine(o.world, o.result.value) && Delivered(o.world.containers[o.result.value], cfg, x, l)
  {
    hide Sync, Resume, WellFormed, AtMostOneEngine, Covered, HandedDown, LogSafe, Compatible, Delivered;
    var w1 := Arrive(w, rs);
    ArriveKeeps(w, rs, l);
    if w1.record.Saved? {
      ResumeKeeps(w1, w1.record.pending, Tail(rs), l);
      var o := Resume(w1, w1.record.pending, Tail(rs));
      SyncDelivers(o.world, cfg, x, o.result.value, o.rest, l);
    } else {
      SyncDelivers(w1, cfg, x, 0, Tail(rs), l);
    }
  }

  /** Whatever went wrong on the way: a pass that succeeds with something to add has its result name
      the engine, and that engine has all the variables, exactly the mounts, and the command
      wrapped in exactly the exports. */
  lemma PassDelivers(w: World, ps: Pass, l: Lineage)
    requires Inv(w, l) && Compatible(ps.cfg, l) && AllManaged(ps.extras.mounts) && Adds(ps.extras)
    requires Reconcile(w, ps).result.Some?
    ensures var o := Reconcile(w, ps);
            IsEngine(o.world, o.result.value) && Delivered(o.world.containers[o.result.value], ps.cfg, ps.extras, l)
  {
    hide Inv, Ensure, Delivered, Compatible;
    EnsureKeeps(w, ps.cfg, NO_EXTRAS, ps.replies, l);
    EnsureDelivers(Recovery(w, ps).world, ps.cfg, ps.extras, Recovery(w, ps).rest, l);
  }

  // ---- Quiet passes ----

  /** The engine has a name, and without a record an image, or the settings have one. */
  ghost predicate Named(w: World, cfg: Config, l: Lineage) {
    && l.name != ""
    && (w.record == Absent && cfg.image == "" ==> forall id :: IsEngine(w, id) ==> w.containers[id].image != "")
  }

  lemma QuietSyncSucceeds(w: World, cfg: Config, x: Extras, id: Id, rs: seq<Reply>, l: Lineage)
    requires Inv(w, l) && w.record == Absent && IsEngine(w, id) && Compatible(cfg, l) && Quiet(rs)
    requires l.name != "" && (cfg.image == "" ==> w.containers[id].image != "")
    ensures Ensure(w, cfg, x, rs).result.Some?
  {
    hide NeedsRecreate, Replace, Covered, LogSafe, AtMostOneEngine;
    if x.Empty() {
      QuietArrive(w, rs);
    } else {
      QuietSync(w, cfg, x, id, rs, l);
      assert w.containers[id].name == l.name;
    }
  }

  lemma QuietAfterRecovery(w: World, p: Pending, ps: Pass, l: Lineage)
    requires Pends(w, p, l) && Compatible(ps.cfg, l) && Quiet(ps.replies) && ps.renders && !Foreign(w, p)
    requires l.name != ""
    ensures Reconcile(w, ps).result.Some?
  {
    hide Resume, Foreign, Covered, LogSafe, AtMostOneEngine, WellFormed, HandedDown, Compatible, ContainerHolds;
    QuietArrive(w, ps.replies);
    RecordIsValid(w, p, l);
    QuietResume(w, p, Tail(ps.replies), l);
    EnsureKeeps(w, ps.cfg, NO_EXTRAS, ps.replies, l);
    var o := Recovery(w, ps);
    assert o == Resume(w, p, Tail(ps.replies));
    QuietSyncSucceeds(o.world, ps.cfg, ps.extras, o.result.value, o.rest, l);
  }

  /** A pass that renders and meets nothing in its way succeeds, unless it has a record to carry
      out and another container holds the name. */
  lemma QuietPassSucceedsExactly(w: World, ps: Pass, l: Lineage)
    requires Inv(w, l) && Compatible(ps.cfg, l) && Quiet(ps.replies) && ps.renders && Named(w, ps.cfg, l)
    ensures Reconcile(w, ps).result.Some? <==> (w.record.Saved? ==> !Foreign(w, w.record.pending))
  {
    hide Resume, Sync, Foreign, LogSafe, AtMostOneEngine, WellFormed, HandedDown, Compatible, ContainerHolds;
    if w.record.Saved? {
      var p := w.record.pending;
      QuietArrive(w, ps.replies);
      RecordIsValid(w, p, l);
      QuietResume(w, p, Tail(ps.replies), l);
      if !Foreign(w, p) { QuietAfterRecovery(w, p, ps, l); }
    } else {
      var id :| IsEngine(w, id);
      RestedRecovery(w, ps);
      QuietSyncSucceeds(w, ps.cfg, ps.extras, id, Tail(ps.replies), l);
    }
  }

  /** Without a record a quiet recovery does nothing. */
  lemma RestedRecovery(w: World, ps: Pass)
    requires w.record == Absent && Quiet(ps.replies)
    ensures Recovery(w, ps) == Outcome(w, Tail(ps.replies), Some(0)) && Quiet(Tail(ps.replies))
  {
    QuietArrive(w, ps.replies);
  }

  /** The base command that a container's command is to wrap: that of the settings, or the recorded
      one, or the command itself, which wraps nothing. */
  ghost predicate RunsBase(c: Container, cfg: Config, exports: seq<SecretExport>) {
    if cfg.command.Some? then c.command == Wrapped(cfg.command.value, exports)
    else if c.labels.baseCommand != [] then c.command == Wrapped(c.labels.baseCommand, exports)
    else exports == []
  }

  ghost predicate AsWanted(c: Container, cfg: Config, x: Extras) {
    HasAll(c, x.envVars) && MountsAre(c, x.mounts) && RunsBase(c, cfg, x.exports)
  }

  lemma NeededExactly(c: Container, cfg: Config, id: Id, x: Extras)
    requires AllManaged(x.mounts) && Apart(c, x.mounts)
    ensures NeedsRecreate(c, Built(cfg, id, c, x), x.envVars) <==> !AsWanted(c, cfg, x)
  {
    hide SameMounts, Merged, MergedEnv, MountsAre, DistinctTargets, KeysTellApart, Wrapped, RunsBase, HasAll,
         BaseCommand;
    MergedExactly(c, x.mounts);
    MountsEqualIsExact(c.mounts, Merged(c.mounts, x.mounts));
    CommandExactly(c, cfg, x.exports);
    AllExactly(c, x.envVars);
  }

  lemma CommandExactly(c: Container, cfg: Config, exports: seq<SecretExport>)
    ensures c.command == Wrapped(BaseCommand(cfg, c), exports) <==> RunsBase(c, cfg, exports)
  {
    hide Wrapped;
    if exports == [] {
      NothingToWrap(c.command);
    } else {
      WrappedIsAnother(c.command, exports);
    }
  }

  lemma AllExactly(c: Container, envVars: seq<string>)
    ensures HasAll(c, envVars) <==> !exists i :: 0 <= i < |envVars| && envVars[i] !in c.env
  {
  }

  lemma NothingToWrap(command: seq<string>)
    ensures Wrapped(command, []) == command
  {
  }

  /** Without a record, a quiet pass leaves the engine alone exactly when that has every variable,
      exactly the mounts and the right command, or when it has no name or no image to be
      replaced under, which fails the pass. */
  lemma QuietPassRestsExactly(w: World, ps: Pass, id: Id, l: Lineage)
    requires Inv(w, l) && w.record == Absent && IsEngine(w, id) && Compatible(ps.cfg, l)
    requires Quiet(ps.replies) && ps.renders && Adds(ps.extras)
    requires AllManaged(ps.extras.mounts) && Apart(w.containers[id], ps.extras.mounts)
    ensures var c, o := w.containers[id], Reconcile(w, ps);
            && (o.world.log == w.log <==>
                AsWanted(c, ps.cfg, ps.extras) || c.name == "" || (ps.cfg.image == "" && c.image == ""))
            && (o.world.log == w.log ==> o.world == w && (o.result == Some(id) <==> AsWanted(c, ps.cfg, ps.extras)))
  {
    hide NeedsRecreate, AsWanted, Apart, Ensure, Compatible, Inv;
    RestedRecovery(w, ps);
    var c := w.containers[id];
    NeededExactly(c, ps.cfg, id, ps.extras);
    QuietSync(w, ps.cfg, ps.extras, id, Tail(ps.replies), l);
    IdIsGiven(w, id, l);
  }

  lemma IdIsGiven(w: World, id: Id, l: Lineage)
    requires Inv(w, l) && id in w.containers
    ensures id != 0
  {
  }

  // ---- Settings ----

  /** What a replacement of container was is made of, field by field: the settings win. */
  ghost predicate SpecFrom(s: Spec, was: Container, oldId: Id, cfg: Config, x: Extras) {
    && s.name == was.name && s.labels.component && s.labels.successorOf == oldId
    && (cfg.image != "" ==> s.image == cfg.image)
    && (cfg.image == "" ==> s.image == was.image)
    && (cfg.networks != {} ==> s.networks == cfg.networks)
    && (cfg.networks == {} ==> s.networks == was.networks)
    && (forall e :: e in s.env <==>
          e in x.envVars || (e in (if cfg.env != [] then cfg.env else was.env) && Unset(e, x.envVars)))
    && (forall k :: k in s.labels.other <==> k in cfg.labels || k in was.labels.other)
    && (forall k :: k in cfg.labels ==> s.labels.other[k] == cfg.labels[k])
    && (forall k :: k in was.labels.other && k !in cfg.labels ==> s.labels.other[k] == was.labels.other[k])
  }

  /** No entry of the list sets the variable of e. */
  ghost predicate Unset(e: string, entries: seq<string>) {
    forall f :: f in entries ==> EnvKey(f) != EnvKey(e)
  }

  lemma SettingsWin(cfg: Config, oldId: Id, was: Container, x: Extras)
    ensures SpecFrom(Built(cfg, oldId, was, x), was, oldId, cfg, x)
  {
    hide Merged, MergedEnv, Wrapped;
    var s := Built(cfg, oldId, was, x);
    var base := if cfg.env != [] then cfg.env else was.env;
    forall e ensures e in s.env <==> e in x.envVars || (e in base && Unset(e, x.envVars)) {
      MergedEnvMeaning(base, x.envVars, e);
    }
  }

  ghost predicate SameBut(c: Container, d: Container) {
    c.(running := d.running) == d
  }

  lemma StepStays(w: World, ch: Change, id: Id)
    requires WellFormed(w) && IsEngine(w, id) && w.record == Absent
    ensures IsEngine(Apply(w, ch), id) && SameBut(Apply(w, ch).containers[id], w.containers[id])
  {
  }

  /** Without a record others can only start or stop the engine. */
  lemma {:induction false} StaysSame(w: World, chs: seq<Change>, id: Id, l: Lineage)
    requires Inv(w, l) && w.record == Absent && IsEngine(w, id)
    ensures IsEngine(ApplyAll(w, chs), id) && SameBut(ApplyAll(w, chs).containers[id], w.containers[id])
    decreases |chs|
  {
    hide AtMostOneEngine, Covered, HandedDown, LogSafe, Apply;
    if chs != [] {
      ApplyKeeps(w, chs[0], l);
      StepStays(w, chs[0], id);
      StaysSame(Apply(w, chs[0]), chs[1..], id, l);
    }
  }

  lemma ArrivesSame(w: World, rs: seq<Reply>, id: Id, l: Lineage)
    requires Inv(w, l) && w.record == Absent && IsEngine(w, id)
    ensures var v := Arrive(w, rs);
            Inv(v, l) && v.record == Absent && IsEngine(v, id) && SameBut(v.containers[id], w.containers[id])
  {
    ArriveKeeps(w, rs, l);
    StaysSame(w, Head(rs).before, id, l);
  }

  /** The container c is the engine that was before, or was made in its place. */
  ghost predicate MadeFrom(c: Container, k: Id, was: Container, id: Id, cfg: Config, x: Extras) {
    && (k == id ==> SameBut(c, was))
    && (k != id ==> exists s :: SpecFrom(s, was, id, cfg, x) && Echoes(c, s))
  }

  lemma SyncFrom(w: World, cfg: Config, x: Extras, rs: seq<Reply>, id: Id, l: Lineage)
    requires Inv(w, l) && w.record == Absent && IsEngine(w, id) && Compatible(cfg, l) && Adds(x)
    requires Sync(w, cfg, x, 0, rs).result.Some?
    ensures var o := Sync(w, cfg, x, 0, rs);
            IsEngine(o.world, o.result.value)
            && MadeFrom(o.world.containers[o.result.value], o.result.value, w.containers[id], id, cfg, x)
  {
    hide Replace, Inv, NeedsRecreate, SpecFrom, Echoes, Compatible;
    var w1, rs1 := Arrive(w, rs), Tail(rs);
    ArrivesSame(w, rs, id, l);
    EngineIsThe(w1, id, l);
    var w2, rs2 := Arrive(w1, rs1), Tail(rs1);
    ArrivesSame(w1, rs1, id, l);
    var c := w2.containers[id];
    var p := Pending(id, Built(cfg, id, c, x));
    SettingsWin(cfg, id, w.containers[id], x);
    assert p.spec == Built(cfg, id, w.containers[id], x);
    if NeedsRecreate(c, p.spec, x.envVars) { ReplacementFrom(w2, p, rs2, cfg, x, l); }
  }

  lemma ReplacementFrom(w: World, p: Pending, rs: seq<Reply>, cfg: Config, x: Extras, l: Lineage)
    requires Inv(w, l) && w.record == Absent && IsEngine(w, p.oldId) && Valid(p) && Compatible(cfg, l)
    requires p.spec == Built(cfg, p.oldId, w.containers[p.oldId], x) && Replace(w, p, rs).result.Some?
    ensures var o := Replace(w, p, rs);
            IsEngine(o.world, o.result.value) && Echoes(o.world.containers[o.result.value], p.spec)
            && o.result.value != p.oldId
  {
    hide Echoes, Built, Replace;
    BuiltHolds(cfg, p.oldId, w.containers[p.oldId], x, l);
    ReplaceMakes(w, p, rs, l);
  }

  /** And it has what the settings say: a pass that succeeds without a record to carry out leaves the
      same engine, or one made from it field by field, in which the settings win. */
  lemma PassMakesFrom(w: World, ps: Pass, id: Id, l: Lineage)
    requires Inv(w, l) && w.record == Absent && IsEngine(w, id) && Compatible(ps.cfg, l) && Adds(ps.extras)
    requires Reconcile(w, ps).result.Some?
    ensures var o := Reconcile(w, ps);
            IsEngine(o.world, o.result.value)
            && MadeFrom(o.world.containers[o.result.value], o.result.value, w.containers[id], id, ps.cfg, ps.extras)
  {
    hide Inv, Compatible, SpecFrom, Echoes, Sync;
    var w1 := Arrive(w, ps.replies);
    ArrivesSame(w, ps.replies, id, l);
    NothingToSync(w1, ps.cfg, Tail(ps.replies));
    var w2 := Arrive(w1, Tail(ps.replies));
    ArrivesSame(w1, Tail(ps.replies), id, l);
    SyncFrom(w2, ps.cfg, ps.extras, Tail(Tail(ps.replies)), id, l);
    SameFrom(w.containers[id], w2.containers[id], id, ps.cfg, ps.extras);
  }

  lemma NothingToSync(w: World, cfg: Config, rs: seq<Reply>)
    ensures Sync(w, cfg, NO_EXTRAS, 0, rs) == Outcome(w, rs, Some(0))
  {
  }

  lemma SameFrom(was: Container, now: Container, id: Id, cfg: Config, x: Extras)
    requires SameBut(now, was)
    ensures forall s :: SpecFrom(s, now, id, cfg, x) ==> SpecFrom(s, was, id, cfg, x)
  {
  }
}
