// What the replacement protocol achieves: recovery ends, and one replacement is enough.
module Convergence {
  import opened Wrappers
  import opened Docker
  import opened EngineSpec
  import opened Replacement
  import opened Safety

  /** Nothing goes wrong and nobody interferes. */
  predicate Quiet(rs: seq<Reply>) {
    forall k :: 0 <= k < |rs| ==> rs[k].before == [] && rs[k].fault == Served
  }

  /** The replacement made from p runs, and the record is gone. */
  ghost predicate Recovered(o: Outcome, p: Pending) {
    && o.result.Some? && Replaced(o.world, p) && Quiet(o.rest)
    && IsEngine(o.world, o.result.value) && o.result.value != p.oldId
    && (var c := o.world.containers[o.result.value]; c.running && IsOwn(c, p) && Echoes(c, p.spec))
  }

  lemma QuietArrive(w: World, rs: seq<Reply>)
    requires Quiet(rs)
    ensures Arrive(w, rs) == w && Head(rs).fault == Served && Quiet(Tail(rs))
  {
  }

  lemma QuietStart(w: World, p: Pending, id: Id, rs: seq<Reply>, l: Lineage)
    requires Pends(w, p, l) && IsEngine(w, id) && id != p.oldId && Quiet(rs)
    ensures Recovered(StartNew(w, p, id, rs), p)
    ensures |StartNew(w, p, id, rs).world.log| > |w.log|
  {
    QuietArrive(w, rs);
    StartKeeps(w, p, id, Served, l);
    var (v, a) := AfterStart(w, id, Served);
    QuietArrive(v, Tail(rs));
    ClearKeeps(v, p, id, Served, l);
    var u := AfterClear(v, Served).0;
    assert StartNew(w, p, id, rs).world == u;
    assert IsEngine(v, id) && InPlace(id, v.containers[id], p);
    assert u.containers == v.containers;
  }

  lemma QuietCreate(w: World, p: Pending, rs: seq<Reply>, l: Lineage)
    requires Pends(w, p, l) && NameFree(w, p.spec.name) && Quiet(rs)
    ensures Recovered(CreateNew(w, p, rs), p)
    ensures |CreateNew(w, p, rs).world.log| > |w.log|
  {
    QuietArrive(w, rs);
    CreateKeeps(w, p, Head(rs), l);
    var (v, _, id) := AfterCreate(w, p.spec, Head(rs));
    QuietStart(v, p, id, Tail(rs), l);
  }

  lemma QuietStop(w: World, p: Pending, rs: seq<Reply>, l: Lineage)
    requires Pends(w, p, l) && IsEngine(w, p.oldId) && Quiet(rs)
    ensures Recovered(StopOld(w, p, rs), p)
    ensures |StopOld(w, p, rs).world.log| > |w.log|
  {
    hide AfterStop, AfterRemove, Foreign, Covered, HandedDown, LogSafe, AtMostOneEngine, Recovered;
    QuietArrive(w, rs);
    StopKeeps(w, p, Served, l);
    var v := AfterStop(w, p.oldId, Served).0;
    QuietArrive(v, Tail(rs));
    RemoveKeeps(v, p, Served, l);
    var u := AfterRemove(v, p.oldId, Served).0;
    OldHoldsTheName(w, p, l);
    OldGoes(w, p);
    QuietCreate(u, p, Tail(Tail(rs)), l);
  }

  lemma OldHoldsTheName(w: World, p: Pending, l: Lineage)
    requires Pends(w, p, l) && IsEngine(w, p.oldId)
    ensures w.containers[p.oldId].name == p.spec.name
  {
  }

  /** Stopped and removed, the old engine leaves its name free. */
  lemma OldGoes(w: World, p: Pending)
    requires WellFormed(w) && p.oldId in w.containers && w.containers[p.oldId].name == p.spec.name
    ensures var (v, a) := AfterStop(w, p.oldId, Served);
            var (u, b) := AfterRemove(v, p.oldId, Served);
            !a.Error? && !b.Error? && NameFree(u, p.spec.name) && |u.log| > |w.log|
  {
    var v := AfterStop(w, p.oldId, Served).0;
    var u := AfterRemove(v, p.oldId, Served).0;
    assert v.containers.Keys == w.containers.Keys && !v.containers[p.oldId].running;
    forall k | k in u.containers ensures u.containers[k].name != p.spec.name {
      assert k in w.containers && k != p.oldId && u.containers[k].name == w.containers[k].name;
    }
  }

  lemma NamedIs(w: World, name: string, id: Id)
    requires WellFormed(w) && id in w.containers && w.containers[id].name == name
    ensures ByName(w, name) == id
  {
    assert 0 < id < w.nextId;
  }

  /** One quiet recovery carries out the record if the name it needs is free, held by the
      old engine or held by the replacement, and fails without touching anything otherwise. */
  lemma QuietResume(w: World, p: Pending, rs: seq<Reply>, l: Lineage)
    requires Pends(w, p, l) && Quiet(rs)
    ensures !Foreign(w, p) ==> Recovered(Resume(w, p, rs), p) && |Resume(w, p, rs).world.log| > |w.log|
    ensures Foreign(w, p) ==> Resume(w, p, rs).world == w && Resume(w, p, rs).result.None?
  {
    QuietArrive(w, rs);
    var id := ByName(w, p.spec.name);
    if Foreign(w, p) {
      var k :| k in w.containers && w.containers[k].name == p.spec.name && k != p.oldId
               && !MarkedFor(w.containers[k], p.oldId);
      NamedIs(w, p.spec.name, k);
    } else if id == 0 {
      forall k | k in w.containers ensures w.containers[k].name != p.spec.name {
        assert 0 < k < w.nextId;
      }
      QuietCreate(w, p, Tail(rs), l);
    } else if id == p.oldId {
      QuietStop(w, p, Tail(rs), l);
    } else {
      QuietStart(w, p, id, Tail(rs), l);
    }
  }

  /** The recovery pass: with a record on disk and nothing going wrong, the first thing a
      reconcile does carries it out, exactly when no foreign container holds the name. If
      listing or the defaults then fail, that is where the pass leaves the world. */
  lemma QuietRecovery(w: World, p: Pending, ps: Pass, l: Lineage)
    requires Pends(w, p, l) && Quiet(ps.replies)
    ensures Recovered(Recovery(w, ps), p) <==> !Foreign(w, p)
    ensures Foreign(w, p) ==> Reconcile(w, ps).world == w
    ensures !ps.renders ==> Reconcile(w, ps).world == Recovery(w, ps).world
  {
    QuietArrive(w, ps.replies);
    QuietResume(w, p, Tail(ps.replies), l);
  }

  /** Whatever the world: a foreign holder of the name is not touched, nor is the record. */
  lemma ForeignIsLeftAlone(w: World, p: Pending, rs: seq<Reply>)
    requires WellFormed(w) && Foreign(w, p)
    requires Head(rs).before == []
    ensures Resume(w, p, rs).world == w && Resume(w, p, rs).result.None?
  {
    var k :| k in w.containers && w.containers[k].name == p.spec.name && k != p.oldId
               && !MarkedFor(w.containers[k], p.oldId);
    NamedIs(w, p.spec.name, k);
  }

  /** The record lacks an ID, a name or an image, or its labels do not mark a replacement of that ID. */
  predicate Incomplete(p: Pending) {
    || p.oldId == 0 || p.spec.name == "" || p.spec.image == ""
    || !p.spec.labels.component || p.spec.labels.successorOf != p.oldId
  }

  /** A record that cannot be read, or is not complete, stops every pass before it
      touches anything. */
  lemma BadRecordIsLeftAlone(w: World, ps: Pass)
    requires w.record.Corrupt? || (w.record.Saved? && Incomplete(w.record.pending))
    requires Head(ps.replies).before == []
    ensures Reconcile(w, ps).world == w && Reconcile(w, ps).result.None?
  {
    assert w.record.Saved? ==> !Valid(w.record.pending);
  }

  // ---- At most k + 1 passes under k disturbances ----

  function Disturbances(rs: seq<Reply>): nat {
    if rs == [] then 0
    else (if rs[0].before == [] && rs[0].fault == Served then 0 else 1) + Disturbances(rs[1..])
  }

  lemma {:induction false} NoDisturbances(rs: seq<Reply>)
    requires Disturbances(rs) == 0
    ensures Quiet(rs)
  {
    if rs != [] {
      NoDisturbances(rs[1..]);
      forall k | 0 <= k < |rs| ensures rs[k].before == [] && rs[k].fault == Served {
        if k > 0 { assert rs[k] == rs[1..][k - 1]; }
      }
    }
  }

  function Total(passes: seq<Pass>): nat {
    if passes == [] then 0 else Disturbances(passes[0].replies) + Total(passes[1..])
  }

  function RunPasses(w: World, passes: seq<Pass>): World
    decreases |passes|
  {
    if passes == [] then w else RunPasses(Reconcile(w, passes[0]).world, passes[1..])
  }

  /** A pass that does not carry out the record leaves it, and was disturbed. */
  lemma FailedRecovery(w: World, p: Pending, ps: Pass, l: Lineage)
    requires Pends(w, p, l) && !Foreign(w, p) && Polite(ps.replies, p)
    requires !Replaced(Recovery(w, ps).world, p)
    ensures var v := Reconcile(w, ps).world;
            Pends(v, p, l) && !Foreign(v, p) && Disturbances(ps.replies) > 0
  {
    hide Covered, HandedDown, LogSafe, WellFormed, AtMostOneEngine, Replaced;
    var rs := ps.replies;
    RecordIsValid(w, p, l);
    if Disturbances(rs) == 0 {
      NoDisturbances(rs);
      QuietRecovery(w, p, ps, l);
    }
    var v := Arrive(w, rs);
    ArriveKeeps(w, rs, l);
    if Head(rs).fault == Served {
      ResumeKeeps(v, p, Tail(rs), l);
    }
  }

  /** The recovery of pass n carries out the record. */
  ghost predicate DoneAt(w: World, p: Pending, passes: seq<Pass>, n: nat) {
    n < |passes| && Replaced(Recovery(RunPasses(w, passes[..n]), passes[n]).world, p)
  }

  lemma DoneLater(w: World, p: Pending, passes: seq<Pass>, n: nat)
    requires passes != [] && DoneAt(Reconcile(w, passes[0]).world, p, passes[1..], n)
    ensures DoneAt(w, p, passes, n + 1)
  {
    assert passes[..n + 1][1..] == passes[1..][..n];
    assert RunPasses(w, passes[..n + 1]) == RunPasses(Reconcile(w, passes[0]).world, passes[1..][..n]);
  }

  /** Under k disturbances of any kind - calls refused, answers lost, crashes, containers
      started, stopped or removed by others - at most k + 1 passes are needed. */
  lemma {:induction false} RecoveryEnds(w: World, p: Pending, passes: seq<Pass>, l: Lineage)
    requires Pends(w, p, l) && !Foreign(w, p)
    requires forall i :: 0 <= i < |passes| ==> Polite(passes[i].replies, p)
    requires Total(passes) < |passes|
    ensures exists n :: DoneAt(w, p, passes, n)
    decreases |passes|
  {
    if Replaced(Recovery(w, passes[0]).world, p) {
      assert RunPasses(w, passes[..0]) == w;
      assert DoneAt(w, p, passes, 0);
    } else {
      FailedRecovery(w, p, passes[0], l);
      var v := Reconcile(w, passes[0]).world;
      RecoveryEnds(v, p, passes[1..], l);
      var n :| DoneAt(v, p, passes[1..], n);
      DoneLater(w, p, passes, n);
    }
  }

  // ---- One replacement is enough ----

  /** With the same settings and additions and nothing going wrong, a pass over an engine
      that needs no replacement changes nothing. */
  lemma QuietSync(w: World, cfg: Config, extras: Extras, id: Id, rs: seq<Reply>, l: Lineage)
    requires Inv(w, l) && w.record == Absent && IsEngine(w, id) && !extras.Empty() && Quiet(rs)
    ensures var spec := Built(cfg, id, w.containers[id], extras);
            var o := Ensure(w, cfg, extras, rs);
            && (!NeedsRecreate(w.containers[id], spec, extras.envVars) ==> o.world == w && o.result == Some(id))
            && (NeedsRecreate(w.containers[id], spec, extras.envVars) && Valid(Pending(id, spec))
                  && Compatible(cfg, l) ==>
                  |o.world.log| > |w.log| && o.result.Some?)
            && (NeedsRecreate(w.containers[id], spec, extras.envVars) && !Valid(Pending(id, spec)) ==>
                  o.world == w && o.result.None?)
  {
    hide Built, Compatible, NeedsRecreate, Replace;
    var rs1 := Tail(rs);
    var rs2 := Tail(rs1);
    QuietArrive(w, rs);
    QuietArrive(w, rs1);
    QuietArrive(w, rs2);
    EngineIsThe(w, id, l);
    var p := Pending(id, Built(cfg, id, w.containers[id], extras));
    if NeedsRecreate(w.containers[id], p.spec, extras.envVars) && Valid(p) && Compatible(cfg, l) {
      BuiltHolds(cfg, id, w.containers[id], extras, l);
      QuietReplace(w, p, Tail(rs2), l);
    }
  }

  lemma QuietReplace(w: World, p: Pending, rs: seq<Reply>, l: Lineage)
    requires Inv(w, l) && w.record == Absent && IsEngine(w, p.oldId) && Valid(p) && SpecHolds(p.spec, l) && Quiet(rs)
    ensures |Replace(w, p, rs).world.log| > |w.log| && Replace(w, p, rs).result.Some?
  {
    hide Covered, LogSafe, AtMostOneEngine, Valid;
    QuietArrive(w, rs);
    SaveKeeps(w, p, Served, l);
    var v := AfterSave(w, p, Served).0;
    assert v.containers[p.oldId].name == p.spec.name;
    assert !Foreign(v, p);
    QuietResume(v, p, Tail(rs), l);
  }

  /** A replacement that succeeded left an engine that echoes the spec. */
  lemma ReplaceMakes(w: World, p: Pending, rs: seq<Reply>, l: Lineage)
    requires Inv(w, l) && w.record == Absent && IsEngine(w, p.oldId) && Valid(p) && SpecHolds(p.spec, l)
    requires Replace(w, p, rs).result.Some?
    ensures var v := Replace(w, p, rs).world;
            && Inv(v, l) && v.record == Absent && IsEngine(v, Engine(v)) && Echoes(v.containers[Engine(v)], p.spec)
            && Replace(w, p, rs).result == Some(Engine(v)) && Engine(v) != p.oldId
  {
    ReplaceKeeps(w, p, rs, l);
    EngineIsThe(Replace(w, p, rs).world, Replace(w, p, rs).result.value, l);
    var v := Replace(w, p, rs).world;
    var k :| IsEngine(v, k) && k != p.oldId && InPlace(k, v.containers[k], p);
    EngineIsThe(v, k, l);
  }

  /** After a replacement that succeeded, a further pass with the same settings and the
      same additions changes nothing, if and only if the command settles. */
  lemma SettlesAfterReplacement(w: World, cfg: Config, p: Pending, extras: Extras, rs: seq<Reply>, quiet: seq<Reply>,
                                l: Lineage)
    requires Inv(w, l) && w.record == Absent && IsEngine(w, p.oldId) && Compatible(cfg, l)
    requires AllManaged(extras.mounts) && !extras.Empty() && Quiet(quiet)
    requires p.spec == Built(cfg, p.oldId, w.containers[p.oldId], extras) && Valid(p)
    requires Replace(w, p, rs).result.Some?
    ensures var v := Replace(w, p, rs).world;
            IsEngine(v, Engine(v)) &&
            (Ensure(v, cfg, extras, quiet).world == v <==>
             CommandSettles(cfg, BaseCommand(cfg, w.containers[p.oldId]), extras.exports, v.containers[Engine(v)]))
  {
    BuiltHolds(cfg, p.oldId, w.containers[p.oldId], extras, l);
    ReplaceMakes(w, p, rs, l);
    Unchanged(Replace(w, p, rs).world, w.containers[p.oldId], p, cfg, extras, quiet, l);
  }

  lemma Unchanged(v: World, existing: Container, p: Pending, cfg: Config, extras: Extras, quiet: seq<Reply>, l: Lineage)
    requires Inv(v, l) && v.record == Absent && IsEngine(v, Engine(v)) && Compatible(cfg, l)
    requires AllManaged(extras.mounts) && !extras.Empty() && Quiet(quiet)
    requires p.spec == Built(cfg, p.oldId, existing, extras) && Valid(p)
    requires Echoes(v.containers[Engine(v)], p.spec)
    ensures Ensure(v, cfg, extras, quiet).world == v <==>
            CommandSettles(cfg, BaseCommand(cfg, existing), extras.exports, v.containers[Engine(v)])
  {
    var k := Engine(v);
    var c := v.containers[k];
    OneReplacementIsEnough(cfg, p.oldId, existing, extras, c, k);
    QuietSync(v, cfg, extras, k, quiet, l);
    assert Valid(Pending(k, Built(cfg, k, c, extras)));
  }

  /** With a base command to run, tracked from the first engine on, any pass that succeeds
      is followed by passes that change nothing. */
  lemma PassSettles(w: World, cfg: Config, extras: Extras, rs: seq<Reply>, quiet: seq<Reply>, l: Lineage)
    requires Inv(w, l) && Compatible(cfg, l) && l.base.Some?
    requires AllManaged(extras.mounts) && !extras.Empty() && Quiet(quiet)
    requires Ensure(w, cfg, extras, rs).result.Some?
    ensures var v := Ensure(w, cfg, extras, rs).world;
            Ensure(v, cfg, extras, quiet).world == v && Ensure(v, cfg, extras, quiet).result.Some?
  {
    var w1 := Arrive(w, rs);
    ArriveKeeps(w, rs, l);
    if w1.record.Saved? {
      ResumeKeeps(w1, w1.record.pending, Tail(rs), l);
      var o := Resume(w1, w1.record.pending, Tail(rs));
      SyncSettles(o.world, cfg, extras, o.result.value, o.rest, quiet, l);
    } else {
      SyncSettles(w1, cfg, extras, 0, Tail(rs), quiet, l);
    }
  }

  lemma SyncSettles(w: World, cfg: Config, extras: Extras, recovered: Id, rs: seq<Reply>, quiet: seq<Reply>, l: Lineage)
    requires Inv(w, l) && w.record == Absent && Compatible(cfg, l) && l.base.Some?
    requires AllManaged(extras.mounts) && !extras.Empty() && Quiet(quiet)
    requires Sync(w, cfg, extras, recovered, rs).result.Some?
    ensures var v := Sync(w, cfg, extras, recovered, rs).world;
            Ensure(v, cfg, extras, quiet).world == v && Ensure(v, cfg, extras, quiet).result.Some?
  {
    hide Replace, LogSafe;
    var w1, rs1 := Arrive(w, rs), Tail(rs);
    ArriveKeeps(w, rs, l);
    var id := Engine(w1);
    EngineIsThe(w1, id, l);
    var w2, rs2 := Arrive(w1, rs1), Tail(rs1);
    ArriveKeeps(w1, rs1, l);
    EngineStays(w1, Head(rs1).before, id, l);
    var p := Pending(id, Built(cfg, id, w2.containers[id], extras));
    if NeedsRecreate(w2.containers[id], p.spec, extras.envVars) {
      ReplacementSettles(w2, cfg, extras, p, rs2, quiet, l);
    } else {
      QuietSync(w2, cfg, extras, id, quiet, l);
    }
  }

  lemma ReplacementSettles(w: World, cfg: Config, extras: Extras, p: Pending, rs: seq<Reply>, quiet: seq<Reply>,
                           l: Lineage)
    requires Inv(w, l) && w.record == Absent && IsEngine(w, p.oldId) && Compatible(cfg, l) && l.base.Some?
    requires AllManaged(extras.mounts) && !extras.Empty() && Quiet(quiet)
    requires p.spec == Built(cfg, p.oldId, w.containers[p.oldId], extras) && Valid(p)
    requires Replace(w, p, rs).result.Some?
    ensures var v := Replace(w, p, rs).world;
            Ensure(v, cfg, extras, quiet).world == v && Ensure(v, cfg, extras, quiet).result.Some?
  {
    hide Replace, Ensure, Quiet;
    BuiltHolds(cfg, p.oldId, w.containers[p.oldId], extras, l);
    SettlesAfterReplacement(w, cfg, p, extras, rs, quiet, l);
    ReplaceMakes(w, p, rs, l);
    QuietEnsureSucceeds(Replace(w, p, rs).world, cfg, extras, quiet, l);
  }

  lemma QuietEnsureSucceeds(v: World, cfg: Config, extras: Extras, quiet: seq<Reply>, l: Lineage)
    requires Inv(v, l) && v.record == Absent && Compatible(cfg, l) && !extras.Empty() && Quiet(quiet)
    requires Ensure(v, cfg, extras, quiet).world == v
    requires exists id :: IsEngine(v, id) && v.containers[id].name != "" && v.containers[id].image != ""
    ensures Ensure(v, cfg, extras, quiet).result.Some?
  {
    var id :| IsEngine(v, id) && v.containers[id].name != "" && v.containers[id].image != "";
    QuietSync(v, cfg, extras, id, quiet, l);
  }
}
