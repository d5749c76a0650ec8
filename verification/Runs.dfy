// Whole runs of the supervisor: passes with any faults, what others do, and losses of power, after
// which the record on disk is one of those that the directory was not synced past
// (internal/pipeline/manage.go:83-184, internal/apply/filewatch.go:69-76).
module Runs {
  import opened Wrappers
  import opened Docker
  import opened EngineSpec
  import opened Replacement
  import opened Safety
  import opened Convergence

  datatype Event = Reconciles(pass: Pass) | Outside(change: Change) | PowerLoss(record: Record)

  function Step(w: World, e: Event): World {
    match e
    case Reconciles(ps) => Reconcile(w, ps).world
    case Outside(ch) => Apply(w, ch)
    case PowerLoss(r) => AfterLoss(w, r)
  }

  function RunAll(w: World, es: seq<Event>): World
    decreases |es|
  {
    if es == [] then w else RunAll(Step(w, es[0]), es[1..])
  }

  ghost predicate AllCompatible(es: seq<Event>, l: Lineage) {
    forall k :: 0 <= k < |es| && es[k].Reconciles? ==> Compatible(es[k].pass.cfg, l)
  }

  // ---- What a power loss may leave ----

  /** There is a record, and a power loss may take it away: its write was answered after the
      rename, without the directory being synced. */
  predicate Exposed(w: World) {
    w.record.Saved? && !w.Durable()
  }

  /** The invariant holds with any record that a power loss may leave, a record that is there
      stays, and all requests were made with such a record. */
  ghost predicate Secure(w: World, l: Lineage) {
    && w.record in w.kept && !Exposed(w) && DurableLog(w)
    && forall r :: r in w.kept ==> Inv(w.(record := r), l)
  }

  lemma SecureNow(w: World, l: Lineage)
    requires Secure(w, l)
    ensures Inv(w, l)
  {
    hide Inv;
    assert w.(record := w.record) == w;
  }

  /** What others may do without a record they may do with one. */
  lemma AllowedStill(w: World, ch: Change, r: Record)
    requires w.record == Absent && Allowed(w, ch)
    ensures Allowed(w.(record := r), ch) && Apply(w.(record := r), ch) == Apply(w, ch).(record := r)
  {
  }

  lemma ApplySecure(w: World, ch: Change, l: Lineage)
    requires Secure(w, l)
    ensures Secure(Apply(w, ch), l)
  {
    hide Inv, Allowed, Apply;
    SecureNow(w, l);
    ApplyKeeps(w, ch, l);
    var v := Apply(w, ch);
    forall r | r in v.kept ensures Inv(v.(record := r), l) {
      if r == w.record {
        assert v.(record := r) == v;
      } else {
        OtherRecord(w, l);
        OtherSecure(w, ch, r, l);
      }
    }
  }

  lemma OtherRecord(w: World, l: Lineage)
    requires Secure(w, l) && w.kept != {w.record}
    ensures w.record == Absent
  {
    hide Inv;
    SecureNow(w, l);
    NotCorrupt(w, l);
  }

  lemma NotCorrupt(w: World, l: Lineage)
    requires Inv(w, l)
    ensures w.record != Corrupt
  {
  }

  lemma OtherSecure(w: World, ch: Change, r: Record, l: Lineage)
    requires w.record == Absent && Inv(w.(record := r), l)
    ensures Inv(Apply(w, ch).(record := r), l)
  {
    hide Inv, Allowed;
    if Allowed(w, ch) {
      AllowedStill(w, ch, r);
      ApplyKeeps(w.(record := r), ch, l);
    }
  }

  lemma {:induction false} ApplyAllSecure(w: World, chs: seq<Change>, l: Lineage)
    requires Secure(w, l)
    ensures Secure(ApplyAll(w, chs), l) && ApplyAll(w, chs).record == w.record
    decreases |chs|
  {
    hide Secure, Apply;
    if chs != [] {
      SecureNow(w, l);
      ApplyKeeps(w, chs[0], l);
      ApplySecure(w, chs[0], l);
      ApplyAllSecure(Apply(w, chs[0]), chs[1..], l);
    }
  }

  lemma ArriveSecure(w: World, rs: seq<Reply>, l: Lineage)
    requires Secure(w, l)
    ensures Secure(Arrive(w, rs), l) && Arrive(w, rs).record == w.record
  {
    hide Secure;
    ApplyAllSecure(w, Head(rs).before, l);
  }

  // ---- Passes ----

  lemma ResumeSecure(w0: World, p: Pending, rs: seq<Reply>, l: Lineage)
    requires Secure(w0, l) && w0.record == Saved(p)
    ensures var o := Resume(w0, p, rs); Secure(o.world, l) && (o.result.Some? ==> o.world.record == Absent)
  {
    hide Inv, Resume, Foreign, Polite;
    SecureNow(w0, l);
    ResumeKeeps(w0, p, rs, l);
    var v := Resume(w0, p, rs).world;
    assert v.(record := v.record) == v;
  }

  lemma SaveSecure(w: World, p: Pending, f: Fault, l: Lineage)
    requires Secure(w, l) && w.record == Absent
    requires Valid(p) && IsEngine(w, p.oldId) && SpecHolds(p.spec, l)
    ensures var v := AfterSave(w, p, f).0;
            if f.Lost? then Exposed(v) && Absent in v.kept && Inv(v, l) else Secure(v, l)
  {
    hide Inv;
    SecureNow(w, l);
    SaveKeeps(w, p, f, l);
    var v := AfterSave(w, p, f).0;
    if f.Lost? {
      assert Absent in v.kept;
    } else if v != w {
      assert v.(record := Saved(p)) == v;
    }
  }

  lemma ReplaceSecure(w0: World, p: Pending, rs: seq<Reply>, l: Lineage)
    requires Secure(w0, l) && w0.record == Absent
    requires Valid(p) && IsEngine(w0, p.oldId) && SpecHolds(p.spec, l)
    ensures !Exposed(Replace(w0, p, rs).world) ==> Secure(Replace(w0, p, rs).world, l)
  {
    hide Secure, Resume, Exposed, SpecHolds;
    SecureNow(w0, l);
    ArriveSecure(w0, rs, l);
    EngineStays(w0, Head(rs).before, p.oldId, l);
    var w := Arrive(w0, rs);
    SaveSecure(w, p, Head(rs).fault, l);
    var (v, a) := AfterSave(w, p, Head(rs).fault);
    if !a.Error? { ResumeSecure(v, p, Tail(rs), l); }
  }

  lemma SyncSecure(w0: World, cfg: Config, extras: Extras, recovered: Id, rs: seq<Reply>, l: Lineage)
    requires Secure(w0, l) && w0.record == Absent && Compatible(cfg, l)
    ensures var v := Sync(w0, cfg, extras, recovered, rs).world;
            (extras.Empty() || !Exposed(v)) ==> Secure(v, l)
  {
    hide Secure, Exposed, Replace, Inv, Compatible, SpecHolds;
    var w1, rs1 := Arrive(w0, rs), Tail(rs);
    var id := Engine(w1);
    ArriveSecure(w0, rs, l);
    if !extras.Empty() && id != 0 {
      var w2, rs2 := Arrive(w1, rs1), Tail(rs1);
      ArriveSecure(w1, rs1, l);
      SecureNow(w1, l);
      SecureNow(w2, l);
      EngineIsThe(w1, id, l);
      EngineStays(w1, Head(rs1).before, id, l);
      EngineHolds(w2, id, l);
      BuiltHolds(cfg, id, w2.containers[id], extras, l);
      var p := Pending(id, Built(cfg, id, w2.containers[id], extras));
      if Valid(p) {
        ReplaceSecure(w2, p, rs2, l);
      }
      SyncCases(w0, cfg, extras, recovered, rs);
    }
  }

  lemma EngineHolds(w: World, id: Id, l: Lineage)
    requires Inv(w, l) && IsEngine(w, id)
    ensures Proper(l) && ContainerHolds(w.containers[id], l)
  {
  }

  lemma EnsureSecure(w0: World, cfg: Config, extras: Extras, rs: seq<Reply>, l: Lineage)
    requires Secure(w0, l) && Compatible(cfg, l)
    ensures var v := Ensure(w0, cfg, extras, rs).world;
            (extras.Empty() || !Exposed(v)) ==> Secure(v, l)
  {
    hide Secure, Exposed, Sync, Resume, Inv, Compatible, Valid;
    var w := Arrive(w0, rs);
    ArriveSecure(w0, rs, l);
    if Head(rs).fault == Served {
      match w.record {
        case Corrupt =>
        case Absent => SyncSecure(w, cfg, extras, 0, Tail(rs), l);
        case Saved(p) =>
          ResumeSecure(w, p, Tail(rs), l);
          var o := Resume(w, p, Tail(rs));
          if o.result.Some? { SyncSecure(o.world, cfg, extras, o.result.value, o.rest, l); }
      }
    }
  }

  lemma ReconcileSecure(w: World, ps: Pass, l: Lineage)
    requires Secure(w, l) && Compatible(ps.cfg, l)
    ensures var v := Reconcile(w, ps).world; !Exposed(v) ==> Secure(v, l)
  {
    hide Secure, Exposed, Ensure, Compatible;
    EnsureSecure(w, ps.cfg, NO_EXTRAS, ps.replies, l);
    var o := Recovery(w, ps);
    EnsureSecure(o.world, ps.cfg, ps.extras, o.rest, l);
  }

  lemma LossSecure(w: World, r: Record, l: Lineage)
    requires Secure(w, l)
    ensures Secure(AfterLoss(w, r), l)
  {
    hide Inv;
    if r in w.kept {
      var v := AfterLoss(w, r);
      KeptIsFree(w.(record := r), {r}, l);
      assert v == w.(record := r).(kept := {r}) && v.(record := r) == v;
    }
  }

  lemma StepSecure(w: World, e: Event, l: Lineage)
    requires Secure(w, l) && (e.Reconciles? ==> Compatible(e.pass.cfg, l))
    ensures !Exposed(Step(w, e)) ==> Secure(Step(w, e), l)
  {
    hide Secure, Exposed, Reconcile, Apply, AfterLoss, Compatible;
    match e {
      case Reconciles(ps) => ReconcileSecure(w, ps, l);
      case Outside(ch) => ApplySecure(w, ch, l);
      case PowerLoss(r) => LossSecure(w, r, l);
    }
  }

  // ---- Runs ----

  predicate HasLoss(es: seq<Event>) {
    exists k | 0 <= k < |es| :: es[k].PowerLoss?
  }

  /** No world before a power loss is exposed. */
  predicate Timely(w: World, es: seq<Event>)
    decreases |es|
  {
    es == [] || ((HasLoss(es) ==> !Exposed(w)) && Timely(Step(w, es[0]), es[1..]))
  }

  /** No world of the run is. */
  predicate NeverExposed(w: World, es: seq<Event>)
    decreases |es|
  {
    !Exposed(w) && (es == [] || NeverExposed(Step(w, es[0]), es[1..]))
  }

  lemma LossLater(es: seq<Event>)
    requires es != []
    ensures HasLoss(es) <==> es[0].PowerLoss? || HasLoss(es[1..])
  {
    if HasLoss(es) {
      var k :| 0 <= k < |es| && es[k].PowerLoss?;
      assert k > 0 ==> es[1..][k - 1] == es[k];
    }
    if HasLoss(es[1..]) {
      var k :| 0 <= k < |es| - 1 && es[1..][k].PowerLoss?;
      assert es[k + 1] == es[1..][k];
    }
  }

  lemma CompatibleLater(es: seq<Event>, l: Lineage)
    requires es != [] && AllCompatible(es, l)
    ensures AllCompatible(es[1..], l) && (es[0].Reconciles? ==> Compatible(es[0].pass.cfg, l))
  {
    hide Compatible;
    forall k | 0 <= k < |es[1..]| && es[1..][k].Reconciles? ensures Compatible(es[1..][k].pass.cfg, l) {
      assert es[1..][k] == es[k + 1];
    }
  }

  /** A step that is no power loss keeps the invariant whatever is on disk. */
  lemma StepKeeps(w: World, e: Event, l: Lineage)
    requires Inv(w, l) && (e.Reconciles? ==> Compatible(e.pass.cfg, l))
    ensures !e.PowerLoss? ==> Inv(Step(w, e), l)
  {
    hide Inv, Compatible, Reconcile, Apply;
    match e {
      case Reconciles(ps) => ReconcileKeeps(w, ps, l);
      case Outside(ch) => ApplyKeeps(w, ch, l);
      case PowerLoss(_) =>
    }
  }

  /** The invariant holds in every world that a timely run reaches. */
  lemma {:induction false} RunKeeps(w: World, es: seq<Event>, l: Lineage)
    requires Inv(w, l) && (HasLoss(es) ==> Secure(w, l)) && AllCompatible(es, l) && Timely(w, es)
    ensures Inv(RunAll(w, es), l)
    decreases |es|
  {
    hide Inv, Secure, Exposed, Step, HasLoss, AllCompatible, Compatible;
    if es != [] {
      LossLater(es);
      CompatibleLater(es, l);
      StepKeeps(w, es[0], l);
      var v := Step(w, es[0]);
      if HasLoss(es) {
        StepSecure(w, es[0], l);
        if es[0].PowerLoss? { LossIsSecure(w, es[0], l); }
        if HasLoss(es[1..]) { SomethingLeft(es[1..]); }
        if !Exposed(v) { SecureNow(v, l); }
      }
      RunKeeps(v, es[1..], l);
    }
  }

  lemma SomethingLeft(es: seq<Event>)
    requires HasLoss(es)
    ensures es != []
  {
  }

  lemma LossIsSecure(w: World, e: Event, l: Lineage)
    requires Secure(w, l) && e.PowerLoss?
    ensures !Exposed(Step(w, e))
  {
    hide Inv;
    LossSecure(w, e.record, l);
  }

  /** Without a late save, every world of the run is ready for a power loss. */
  lemma {:induction false} RunIsSecure(w: World, es: seq<Event>, l: Lineage)
    requires Secure(w, l) && AllCompatible(es, l) && NeverExposed(w, es)
    ensures Secure(RunAll(w, es), l)
    decreases |es|
  {
    hide Secure, Exposed, Step, AllCompatible, Compatible;
    if es != [] {
      CompatibleLater(es, l);
      StepSecure(w, es[0], l);
      var v := Step(w, es[0]);
      assert !Exposed(v);
      RunIsSecure(v, es[1..], l);
    }
  }

  lemma {:induction false} NeverExposedIsTimely(w: World, es: seq<Event>)
    requires NeverExposed(w, es)
    ensures Timely(w, es)
    decreases |es|
  {
    if es != [] { NeverExposedIsTimely(Step(w, es[0]), es[1..]); }
  }

  // ---- What runs keep ----

  /** Only the name is tracked, which no setting overrides. */
  function NameOnly(c: Container): Lineage {
    Lineage(c.name, multiset{}, None, None)
  }

  lemma InitialSecure(w: World, id: Id, l: Lineage)
    requires Initial(w, id) && Proper(l) && ContainerHolds(w.containers[id], l)
    ensures Secure(w, l)
  {
    assert w.(record := Absent) == w;
  }

  lemma NameIsHeld(w: World, id: Id)
    requires Initial(w, id)
    ensures Proper(NameOnly(w.containers[id])) && ContainerHolds(w.containers[id], NameOnly(w.containers[id]))
  {
  }

  lemma AnyIsCompatible(es: seq<Event>, c: Container)
    ensures AllCompatible(es, NameOnly(c))
  {
  }

  /** An engine exists, or a valid record on disk says how to make it. */
  ghost predicate Survives(w: World) {
    (exists k :: IsEngine(w, k)) || (w.record.Saved? && Valid(w.record.pending))
  }

  lemma InvSurvives(w: World, l: Lineage)
    requires Inv(w, l)
    ensures Survives(w)
  {
  }

  lemma LogIsDurable(w: World, id: Id, es: seq<Event>)
    requires Initial(w, id) && NeverExposed(w, es)
    ensures DurableLog(RunAll(w, es))
  {
    hide Inv, Proper, ContainerHolds;
    var l := NameOnly(w.containers[id]);
    NameIsHeld(w, id);
    InitialSecure(w, id, l);
    AnyIsCompatible(es, w.containers[id]);
    RunIsSecure(w, es, l);
  }

  lemma OwnLineage(c: Container, l: Lineage)
    requires l.name == c.name && l.mounts == multiset(Only(false, Defs(c.mounts)))
    requires (l.image.Some? ==> l.image.value == c.image) && (l.base.Some? ==> l.base.value == BaseOf(c) != [])
    ensures Proper(l) && ContainerHolds(c, l)
  {
    var ds := Defs(c.mounts);
    forall d ensures l.mounts[d] <= multiset(ds)[d] && (d in l.mounts ==> !IsManaged(d.target)) {
      OnlyMembers(false, ds, d);
    }
  }

  // ---- A save that is answered after the rename ----

  /** The supervisor finds the record, stops and removes the engine, and dies. */
  const STOPS_AND_DIES := [CALM, CALM, CALM, CALM, Reply([], Crashed, CALM.made)]
  const NO_SETTINGS := Config("", None, [], {}, map[])

  function FatalRun(): seq<Event> {
    [Reconciles(Pass(NO_SETTINGS, NO_EXTRAS, true, STOPS_AND_DIES)), PowerLoss(Absent)]
  }

  /** Every pass that leaves an exposed world began in one: no save is late. */
  predicate NoLateSave(w: World, es: seq<Event>)
    decreases |es|
  {
    es == [] || ((es[0].Reconciles? && Exposed(Step(w, es[0])) ==> Exposed(w)) && NoLateSave(Step(w, es[0]), es[1..]))
  }

  lemma CalmArrive(w: World, rs: seq<Reply>)
    requires rs != [] && rs[0].before == []
    ensures Arrive(w, rs) == w
  {
  }

  /** The engine is stopped and removed, and the record is still only visible. */
  lemma StopsAndDies(w: World, p: Pending, rs: seq<Reply>, l: Lineage)
    requires Pends(w, p, l) && IsEngine(w, p.oldId)
    requires rs == STOPS_AND_DIES[1..]
    ensures var o := Resume(w, p, rs);
            && o.result.None? && o.world.record == w.record && o.world.kept == w.kept
            && forall k :: !IsEngine(o.world, k)
  {
    hide CreateNew, RemoveOld, ByName;
    CalmArrive(w, rs);
    assert w.containers[p.oldId].name == p.spec.name;
    NamedIs(w, p.spec.name, p.oldId);
    assert Resume(w, p, rs) == StopOld(w, p, rs[1..]);
    CalmArrive(w, rs[1..]);
    var v := AfterStop(w, p.oldId, Served).0;
    assert v.containers.Keys == w.containers.Keys && !v.containers[p.oldId].running;
    assert StopOld(w, p, rs[1..]) == RemoveOld(v, p, rs[1..][1..]);
    assert rs[1..][1..] == rs[2..] && rs[2..][1..] == rs[3..];
    RemovesAndDies(v, p, rs[2..]);
    forall k ensures !IsEngine(AfterRemove(v, p.oldId, Served).0, k) {
      assert IsEngine(w, k) ==> k == p.oldId;
    }
  }

  lemma RemovesAndDies(v: World, p: Pending, rs: seq<Reply>)
    requires p.oldId in v.containers && !v.containers[p.oldId].running && rs == STOPS_AND_DIES[3..]
    ensures RemoveOld(v, p, rs) == Outcome(AfterRemove(v, p.oldId, Served).0, [], None)
  {
    CalmArrive(v, rs);
    var u := AfterRemove(v, p.oldId, Served).0;
    assert rs[1..] == [Reply([], Crashed, CALM.made)] && rs[1..][1..] == [];
    CalmArrive(u, rs[1..]);
    assert CreateNew(u, p, rs[1..]) == Outcome(u, [], None);
  }

  /** From an exposed world with the engine still there, one pass and a power loss end without
      an engine and without a record. */
  lemma FatalRunIsFatal(w: World, l: Lineage)
    requires Inv(w, l) && w.record.Saved? && Absent in w.kept && IsEngine(w, w.record.pending.oldId)
    ensures !Survives(RunAll(w, FatalRun())) && NoLateSave(w, FatalRun()) && AllCompatible(FatalRun(), l)
  {
    hide Resume, Inv, STOPS_AND_DIES;
    var p, ps := w.record.pending, Pass(NO_SETTINGS, NO_EXTRAS, true, STOPS_AND_DIES);
    FirstReply();
    CalmArrive(w, STOPS_AND_DIES);
    StopsAndDies(w, p, STOPS_AND_DIES[1..], l);
    RecordIsValid(w, l);
    var v := Resume(w, p, STOPS_AND_DIES[1..]).world;
    assert Recovery(w, ps).world == v && Reconcile(w, ps).world == v;
    var es := FatalRun();
    assert es[1..] == [PowerLoss(Absent)] && es[1..][1..] == [];
    assert Step(w, es[0]) == v && RunAll(w, es) == RunAll(v, es[1..]) == AfterLoss(v, Absent);
    assert Exposed(w);
    assert !Exposed(AfterLoss(v, Absent));
    forall k ensures !IsEngine(AfterLoss(v, Absent), k) { assert !IsEngine(v, k); }
  }

  lemma FirstReply()
    ensures STOPS_AND_DIES[0] == CALM && STOPS_AND_DIES != [] && Head(STOPS_AND_DIES) == CALM
    ensures Tail(STOPS_AND_DIES) == STOPS_AND_DIES[1..]
  {
  }

  lemma RecordIsValid(w: World, l: Lineage)
    requires Inv(w, l) && w.record.Saved?
    ensures Valid(w.record.pending)
  {
  }

  lemma {:induction false} NotLateNeverExposed(w: World, es: seq<Event>, l: Lineage)
    requires Secure(w, l) && AllCompatible(es, l) && NoLateSave(w, es)
    ensures NeverExposed(w, es)
    decreases |es|
  {
    hide Inv, Step, AllCompatible, Compatible;
    if es != [] {
      CompatibleLater(es, l);
      if !es[0].Reconciles? { OnlySavesExpose(w, es[0], l); }
      StepSecure(w, es[0], l);
      NotLateNeverExposed(Step(w, es[0]), es[1..], l);
    }
  }

  lemma OnlySavesExpose(w: World, e: Event, l: Lineage)
    requires Secure(w, l) && !e.Reconciles?
    ensures !Exposed(Step(w, e))
  {
    hide Inv;
    match e {
      case Outside(ch) => ApplySecure(w, ch, l);
      case PowerLoss(r) => LossSecure(w, r, l);
      case Reconciles(_) =>
    }
  }

  /** A save in a world that is ready for a power loss: every continuation in which no further
      save is late leaves an engine or the way to it, if and only if this one was not answered
      after the rename. */
  lemma SaveIsSafeExactly(w: World, p: Pending, f: Fault, l: Lineage)
    requires Secure(w, l) && w.record == Absent
    requires Valid(p) && IsEngine(w, p.oldId) && SpecHolds(p.spec, l)
    ensures var v := AfterSave(w, p, f).0;
            (forall es :: AllCompatible(es, l) && NoLateSave(v, es) ==> Survives(RunAll(v, es))) <==> !f.Lost?
  {
    hide Inv, Secure, Survives, AllCompatible, NoLateSave, SpecHolds, Exposed, RunAll;
    SaveSecure(w, p, f, l);
    var v := AfterSave(w, p, f).0;
    if f.Lost? {
      assert v.containers == w.containers && v.record == Saved(p);
      FatalRunIsFatal(v, l);
    } else {
      forall es | AllCompatible(es, l) && NoLateSave(v, es) ensures Survives(RunAll(v, es)) {
        NotLateNeverExposed(v, es, l);
        RunIsSecure(v, es, l);
        SecureNow(RunAll(v, es), l);
        InvSurvives(RunAll(v, es), l);
      }
    }
  }
}
