// Records that come back: what a power loss may bring back after a replacement is a record that was
// carried out, because clearing it was not synced (internal/pipeline/manage.go:166-168, 178-180).
module OldRecords {
  import opened Wrappers
  import opened Docker
  import opened EngineSpec
  import opened Replacement
  import opened Safety
  import opened Convergence
  import opened Runs

  /** The record p was carried out: its old container is gone for good. */
  ghost predicate Stale(w: World, p: Pending, l: Lineage) {
    Valid(p) && SpecHolds(p.spec, l) && p.oldId < w.nextId && p.oldId !in w.containers
  }

  /** Besides the record that is there, a power loss can bring back none or a stale one. */
  ghost predicate OthersStale(w: World, l: Lineage) {
    w.record in w.kept
    && forall r :: r in w.kept ==> r == w.record || r == Absent || (r.Saved? && Stale(w, r.pending, l))
  }

  /** A stale record is there; without it the world would be as the invariant says. */
  ghost predicate Idle(w: World, l: Lineage) {
    w.record.Saved? && Stale(w, w.record.pending, l) && Inv(w.(record := Absent), l)
  }

  ghost predicate Sound(w: World, l: Lineage) {
    OthersStale(w, l) && (Inv(w, l) || Idle(w, l))
  }

  // ---- Containers that are gone stay gone ----

  ghost predicate Grows(w: World, v: World) {
    v.nextId >= w.nextId && forall id :: id in v.containers && id < w.nextId ==> id in w.containers
  }

  lemma GrowsThen(w: World, v: World, u: World)
    requires Grows(w, v) && Grows(v, u)
    ensures Grows(w, u)
  {
  }

  lemma ApplyGrows(w: World, ch: Change)
    ensures Grows(w, Apply(w, ch))
  {
  }

  lemma {:induction false} ApplyAllGrows(w: World, chs: seq<Change>)
    ensures Grows(w, ApplyAll(w, chs))
    decreases |chs|
  {
    hide Apply;
    if chs != [] {
      ApplyGrows(w, chs[0]);
      ApplyAllGrows(Apply(w, chs[0]), chs[1..]);
      GrowsThen(w, Apply(w, chs[0]), ApplyAll(w, chs));
    }
  }

  lemma ClearGrows(w0: World, id: Id, rs: seq<Reply>)
    ensures Grows(w0, ClearRecord(w0, id, rs).world)
  {
    hide ApplyAll;
    ApplyAllGrows(w0, Head(rs).before);
  }

  lemma StartGrows(w0: World, p: Pending, id: Id, rs: seq<Reply>)
    ensures Grows(w0, StartNew(w0, p, id, rs).world)
  {
    hide ApplyAll, ClearRecord;
    ApplyAllGrows(w0, Head(rs).before);
    var v := AfterStart(Arrive(w0, rs), id, Head(rs).fault).0;
    GrowsThen(w0, Arrive(w0, rs), v);
    ClearGrows(v, id, Tail(rs));
    GrowsThen(w0, v, ClearRecord(v, id, Tail(rs)).world);
  }

  lemma CreateGrows(w0: World, p: Pending, rs: seq<Reply>)
    ensures Grows(w0, CreateNew(w0, p, rs).world)
  {
    hide ApplyAll, StartNew;
    ApplyAllGrows(w0, Head(rs).before);
    var (v, a, id) := AfterCreate(Arrive(w0, rs), p.spec, Head(rs));
    GrowsThen(w0, Arrive(w0, rs), v);
    StartGrows(v, p, id, Tail(rs));
    GrowsThen(w0, v, StartNew(v, p, id, Tail(rs)).world);
  }

  lemma RemoveGrows(w0: World, p: Pending, rs: seq<Reply>)
    ensures Grows(w0, RemoveOld(w0, p, rs).world)
  {
    hide ApplyAll, CreateNew;
    ApplyAllGrows(w0, Head(rs).before);
    var v := AfterRemove(Arrive(w0, rs), p.oldId, Head(rs).fault).0;
    GrowsThen(w0, Arrive(w0, rs), v);
    CreateGrows(v, p, Tail(rs));
    GrowsThen(w0, v, CreateNew(v, p, Tail(rs)).world);
  }

  lemma StopGrows(w0: World, p: Pending, rs: seq<Reply>)
    ensures Grows(w0, StopOld(w0, p, rs).world)
  {
    hide ApplyAll, RemoveOld;
    ApplyAllGrows(w0, Head(rs).before);
    var v := AfterStop(Arrive(w0, rs), p.oldId, Head(rs).fault).0;
    GrowsThen(w0, Arrive(w0, rs), v);
    RemoveGrows(v, p, Tail(rs));
    GrowsThen(w0, v, RemoveOld(v, p, Tail(rs)).world);
  }

  lemma ResumeGrows(w0: World, p: Pending, rs: seq<Reply>)
    ensures Grows(w0, Resume(w0, p, rs).world)
  {
    hide ApplyAll, StartNew, StopOld, CreateNew, ByName;
    ApplyAllGrows(w0, Head(rs).before);
    var w := Arrive(w0, rs);
    CreateGrows(w, p, Tail(rs));
    StopGrows(w, p, Tail(rs));
    StartGrows(w, p, ByName(w, p.spec.name), Tail(rs));
    GrowsThen(w0, w, Resume(w0, p, rs).world);
  }

  // ---- What steps keep ----

  lemma OthersStay(w: World, v: World, l: Lineage)
    requires OthersStale(w, l) && Grows(w, v) && v.record == w.record && v.kept == w.kept
    ensures OthersStale(v, l)
  {
  }

  /** Others can do no more because of a stale record. */
  lemma IdleApply(w: World, ch: Change, l: Lineage)
    requires Idle(w, l)
    ensures var v := Apply(w, ch);
            && Idle(v, l) && v.record == w.record && v.kept == w.kept && v.log == w.log
            && forall e :: IsEngine(w, e) ==> IsEngine(v, e) && v.containers[e].labels == w.containers[e].labels
  {
    hide Inv;
    var u := w.(record := Absent);
    ApplyKeeps(u, ch, l);
    ApplyGrows(w, ch);
    SameAllowed(w, ch, l);
    EnginesStay(w, ch, l);
    assert Apply(w, ch).(record := Absent) == Apply(u, ch);
  }

  lemma SameAllowed(w: World, ch: Change, l: Lineage)
    requires Idle(w, l)
    ensures Allowed(w, ch) <==> Allowed(w.(record := Absent), ch)
  {
    hide Inv;
  }

  lemma EnginesStay(w: World, ch: Change, l: Lineage)
    requires Idle(w, l)
    ensures var v := Apply(w, ch);
            forall e :: IsEngine(w, e) ==> IsEngine(v, e) && v.containers[e].labels == w.containers[e].labels
  {
    hide Inv, WellFormed, Apply, Allowed;
    FormedStill(w, l);
    forall e | IsEngine(w, e)
      ensures IsEngine(Apply(w, ch), e) && Apply(w, ch).containers[e].labels == w.containers[e].labels
    {
      StaysOnce(w, ch, e);
      LabelsStay(w, ch, e);
    }
  }

  lemma FormedStill(w: World, l: Lineage)
    requires Inv(w.(record := Absent), l)
    ensures WellFormed(w)
  {
  }

  lemma LabelsStay(w: World, ch: Change, e: Id)
    requires WellFormed(w) && e in w.containers && e in Apply(w, ch).containers
    ensures Apply(w, ch).containers[e].labels == w.containers[e].labels
  {
  }

  lemma {:induction false} IdleApplyAll(w: World, chs: seq<Change>, l: Lineage)
    requires Idle(w, l)
    ensures var v := ApplyAll(w, chs);
            && Idle(v, l) && v.record == w.record && v.kept == w.kept && v.log == w.log
            && forall e :: IsEngine(w, e) ==> IsEngine(v, e) && v.containers[e].labels == w.containers[e].labels
    decreases |chs|
  {
    hide Idle, Apply;
    if chs != [] {
      IdleApply(w, chs[0], l);
      IdleApplyAll(Apply(w, chs[0]), chs[1..], l);
    }
  }

  lemma IdleArrive(w: World, rs: seq<Reply>, l: Lineage)
    requires Idle(w, l)
    ensures var v := Arrive(w, rs);
            && Idle(v, l) && v.record == w.record && v.kept == w.kept && v.log == w.log && Grows(w, v)
            && forall e :: IsEngine(w, e) ==> IsEngine(v, e) && v.containers[e].labels == w.containers[e].labels
  {
    hide Idle, ApplyAll;
    IdleApplyAll(w, Head(rs).before, l);
    ApplyAllGrows(w, Head(rs).before);
  }

  /** The name of a stale record is held by the engine. */
  lemma IdleName(w: World, l: Lineage) returns (e: Id)
    requires Idle(w, l)
    ensures IsEngine(w, e) && e != 0 && e != w.record.pending.oldId && ByName(w, w.record.pending.spec.name) == e
  {
    var u := w.(record := Absent);
    e :| IsEngine(u, e);
    NamedIs(w, w.record.pending.spec.name, e);
  }

  lemma IdleStart(w: World, p: Pending, e: Id, f: Fault, l: Lineage)
    requires Idle(w, l) && w.record == Saved(p) && e != p.oldId
    ensures var v := AfterStart(w, e, f).0; Idle(v, l) && v.record == w.record && v.kept == w.kept && Grows(w, v)
  {
    hide Inv;
    var u, a := w.(record := Absent), Start(e, w.record, w.Durable());
    NotedKeeps(u, a, l);
    ApplyKeeps(Noted(u, a), Flip(e, true), l);
    var v := AfterStart(w, e, f).0;
    assert v.(record := Absent) == u || v.(record := Absent) == Noted(u, a)
           || v.(record := Absent) == Apply(Noted(u, a), Flip(e, true));
  }

  lemma IdleClear(w: World, f: Fault, l: Lineage)
    requires Idle(w, l) && OthersStale(w, l)
    ensures var (v, a) := AfterClear(w, f);
            && Sound(v, l) && (a.Ok? ==> v.record == Absent && Inv(v, l))
  {
    hide Inv;
    var v := AfterClear(w, f).0;
    if v != w {
      KeptIsFree(w.(record := Absent), v.kept, l);
      assert v == w.(record := Absent).(kept := v.kept);
    }
  }

  /** A pass that finds a stale record starts the engine and clears the record if the engine was
      made for it, and does nothing otherwise. */
  lemma IdleResume(w0: World, p: Pending, rs: seq<Reply>, l: Lineage)
    requires Idle(w0, l) && OthersStale(w0, l) && w0.record == Saved(p)
    ensures var o := Resume(w0, p, rs);
            && Sound(o.world, l) && (o.result.Some? ==> o.world.record == Absent && Inv(o.world, l))
  {
    hide Idle, Inv, OthersStale, ApplyAll, StartNew, StopOld, CreateNew, ByName;
    IdleArrive(w0, rs, l);
    var w := Arrive(w0, rs);
    OthersStay(w0, w, l);
    var e := IdleName(w, l);
    if Head(rs).fault == Served && IsOwn(w.containers[e], p) {
      IdleStartNew(w, p, e, Tail(rs), l);
    }
  }

  lemma IdleStartNew(w0: World, p: Pending, e: Id, rs: seq<Reply>, l: Lineage)
    requires Idle(w0, l) && OthersStale(w0, l) && w0.record == Saved(p) && e != p.oldId
    ensures var o := StartNew(w0, p, e, rs);
            && Sound(o.world, l) && (o.result.Some? ==> o.world.record == Absent && Inv(o.world, l))
  {
    hide Idle, Inv, OthersStale, ApplyAll, AfterStart, AfterClear, Sound, Grows;
    IdleArrive(w0, rs, l);
    var w := Arrive(w0, rs);
    OthersStay(w0, w, l);
    IdleStart(w, p, e, Head(rs).fault, l);
    var (v, a) := AfterStart(w, e, Head(rs).fault);
    OthersStay(w, v, l);
    IdleIsSound(v, l);
    if !a.Error? && !a.NotFound? {
      IdleArrive(v, Tail(rs), l);
      OthersStay(v, Arrive(v, Tail(rs)), l);
      IdleClear(Arrive(v, Tail(rs)), Head(Tail(rs)).fault, l);
    }
  }

  lemma IdleIsSound(w: World, l: Lineage)
    requires Idle(w, l) && OthersStale(w, l)
    ensures Sound(w, l)
  {
  }

  /** A record that was carried out is stale. */
  lemma CarriedOutIsStale(v: World, p: Pending, l: Lineage)
    requires Replaced(v, p) && Inv(v.(record := Saved(p)), l)
    ensures Stale(v, p, l)
  {
    var u := v.(record := Saved(p));
    var k :| IsEngine(v, k) && k != p.oldId && InPlace(k, v.containers[k], p);
    assert IsEngine(u, k);
    assert p.oldId in u.containers ==> IsEngine(u, p.oldId);
  }

  lemma ResumeSound(w0: World, p: Pending, rs: seq<Reply>, l: Lineage)
    requires Pends(w0, p, l) && OthersStale(w0, l)
    ensures var o := Resume(w0, p, rs);
            && Inv(o.world, l) && OthersStale(o.world, l) && (o.result.Some? ==> o.world.record == Absent)
  {
    hide Inv, Resume, Foreign, Polite, Replaced, Stale;
    ResumeKeeps(w0, p, rs, l);
    ResumeGrows(w0, p, rs);
    var v := Resume(w0, p, rs).world;
    if Resume(w0, p, rs).result.Some? { ReplacedIsClear(v, p); }
    if v.record == Saved(p) {
      OthersStay(w0, v, l);
    } else {
      ReplacedIsClear(v, p);
      CarriedOutIsStale(v, p, l);
      forall r | r in v.kept ensures r == Absent || (r.Saved? && Stale(v, r.pending, l)) {
        if r in w0.kept && r.Saved? && r != Saved(p) { StaleStays(w0, v, r.pending, l); }
      }
    }
  }

  lemma ReplacedIsClear(v: World, p: Pending)
    requires Replaced(v, p)
    ensures v.record == Absent
  {
  }

  lemma StaleStays(w: World, v: World, p: Pending, l: Lineage)
    requires Stale(w, p, l) && Grows(w, v)
    ensures Stale(v, p, l)
  {
  }

  lemma SaveStale(w: World, p: Pending, f: Fault, l: Lineage)
    requires OthersStale(w, l) && w.record == Absent
    ensures OthersStale(AfterSave(w, p, f).0, l)
  {
  }

  lemma ArriveStale(w: World, rs: seq<Reply>, l: Lineage)
    requires Inv(w, l) && OthersStale(w, l)
    ensures Inv(Arrive(w, rs), l) && OthersStale(Arrive(w, rs), l) && Arrive(w, rs).record == w.record
  {
    hide Inv, OthersStale, ApplyAll;
    ArriveKeeps(w, rs, l);
    ApplyAllGrows(w, Head(rs).before);
    OthersStay(w, Arrive(w, rs), l);
  }

  lemma ReplaceStale(w0: World, p: Pending, rs: seq<Reply>, l: Lineage)
    requires Inv(w0, l) && OthersStale(w0, l) && w0.record == Absent
    requires Valid(p) && IsEngine(w0, p.oldId) && SpecHolds(p.spec, l)
    ensures OthersStale(Replace(w0, p, rs).world, l)
  {
    hide Inv, OthersStale, Resume, SpecHolds;
    ArriveStale(w0, rs, l);
    EngineStays(w0, Head(rs).before, p.oldId, l);
    var w := Arrive(w0, rs);
    SaveKeeps(w, p, Head(rs).fault, l);
    SaveStale(w, p, Head(rs).fault, l);
    var (v, a) := AfterSave(w, p, Head(rs).fault);
    if !a.Error? { ResumeSound(v, p, Tail(rs), l); }
  }

  lemma SyncSound(w0: World, cfg: Config, extras: Extras, recovered: Id, rs: seq<Reply>, l: Lineage)
    requires Inv(w0, l) && OthersStale(w0, l) && w0.record == Absent && Compatible(cfg, l)
    ensures Sound(Sync(w0, cfg, extras, recovered, rs).world, l)
  {
    hide Inv, OthersStale, Idle, Replace, Compatible, SpecHolds;
    SyncKeeps(w0, cfg, extras, recovered, rs, l);
    var w1, rs1 := Arrive(w0, rs), Tail(rs);
    var id := Engine(w1);
    ArriveStale(w0, rs, l);
    SyncCases(w0, cfg, extras, recovered, rs);
    if !extras.Empty() && id != 0 {
      var w2, rs2 := Arrive(w1, rs1), Tail(rs1);
      ArriveStale(w1, rs1, l);
      EngineIsThe(w1, id, l);
      EngineStays(w1, Head(rs1).before, id, l);
      EngineHolds(w2, id, l);
      BuiltHolds(cfg, id, w2.containers[id], extras, l);
      var p := Pending(id, Built(cfg, id, w2.containers[id], extras));
      if Valid(p) { ReplaceStale(w2, p, rs2, l); }
    }
  }

  lemma EnsureSound(w0: World, cfg: Config, extras: Extras, rs: seq<Reply>, l: Lineage)
    requires Sound(w0, l) && Compatible(cfg, l)
    ensures Sound(Ensure(w0, cfg, extras, rs).world, l)
  {
    hide Inv, Idle, OthersStale, Sync, Resume, Compatible, Valid, ApplyAll;
    var w := Arrive(w0, rs);
    ArriveSound(w0, rs, l);
    if Head(rs).fault == Served {
      match w.record {
        case Corrupt =>
        case Absent =>
          NotIdle(w, l);
          SyncSound(w, cfg, extras, 0, Tail(rs), l);
        case Saved(p) =>
          if Inv(w, l) { ResumeSound(w, p, Tail(rs), l); } else { IdleResume(w, p, Tail(rs), l); }
          var o := Resume(w, p, Tail(rs));
          if o.result.Some? {
            NotIdle(o.world, l);
            SyncSound(o.world, cfg, extras, o.result.value, o.rest, l);
          }
      }
    }
  }

  lemma NotIdle(w: World, l: Lineage)
    requires w.record == Absent
    ensures !Idle(w, l)
  {
  }

  lemma ArriveSound(w: World, rs: seq<Reply>, l: Lineage)
    requires Sound(w, l)
    ensures Sound(Arrive(w, rs), l) && Arrive(w, rs).record == w.record
  {
    hide Inv, Idle, OthersStale, ApplyAll;
    if Inv(w, l) {
      ArriveStale(w, rs, l);
    } else {
      IdleArrive(w, rs, l);
      OthersStay(w, Arrive(w, rs), l);
    }
  }

  lemma LossSound(w: World, r: Record, l: Lineage)
    requires Sound(w, l) && !Exposed(w)
    ensures Sound(AfterLoss(w, r), l)
  {
    hide Inv;
    if r in w.kept {
      var v := AfterLoss(w, r);
      if r == w.record {
        assert v == w.(kept := {r}) && v.(record := Absent) == w.(record := Absent).(kept := {r});
        if Inv(w, l) { KeptIsFree(w, {r}, l); } else { KeptIsFree(w.(record := Absent), {r}, l); }
      } else {
        OnlyAbsent(w, l);
        KeptIsFree(w, {r}, l);
        assert v.(record := Absent) == w.(kept := {r});
      }
    }
  }

  lemma OnlyAbsent(w: World, l: Lineage)
    requires Sound(w, l) && !Exposed(w) && w.kept != {w.record}
    ensures w.record == Absent && Inv(w, l)
  {
    hide Inv;
    if Inv(w, l) { NotCorrupt(w, l); }
  }

  lemma StepSound(w: World, e: Event, l: Lineage)
    requires Sound(w, l) && (e.Reconciles? ==> Compatible(e.pass.cfg, l)) && (e.PowerLoss? ==> !Exposed(w))
    ensures Sound(Step(w, e), l)
  {
    hide Sound, Exposed, Compatible, Ensure, Apply, AfterLoss;
    match e {
      case Reconciles(ps) =>
        EnsureSound(w, ps.cfg, NO_EXTRAS, ps.replies, l);
        var o := Recovery(w, ps);
        EnsureSound(o.world, ps.cfg, ps.extras, o.rest, l);
      case Outside(ch) => ApplySound(w, ch, l);
      case PowerLoss(r) => LossSound(w, r, l);
    }
  }

  lemma ApplySound(w: World, ch: Change, l: Lineage)
    requires Sound(w, l)
    ensures Sound(Apply(w, ch), l)
  {
    hide Inv, Idle, OthersStale, Apply;
    ApplyGrows(w, ch);
    if Inv(w, l) { ApplyKeeps(w, ch, l); } else { IdleApply(w, ch, l); }
    OthersStay(w, Apply(w, ch), l);
  }

  // ---- Whole runs ----

  /** No power is lost in an exposed world. */
  predicate LossesAreSafe(w: World, es: seq<Event>)
    decreases |es|
  {
    es == [] || ((es[0].PowerLoss? ==> !Exposed(w)) && LossesAreSafe(Step(w, es[0]), es[1..]))
  }

  lemma {:induction false} RunSound(w: World, es: seq<Event>, l: Lineage)
    requires Sound(w, l) && AllCompatible(es, l) && LossesAreSafe(w, es)
    ensures Sound(RunAll(w, es), l)
    decreases |es|
  {
    hide Sound, Exposed, Step, AllCompatible, Compatible;
    if es != [] {
      CompatibleLater(es, l);
      StepSound(w, es[0], l);
      RunSound(Step(w, es[0]), es[1..], l);
    }
  }

  lemma SoundSurvives(w: World, l: Lineage)
    requires Sound(w, l)
    ensures Survives(w)
  {
    if Inv(w, l) {
      InvSurvives(w, l);
    } else {
      InvSurvives(w.(record := Absent), l);
      assert forall k :: IsEngine(w.(record := Absent), k) ==> IsEngine(w, k);
    }
  }

  lemma StartsSound(w: World, id: Id, l: Lineage)
    requires Initial(w, id) && Proper(l) && ContainerHolds(w.containers[id], l)
    ensures Sound(w, l)
  {
    hide Inv, Proper, ContainerHolds;
    InitialSecure(w, id, l);
    SecureNow(w, l);
  }

  lemma RunFromStart(w: World, id: Id, es: seq<Event>)
    requires Initial(w, id) && LossesAreSafe(w, es)
    ensures Sound(RunAll(w, es), NameOnly(w.containers[id]))
  {
    hide Sound, Proper, ContainerHolds;
    NameIsHeld(w, id);
    StartsSound(w, id, NameOnly(w.containers[id]));
    AnyIsCompatible(es, w.containers[id]);
    RunSound(w, es, NameOnly(w.containers[id]));
  }

  /** Recoverability: in every world that a run reaches, after crashes and power losses too, an
      engine exists or a valid record on disk says how to make it, unless the power is lost
      between a late save and the end of its replacement. */
  lemma Recoverable(w: World, id: Id, es: seq<Event>)
    requires Initial(w, id) && LossesAreSafe(w, es)
    ensures Survives(RunAll(w, es))
  {
    hide Sound;
    RunFromStart(w, id, es);
    SoundSurvives(RunAll(w, es), NameOnly(w.containers[id]));
  }

  /** What the log says does not depend on the record that came back. */
  lemma LogOfSound(w: World, l: Lineage)
    requires Sound(w, l)
    ensures forall k :: 0 <= k < |w.log| ==> Justified(w.log[k])
    ensures forall j, k :: 0 <= j < k < |w.log| ==> !SameOld(w.log[j], w.log[k])
  {
    hide WellFormed, AtMostOneEngine, Covered, HandedDown, Traced, Justified, SameOld, Stale;
    if !Inv(w, l) { assert LogSafe(w.(record := Absent)); }
  }

  /** In every such run nothing is stopped or removed but the container named by the valid
      record that is on disk at that moment; and unless a save was late, by a record that a
      power loss at that moment would leave there. */
  lemma NothingElseIsStopped(w: World, id: Id, es: seq<Event>, k: nat)
    requires Initial(w, id) && LossesAreSafe(w, es) && k < |RunAll(w, es).log|
    ensures var a := RunAll(w, es).log[k];
            && (a.Stop? || a.Remove? ==> a.record.Saved? && Valid(a.record.pending) && a.id == a.record.pending.oldId)
            && (NeverExposed(w, es) ==> a.durable)
  {
    hide Sound;
    RunFromStart(w, id, es);
    LogOfSound(RunAll(w, es), NameOnly(w.containers[id]));
    assert Justified(RunAll(w, es).log[k]);
    if NeverExposed(w, es) { LogIsDurable(w, id, es); }
  }

  /** In every such run at most one replacement is made of any container, over all retries. */
  lemma OneReplacementPerRecord(w: World, id: Id, es: seq<Event>, j: nat, k: nat)
    requires Initial(w, id) && LossesAreSafe(w, es) && j < |RunAll(w, es).log| && k < |RunAll(w, es).log|
    requires RunAll(w, es).log[j].Create? && RunAll(w, es).log[k].Create?
    ensures var a, b := RunAll(w, es).log[j], RunAll(w, es).log[k];
            a.record.Saved? && b.record.Saved? && (a.record.pending.oldId == b.record.pending.oldId ==> j == k)
  {
    hide Sound;
    RunFromStart(w, id, es);
    LogOfSound(RunAll(w, es), NameOnly(w.containers[id]));
    var log := RunAll(w, es).log;
    assert Justified(log[j]) && Justified(log[k]);
    assert j < k ==> !SameOld(log[j], log[k]);
    assert k < j ==> !SameOld(log[k], log[j]);
  }

  /** Conservation over whole runs: the engine's name and every mount of the original that is not
      managed, as often as it had it, are held by the engine of any reachable world and by the
      record, under any settings; and so are its image and its base command, never wrapped
      twice, under settings that do not set others. */
  lemma Conserved(w: World, id: Id, es: seq<Event>, l: Lineage)
    requires Initial(w, id) && LossesAreSafe(w, es)
    requires var c := w.containers[id];
             l.name == c.name && l.mounts == multiset(Only(false, Defs(c.mounts))) &&
             (l.image.Some? ==> l.image.value == c.image) && (l.base.Some? ==> l.base.value == BaseOf(c) != [])
    requires AllCompatible(es, l)
    ensures HandedDown(RunAll(w, es), l)
  {
    hide Sound, LossesAreSafe, AllCompatible, HandedDown;
    OwnLineage(w.containers[id], l);
    StartsSound(w, id, l);
    RunSound(w, es, l);
    SoundHandsDown(RunAll(w, es), l);
  }

  lemma SoundHandsDown(w: World, l: Lineage)
    requires Sound(w, l)
    ensures HandedDown(w, l)
  {
    hide WellFormed, AtMostOneEngine, Covered, LogSafe, SpecHolds, ContainerHolds;
    if !Inv(w, l) {
      var u := w.(record := Absent);
      forall id | IsEngine(w, id) ensures ContainerHolds(w.containers[id], l) { assert IsEngine(u, id); }
    }
  }

  /** Such runs include all timely ones. */
  lemma {:induction false} TimelyIsSafe(w: World, es: seq<Event>)
    requires Timely(w, es)
    ensures LossesAreSafe(w, es)
    decreases |es|
  {
    hide Exposed, Step;
    if es != [] {
      LossLater(es);
      TimelyIsSafe(Step(w, es[0]), es[1..]);
    }
  }

  // ---- When a record that comes back is in the way ----

  /** A stale record that comes back makes every pass fail before any request, exactly when the
      engine was not made for it. */
  lemma OldRecordBlocksExactly(w: World, p: Pending, e: Id, l: Lineage)
    requires Inv(w, l) && w.record == Absent && Saved(p) in w.kept && Stale(w, p, l) && IsEngine(w, e)
    ensures var v := AfterLoss(w, Saved(p));
            (forall ps :: Reconcile(v, ps).result.None? && Reconcile(v, ps).world.log == v.log) <==>
                !IsOwn(w.containers[e], p)
  {
    hide Inv, Reconcile, Stale;
    var v := AfterLoss(w, Saved(p));
    KeptIsFree(w, {Saved(p)}, l);
    LossIsIdle(w, p, l);
    if IsOwn(w.containers[e], p) {
      OwnIsCleared(v, p, e, l);
    } else {
      forall ps: Pass ensures Reconcile(v, ps).result.None? && Reconcile(v, ps).world.log == v.log {
        OthersAreBlocked(v, p, e, ps, l);
      }
    }
  }

  lemma LossIsIdle(w: World, p: Pending, l: Lineage)
    requires Inv(w.(kept := {Saved(p)}), l) && w.record == Absent && Saved(p) in w.kept && Stale(w, p, l)
    ensures Idle(AfterLoss(w, Saved(p)), l)
  {
    hide Inv;
    assert AfterLoss(w, Saved(p)).(record := Absent) == w.(kept := {Saved(p)});
  }

  lemma TheEngine(w: World, e: Id, k: Id, l: Lineage)
    requires Idle(w, l) && IsEngine(w, e) && IsEngine(w, k)
    ensures e == k
  {
    assert IsEngine(w.(record := Absent), e) && IsEngine(w.(record := Absent), k);
  }

  lemma OthersAreBlocked(v: World, p: Pending, e: Id, ps: Pass, l: Lineage)
    requires Idle(v, l) && v.record == Saved(p) && IsEngine(v, e) && !IsOwn(v.containers[e], p)
    ensures Reconcile(v, ps).result.None? && Reconcile(v, ps).world.log == v.log
  {
    hide Idle, ApplyAll, ByName, StartNew, StopOld, CreateNew, Sync;
    var rs := ps.replies;
    IdleArrive(v, rs, l);
    var w := Arrive(v, rs);
    IdleArrive(w, Tail(rs), l);
    var u := Arrive(w, Tail(rs));
    var k := IdleName(u, l);
    TheEngine(u, e, k, l);
  }

  lemma OwnIsCleared(v: World, p: Pending, e: Id, l: Lineage)
    requires Idle(v, l) && v.record == Saved(p) && IsEngine(v, e) && IsOwn(v.containers[e], p)
    ensures Reconcile(v, Pass(NO_SETTINGS, NO_EXTRAS, true, [])).result.Some?
  {
    hide Inv, ByName;
    var k := IdleName(v, l);
    TheEngine(v, e, k, l);
    var ps := Pass(NO_SETTINGS, NO_EXTRAS, true, []);
    assert Arrive(v, []) == v;
    assert Resume(v, p, []) == StartNew(v, p, e, []);
    var u := AfterStart(v, e, Served).0;
    assert Arrive(u, []) == u && u.record == Saved(p);
    assert Resume(v, p, []).result == Some(e) && Resume(v, p, []).world.record == Absent;
    var o := Recovery(v, ps);
    assert o.result == Some(e) && o.rest == [] && o.world.record == Absent;
    assert Arrive(o.world, []) == o.world;
  }

  /** Then it can come back: after a replacement the record of the one before may still come back
      if and only if the save in between was late; and the engine was not made for it. */
  lemma LateSaveOrphansExactly(w: World, p0: Pending, p: Pending, f: Fault, rs: seq<Reply>, l: Lineage)
    requires Inv(w, l) && OthersStale(w, l) && w.record == Absent && Saved(p0) in w.kept
    requires Valid(p) && IsEngine(w, p.oldId) && SpecHolds(p.spec, l) && (f.Served? || f.Lost?)
    requires Resume(AfterSave(w, p, f).0, p, rs).result.Some?
    ensures var v := Resume(AfterSave(w, p, f).0, p, rs).world;
            && (Saved(p0) in v.kept <==> f.Lost?)
            && (forall e :: IsEngine(v, e) ==> !IsOwn(v.containers[e], p0))
            && (f.Lost? ==> Inv(v, l) && v.record == Absent && Stale(v, p0, l))
  {
    hide Inv, Resume, Foreign, Polite, SpecHolds;
    var u := AfterSave(w, p, f).0;
    SaveKeeps(w, p, f, l);
    SaveStale(w, p, f, l);
    ResumeKeeps(u, p, rs, l);
    ResumeSound(u, p, rs, l);
    var v := Resume(u, p, rs).world;
    assert Stale(w, p0, l) && p0.oldId != p.oldId;
    EngineIsOwn(v, p, l);
  }

  lemma EngineIsOwn(v: World, p: Pending, l: Lineage)
    requires Inv(v, l) && Replaced(v, p)
    ensures forall e :: IsEngine(v, e) ==> IsOwn(v.containers[e], p)
  {
    var k :| IsEngine(v, k) && k != p.oldId && InPlace(k, v.containers[k], p);
  }
}
