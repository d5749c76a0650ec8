// What every step of the replacement protocol keeps, whatever others do in between and
// whichever calls fail, lose their answer or are cut off by a crash.
module Safety {
  import opened Wrappers
  import opened Docker
  import opened EngineSpec
  import opened Replacement

  // ---- What is handed down from one engine to the next ----

  /** The name and some mounts of an engine; its image and its base command if tracked. */
  datatype Lineage = Lineage(name: string, mounts: multiset<MountDef>, image: Option<string>, base: Option<seq<string>>)

  ghost predicate Proper(l: Lineage) {
    && (forall d :: d in l.mounts ==> !IsManaged(d.target))
    && l.base != Some([])
  }

  ghost predicate SpecHolds(s: Spec, l: Lineage) {
    && s.name == l.name && l.mounts <= multiset(s.mounts)
    && (l.image.Some? ==> s.image == l.image.value)
    && (l.base.Some? ==> s.labels.baseCommand == l.base.value)
  }

  /** The base command a container runs, wrapped or not. */
  function BaseOf(c: Container): seq<string> {
    if c.labels.baseCommand != [] then c.labels.baseCommand else c.command
  }

  ghost predicate ContainerHolds(c: Container, l: Lineage) {
    && c.name == l.name && l.mounts <= multiset(Defs(c.mounts))
    && (l.image.Some? ==> c.image == l.image.value)
    && (l.base.Some? ==> BaseOf(c) == l.base.value)
  }

  /** The supervisor's settings do not override what is tracked. */
  predicate Compatible(cfg: Config, l: Lineage) {
    && (l.image.Some? ==> cfg.image == "" || cfg.image == l.image.value)
    && (l.base.Some? ==> cfg.command.None? || cfg.command == l.base)
  }

  lemma BuiltHolds(cfg: Config, id: Id, c: Container, extras: Extras, l: Lineage)
    requires Proper(l) && ContainerHolds(c, l) && Compatible(cfg, l)
    ensures SpecHolds(Built(cfg, id, c, extras), l)
  {
    var kept, ds := Only(false, Defs(c.mounts)), Merged(c.mounts, extras.mounts);
    assert multiset(ds) == multiset(kept) + multiset(extras.mounts);
    forall d ensures l.mounts[d] <= multiset(ds)[d] {
      OnlyMembers(false, Defs(c.mounts), d);
      if l.mounts[d] > 0 { assert d in l.mounts; }
    }
  }

  lemma EchoHolds(c: Container, s: Spec, l: Lineage)
    requires Proper(l) && SpecHolds(s, l) && Echoes(c, s)
    ensures ContainerHolds(c, l)
  {
  }

  // ---- The invariant ----

  /** IDs were given by the daemon, and names are unique. */
  ghost predicate WellFormed(w: World) {
    && w.nextId > 0
    && (forall id :: id in w.containers ==> 0 < id < w.nextId)
    && (forall i, j :: i in w.containers && j in w.containers && w.containers[i].name == w.containers[j].name ==>
          i == j)
  }

  ghost predicate AtMostOneEngine(w: World) {
    forall i, j :: IsEngine(w, i) && IsEngine(w, j) ==> i == j
  }

  /** The engine that stands for the record p: the old one, or the replacement made from p. */
  ghost predicate InPlace(id: Id, c: Container, p: Pending) {
    c.name == p.spec.name && (id == p.oldId || (IsOwn(c, p) && Echoes(c, p.spec)))
  }

  /** Without a record there is an engine. With one, the engine is the old container, its
      replacement, or missing for now; and the record says how to make it. */
  ghost predicate Covered(w: World) {
    match w.record
    case Corrupt => false
    case Absent => exists id :: IsEngine(w, id)
    case Saved(p) =>
      && Valid(p) && p.oldId < w.nextId
      && (forall id :: IsEngine(w, id) ==> InPlace(id, w.containers[id], p))
      && (p.oldId in w.containers ==> IsEngine(w, p.oldId))
  }

  /** What is handed down is held by the engine and by the record. */
  ghost predicate HandedDown(w: World, l: Lineage) {
    && (forall id :: IsEngine(w, id) ==> ContainerHolds(w.containers[id], l))
    && (w.record.Saved? ==> SpecHolds(w.record.pending.spec, l))
  }

  /** A request was made with a valid record on disk, and names what the record lets it name. */
  ghost predicate Justified(a: Action) {
    && a.record.Saved? && Valid(a.record.pending)
    && (a.Stop? || a.Remove? ==> a.id == a.record.pending.oldId)
    && (a.Create? || a.Start? ==> a.id != a.record.pending.oldId)
  }

  /** What a past creation still means: the container it replaced is gone for good, and
      while its record is on disk the container it made is there. */
  ghost predicate Traced(w: World, a: Action) {
    a.Create? && a.record.Saved? ==>
      var p := a.record.pending;
      && p.oldId < w.nextId && p.oldId !in w.containers
      && (w.record.Saved? && w.record.pending.oldId == p.oldId ==> IsEngine(w, a.id))
  }

  ghost predicate SameOld(a: Action, b: Action) {
    a.Create? && b.Create? && a.record.Saved? && b.record.Saved? && a.record.pending.oldId == b.record.pending.oldId
  }

  ghost predicate LogSafe(w: World) {
    && (forall k :: 0 <= k < |w.log| ==> Justified(w.log[k]) && Traced(w, w.log[k]))
    && (forall j, k :: 0 <= j < k < |w.log| ==> !SameOld(w.log[j], w.log[k]))
  }

  ghost predicate Inv(w: World, l: Lineage) {
    Proper(l) && WellFormed(w) && AtMostOneEngine(w) && Covered(w) && HandedDown(w, l) && LogSafe(w)
  }

  /** The supervisor starts beside one engine, without a record. */
  ghost predicate Initial(w: World, id: Id) {
    && WellFormed(w) && AtMostOneEngine(w) && w.record == Absent && w.kept == {Absent} && w.log == []
    && IsEngine(w, id)
  }

  // ---- Others ----

  /** The invariant survives when containers come, go, start or stop, if the same engine
      stays, or goes while it is being replaced, and removed ones stay away. */
  lemma ContainersChange(w: World, v: World, l: Lineage)
    requires Inv(w, l) && WellFormed(v)
    requires v.record == w.record && v.log == w.log && v.nextId >= w.nextId
    requires SameEngine(w, v) && OnlyOldGoes(w, v) && NoneReturns(w, v)
    ensures Inv(v, l)
  {
    hide Covered, HandedDown, LogSafe, OnlyOldGoes, NoneReturns;
    ChangeIsCovered(w, v);
    ChangeHandsDown(w, v, l);
    ChangeIsSafe(w, v);
  }

  ghost predicate SameEngine(w: World, v: World) {
    forall id :: IsEngine(v, id) ==>
      IsEngine(w, id) && v.containers[id].(running := w.containers[id].running) == w.containers[id]
  }

  ghost predicate OnlyOldGoes(w: World, v: World) {
    forall id :: IsEngine(w, id) ==> IsEngine(v, id) || (w.record.Saved? && w.record.pending.oldId == id)
  }

  /** What has an ID that was given before was there before. */
  ghost predicate NoneReturns(w: World, v: World) {
    forall id :: id in v.containers && id < w.nextId ==>
      id in w.containers && (IsEngine(w, id) ==> IsEngine(v, id))
  }

  lemma ChangeIsCovered(w: World, v: World)
    requires Covered(w) && v.record == w.record && v.nextId >= w.nextId && SameEngine(w, v)
    requires OnlyOldGoes(w, v) && NoneReturns(w, v)
    ensures Covered(v)
  {
    if v.record.Absent? {
      var id :| IsEngine(w, id);
      assert IsEngine(v, id);
    }
  }

  lemma ChangeHandsDown(w: World, v: World, l: Lineage)
    requires HandedDown(w, l) && v.record == w.record && SameEngine(w, v)
    ensures HandedDown(v, l)
  {
  }

  lemma ChangeIsSafe(w: World, v: World)
    requires LogSafe(w) && v.record == w.record && v.log == w.log && v.nextId >= w.nextId
    requires OnlyOldGoes(w, v) && NoneReturns(w, v) && WellFormed(w)
    ensures LogSafe(v)
  {
    forall k | 0 <= k < |v.log| ensures Traced(v, v.log[k]) {
      assert Traced(w, v.log[k]);
    }
  }

  lemma ApplyKeeps(w: World, ch: Change, l: Lineage)
    requires Inv(w, l)
    ensures Inv(Apply(w, ch), l)
    ensures Apply(w, ch).record == w.record && Apply(w, ch).kept == w.kept && Apply(w, ch).log == w.log
  {
    hide WellFormed, AtMostOneEngine, Covered, HandedDown, LogSafe, SameEngine, OnlyOldGoes, NoneReturns;
    if Allowed(w, ch) {
      StaysWellFormed(w, ch);
      AllowedChange(w, ch);
      ContainersChange(w, Apply(w, ch), l);
    }
  }

  lemma StaysWellFormed(w: World, ch: Change)
    requires WellFormed(w)
    ensures WellFormed(Apply(w, ch))
  {
  }

  lemma AllowedChange(w: World, ch: Change)
    requires WellFormed(w) && Allowed(w, ch)
    ensures var v := Apply(w, ch); SameEngine(w, v) && OnlyOldGoes(w, v) && NoneReturns(w, v) && v.nextId >= w.nextId
  {
    assert w.nextId !in w.containers;
  }

  /** The labels mark the container as an engine and as the replacement of container id. */
  predicate MarkedFor(c: Container, id: Id) {
    c.labels.component && c.labels.successorOf == id
  }

  /** The name that p needs is held by a container that p does not know. */
  ghost predicate Foreign(w: World, p: Pending) {
    exists id :: id in w.containers && w.containers[id].name == p.spec.name && id != p.oldId
        && !MarkedFor(w.containers[id], p.oldId)
  }

  /** Nobody takes the name while the replies last. */
  predicate Polite(rs: seq<Reply>, p: Pending) {
    forall i, j :: 0 <= i < |rs| && 0 <= j < |rs[i].before| && rs[i].before[j].Appear? ==>
        rs[i].before[j].c.name != p.spec.name
  }

  lemma {:induction false} ApplyAllKeeps(w: World, chs: seq<Change>, l: Lineage)
    requires Inv(w, l)
    ensures Inv(ApplyAll(w, chs), l)
    ensures ApplyAll(w, chs).record == w.record && ApplyAll(w, chs).kept == w.kept && ApplyAll(w, chs).log == w.log
    ensures w.record.Saved? ==>
              var p := w.record.pending;
              (forall k :: 0 <= k < |chs| && chs[k].Appear? ==> chs[k].c.name != p.spec.name) && !Foreign(w, p) ==>
                !Foreign(ApplyAll(w, chs), p)
    decreases |chs|
  {
    if chs != [] {
      ApplyKeeps(w, chs[0], l);
      ApplyAllKeeps(Apply(w, chs[0]), chs[1..], l);
    }
  }

  lemma ArriveKeeps(w: World, rs: seq<Reply>, l: Lineage)
    requires Inv(w, l)
    ensures Inv(Arrive(w, rs), l)
    ensures Arrive(w, rs).record == w.record && Arrive(w, rs).kept == w.kept && Arrive(w, rs).log == w.log
    ensures w.record.Saved? ==>
              var p := w.record.pending;
              Polite(rs, p) && !Foreign(w, p) ==> !Foreign(Arrive(w, rs), p)
  {
    ApplyAllKeeps(w, Head(rs).before, l);
  }

  lemma StaysOnce(w: World, ch: Change, id: Id)
    requires WellFormed(w) && IsEngine(w, id) && (w.record.Saved? ==> id != w.record.pending.oldId)
    ensures IsEngine(Apply(w, ch), id)
  {
  }

  /** Only the container being replaced may be taken away by others. */
  lemma {:induction false} EngineStays(w: World, chs: seq<Change>, id: Id, l: Lineage)
    requires Inv(w, l) && IsEngine(w, id)
    requires w.record.Saved? ==> id != w.record.pending.oldId
    ensures IsEngine(ApplyAll(w, chs), id)
    decreases |chs|
  {
    hide AtMostOneEngine, Covered, HandedDown, LogSafe;
    if chs != [] {
      ApplyKeeps(w, chs[0], l);
      StaysOnce(w, chs[0], id);
      EngineStays(Apply(w, chs[0]), chs[1..], id, l);
    }
  }

  // ---- Calls ----

  /** Every request was made with a record that a power loss would have left. */
  ghost predicate DurableLog(w: World) {
    forall k :: 0 <= k < |w.log| ==> w.log[k].durable
  }

  /** Carrying out p changes on disk at most that p is cleared, which a power loss may undo,
      and works on a durable record if it was given one. */
  ghost predicate OnDisk(w: World, p: Pending, v: World, l: Lineage) {
    && (v.record == Saved(p) ==> v.kept == w.kept)
    && (v.record == Absent ==> v.kept == w.kept + {Absent} && Inv(v.(record := Saved(p)), l))
    && (w.record == Saved(p) && w.Durable() && DurableLog(w) ==> DurableLog(v))
  }

  /** A step that only makes a request. */
  ghost predicate Requests(w: World, v: World) {
    v.record == w.record && v.kept == w.kept && (w.Durable() && DurableLog(w) ==> DurableLog(v))
  }

  lemma NotedKeeps(w: World, a: Action, l: Lineage)
    requires Inv(w, l) && Justified(a) && !a.Create?
    ensures Inv(Noted(w, a), l)
  {
    var v := Noted(w, a);
    assert forall id :: IsEngine(v, id) <==> IsEngine(w, id);
    forall k | 0 <= k < |v.log| ensures Justified(v.log[k]) && Traced(v, v.log[k]) {
      if k < |w.log| {
        assert Traced(w, w.log[k]);
      }
    }
  }

  /** A world in the middle of carrying out the record p. */
  ghost predicate Pends(w: World, p: Pending, l: Lineage) {
    Inv(w, l) && w.record == Saved(p)
  }

  /** A request, and what the daemon does for it to a container that is there. */
  lemma RequestKeeps(w: World, p: Pending, a: Action, ch: Change, l: Lineage)
    requires Pends(w, p, l) && Justified(a) && a.durable == w.Durable() && !a.Create? && !ch.Appear?
    ensures Steps(w, Noted(w, a), p, l)
    ensures Steps(w, Apply(Noted(w, a), ch), p, l)
  {
    hide Inv, Foreign, Justified;
    NotedKeeps(w, a, l);
    ApplyKeeps(Noted(w, a), ch, l);
    StaysForeign(w, a, ch, p);
  }

  lemma StaysForeign(w: World, a: Action, ch: Change, p: Pending)
    requires !ch.Appear?
    ensures Foreign(Noted(w, a), p) ==> Foreign(w, p)
    ensures Foreign(Apply(Noted(w, a), ch), p) ==> Foreign(w, p)
  {
    var n := Noted(w, a);
    var v := Apply(n, ch);
    if Foreign(v, p) {
      var id :| id in v.containers && v.containers[id].name == p.spec.name && id != p.oldId
                && !MarkedFor(v.containers[id], p.oldId);
      assert id in w.containers && w.containers[id].name == p.spec.name && !MarkedFor(w.containers[id], p.oldId);
    }
  }

  /** A step of carrying out p that leaves its record and lets nobody new in. */
  ghost predicate Steps(w: World, v: World, p: Pending, l: Lineage) {
    Pends(v, p, l) && Requests(w, v) && (!Foreign(w, p) ==> !Foreign(v, p))
  }

  lemma StopKeeps(w: World, p: Pending, f: Fault, l: Lineage)
    requires Pends(w, p, l)
    ensures Steps(w, AfterStop(w, p.oldId, f).0, p, l)
  {
    hide Inv, Foreign, Requests;
    RecordIsValid(w, p, l);
    RequestKeeps(w, p, Stop(p.oldId, w.record, w.Durable()), Flip(p.oldId, false), l);
    NoRequest(w);
  }

  lemma RemoveKeeps(w: World, p: Pending, f: Fault, l: Lineage)
    requires Pends(w, p, l)
    ensures Steps(w, AfterRemove(w, p.oldId, f).0, p, l)
  {
    hide Inv, Foreign, Requests;
    RecordIsValid(w, p, l);
    RequestKeeps(w, p, Remove(p.oldId, w.record, w.Durable()), Vanish(p.oldId), l);
    NoRequest(w);
  }

  lemma StartKeeps(w: World, p: Pending, id: Id, f: Fault, l: Lineage)
    requires Pends(w, p, l) && id != p.oldId
    ensures Steps(w, AfterStart(w, id, f).0, p, l)
  {
    hide Inv, Foreign, Requests;
    RecordIsValid(w, p, l);
    RequestKeeps(w, p, Start(id, w.record, w.Durable()), Flip(id, true), l);
    NoRequest(w);
  }

  lemma NoRequest(w: World)
    ensures Requests(w, w)
  {
  }

  lemma NobodyHasTheName(w: World, p: Pending)
    requires Covered(w) && w.record == Saved(p) && NameFree(w, p.spec.name)
    ensures (forall k :: !IsEngine(w, k)) && p.oldId !in w.containers && p.oldId < w.nextId && Valid(p)
  {
  }

  lemma RecordIsValid(w: World, p: Pending, l: Lineage)
    requires Pends(w, p, l)
    ensures Valid(p)
  {
  }

  lemma CreatedIsTheEngine(w: World, s: Spec, r: Reply)
    requires WellFormed(w) && (forall k :: !IsEngine(w, k)) && s.labels.component
    requires AfterCreate(w, s, r).0 != w
    ensures var (v, _, id) := AfterCreate(w, s, r);
            && AtMostOneEngine(v) && id == w.nextId && Echoes(v.containers[id], s)
            && (forall k :: IsEngine(v, k) <==> k == id)
  {
    hide WellFormed;
    var (v, _, id) := AfterCreate(w, s, r);
    forall k ensures IsEngine(v, k) <==> k == id {
      assert !IsEngine(w, k);
    }
  }

  lemma CreatedIsWellFormed(w: World, s: Spec, r: Reply)
    requires WellFormed(w)
    ensures WellFormed(AfterCreate(w, s, r).0)
  {
    assert Made(s, r.made).name == s.name;
  }

  /** While the name of the record is free, neither the old engine nor a replacement is
      there, so a new container is the first one made for this record. */
  lemma CreateKeeps(w: World, p: Pending, r: Reply, l: Lineage)
    requires Pends(w, p, l)
    ensures var (v, a, id) := AfterCreate(w, p.spec, r);
            Steps(w, v, p, l) && id != p.oldId && (!a.Error? ==> IsEngine(v, id))
  {
    hide AtMostOneEngine, WellFormed, LogSafe, Justified, SpecHolds, ContainerHolds;
    var (v, a, id) := AfterCreate(w, p.spec, r);
    if v != w {
      NobodyHasTheName(w, p);
      CreatedIsTheEngine(w, p.spec, r);
      CreatedIsWellFormed(w, p.spec, r);
      EchoHolds(v.containers[id], p.spec, l);
      CreateIsSafe(w, v, p, id);
    }
  }

  lemma CreateIsSafe(w: World, v: World, p: Pending, id: Id)
    requires LogSafe(w) && w.record == Saved(p) && Valid(p) && p.oldId < w.nextId && p.oldId !in w.containers
    requires (forall k :: !IsEngine(w, k)) && id == w.nextId && id != p.oldId && IsEngine(v, id)
    requires v.record == w.record && v.log == w.log + [Create(id, w.record, w.Durable())]
    requires v.nextId == id + 1 && v.containers.Keys == w.containers.Keys + {id}
    ensures LogSafe(v)
  {
    forall k | 0 <= k < |w.log|
      ensures Justified(v.log[k]) && Traced(v, v.log[k]) && !SameOld(v.log[k], v.log[|w.log|])
    {
      assert v.log[k] == w.log[k] && Traced(w, w.log[k]);
    }
  }

  /** The record p has been carried out: it is gone and its replacement is the engine. */
  ghost predicate Replaced(w: World, p: Pending) {
    w.record == Absent && exists id :: IsEngine(w, id) && id != p.oldId && InPlace(id, w.containers[id], p)
  }

  /** The invariant says nothing of what a power loss would leave. */
  lemma KeptIsFree(w: World, kept: set<Record>, l: Lineage)
    requires Inv(w, l)
    ensures Inv(w.(kept := kept), l)
  {
    hide AtMostOneEngine, Justified, SameOld, ContainerHolds, SpecHolds;
    var v := w.(kept := kept);
    assert forall id :: IsEngine(w, id) <==> IsEngine(v, id);
    assert AtMostOneEngine(v) by { SameEngines(w, v); }
    forall k | 0 <= k < |v.log| ensures Justified(v.log[k]) && Traced(v, v.log[k]) {
      assert Traced(w, w.log[k]);
    }
  }

  lemma SameEngines(w: World, v: World)
    requires AtMostOneEngine(w) && v.containers == w.containers
    ensures AtMostOneEngine(v)
  {
    assert forall id :: IsEngine(w, id) <==> IsEngine(v, id);
  }

  lemma ClearKeeps(w: World, p: Pending, id: Id, f: Fault, l: Lineage)
    requires Pends(w, p, l) && IsEngine(w, id) && id != p.oldId
    ensures var (v, a) := AfterClear(w, f);
            && Inv(v, l) && (v == w || Replaced(v, p)) && (a.Ok? ==> Replaced(v, p))
            && (v != w ==> v.kept == w.kept + {Absent} && v.log == w.log && Inv(v.(record := Saved(p)), l))
  {
    var v := AfterClear(w, f).0;
    if v != w { KeptIsFree(w, v.kept, l); }
    assert forall k :: IsEngine(w, k) <==> IsEngine(v, k);
    assert InPlace(id, v.containers[id], p);
    forall k | 0 <= k < |v.log| ensures Traced(v, v.log[k]) {
      assert Traced(w, w.log[k]);
    }
  }

  lemma SaveKeeps(w: World, p: Pending, f: Fault, l: Lineage)
    requires Inv(w, l) && w.record == Absent
    requires Valid(p) && IsEngine(w, p.oldId) && SpecHolds(p.spec, l)
    ensures Inv(AfterSave(w, p, f).0, l)
  {
    var v := AfterSave(w, p, f).0;
    assert forall id :: IsEngine(v, id) <==> IsEngine(w, id);
    forall k | 0 <= k < |v.log| ensures Traced(v, v.log[k]) {
      assert Traced(w, w.log[k]);
    }
  }

  // ---- The stages of a pass ----

  /** What a stage of carrying out p leaves: the record with nobody new in the way, or
      the replacement in place; and success means the replacement, whose ID is the result. */
  ghost predicate Leaves(w0: World, p: Pending, rs: seq<Reply>, o: Outcome, l: Lineage) {
    && Inv(o.world, l) && OnDisk(w0, p, o.world, l)
    && ((o.world.record == Saved(p) && (Polite(rs, p) && !Foreign(w0, p) ==> !Foreign(o.world, p)))
          || Replaced(o.world, p))
    && (o.result.Some? ==> Replaced(o.world, p) && IsEngine(o.world, o.result.value))
    && (Polite(rs, p) ==> Polite(o.rest, p))
  }

  /** A call has been made, others coming before it, and the record is still there. */
  ghost predicate Came(w0: World, p: Pending, rs: seq<Reply>, v: World, l: Lineage) {
    && Pends(v, p, l) && Requests(w0, v) && (Polite(rs, p) && !Foreign(w0, p) ==> !Foreign(v, p))
  }

  lemma PoliteTail(rs: seq<Reply>, p: Pending)
    ensures Polite(rs, p) ==> Polite(Tail(rs), p)
  {
    if Polite(rs, p) && rs != [] {
      forall i, j | 0 <= i < |Tail(rs)| && 0 <= j < |Tail(rs)[i].before| && Tail(rs)[i].before[j].Appear?
        ensures Tail(rs)[i].before[j].c.name != p.spec.name
      {
        assert Tail(rs)[i] == rs[i + 1];
      }
    }
  }

  /** A stage that ends with its call. */
  lemma StageEnds(w0: World, p: Pending, rs: seq<Reply>, v: World, l: Lineage)
    requires w0.record == Saved(p) && Came(w0, p, rs, v, l)
    ensures Leaves(w0, p, rs, Outcome(v, Tail(rs), None), l)
  {
    hide Inv, Foreign, Polite, DurableLog;
    PoliteTail(rs, p);
  }

  /** A stage that goes on. */
  lemma StageThen(w0: World, p: Pending, rs: seq<Reply>, v: World, o: Outcome, l: Lineage)
    requires w0.record == Saved(p) && Came(w0, p, rs, v, l) && Leaves(v, p, Tail(rs), o, l)
    ensures Leaves(w0, p, rs, o, l)
  {
    hide Inv, Foreign, Polite, DurableLog, Replaced;
    PoliteTail(rs, p);
  }

  lemma ArriveComes(w0: World, p: Pending, rs: seq<Reply>, l: Lineage)
    requires Pends(w0, p, l)
    ensures Came(w0, p, rs, Arrive(w0, rs), l)
  {
    hide Inv, Foreign, Polite;
    ArriveKeeps(w0, rs, l);
  }

  lemma CallComes(w0: World, p: Pending, rs: seq<Reply>, w: World, v: World, l: Lineage)
    requires Came(w0, p, rs, w, l) && w0.record == Saved(p)
    requires Pends(v, p, l) && Requests(w, v) && (!Foreign(w, p) ==> !Foreign(v, p))
    ensures Came(w0, p, rs, v, l)
  {
    hide Inv, Foreign, Polite, DurableLog;
  }

  lemma ClearNewKeeps(w0: World, p: Pending, id: Id, rs: seq<Reply>, l: Lineage)
    requires Pends(w0, p, l) && IsEngine(w0, id) && id != p.oldId
    ensures Leaves(w0, p, rs, ClearRecord(w0, id, rs), l)
  {
    hide WellFormed, AtMostOneEngine, Covered, HandedDown, LogSafe, Foreign, Polite;
    ArriveComes(w0, p, rs, l);
    EngineStays(w0, Head(rs).before, id, l);
    var w := Arrive(w0, rs);
    ClearKeeps(w, p, id, Head(rs).fault, l);
    var (v, a) := AfterClear(w, Head(rs).fault);
    PoliteTail(rs, p);
    if v == w {
      StageEnds(w0, p, rs, v, l);
    } else {
      assert IsEngine(v, id);
    }
  }

  lemma StartNewKeeps(w0: World, p: Pending, id: Id, rs: seq<Reply>, l: Lineage)
    requires Pends(w0, p, l) && IsEngine(w0, id) && id != p.oldId
    ensures Leaves(w0, p, rs, StartNew(w0, p, id, rs), l)
  {
    hide Inv, Foreign, Polite, Leaves, Requests, ClearRecord;
    ArriveComes(w0, p, rs, l);
    EngineStays(w0, Head(rs).before, id, l);
    var w := Arrive(w0, rs);
    StartKeeps(w, p, id, Head(rs).fault, l);
    var (v, a) := AfterStart(w, id, Head(rs).fault);
    CallComes(w0, p, rs, w, v, l);
    if a.Error? || a.NotFound? {
      StageEnds(w0, p, rs, v, l);
    } else {
      assert IsEngine(v, id);
      ClearNewKeeps(v, p, id, Tail(rs), l);
      StageThen(w0, p, rs, v, ClearRecord(v, id, Tail(rs)), l);
    }
  }

  lemma CreateNewKeeps(w0: World, p: Pending, rs: seq<Reply>, l: Lineage)
    requires Pends(w0, p, l)
    ensures Leaves(w0, p, rs, CreateNew(w0, p, rs), l)
  {
    hide Inv, Foreign, Polite, Leaves, Requests, StartNew;
    ArriveComes(w0, p, rs, l);
    var w := Arrive(w0, rs);
    CreateKeeps(w, p, Head(rs), l);
    var (v, a, id) := AfterCreate(w, p.spec, Head(rs));
    CallComes(w0, p, rs, w, v, l);
    if a.Error? {
      StageEnds(w0, p, rs, v, l);
    } else {
      StartNewKeeps(v, p, id, Tail(rs), l);
      StageThen(w0, p, rs, v, StartNew(v, p, id, Tail(rs)), l);
    }
  }

  lemma RemoveOldKeeps(w0: World, p: Pending, rs: seq<Reply>, l: Lineage)
    requires Pends(w0, p, l)
    ensures Leaves(w0, p, rs, RemoveOld(w0, p, rs), l)
  {
    hide Inv, Foreign, Polite, Leaves, Requests, CreateNew;
    ArriveComes(w0, p, rs, l);
    var w := Arrive(w0, rs);
    RemoveKeeps(w, p, Head(rs).fault, l);
    var (v, a) := AfterRemove(w, p.oldId, Head(rs).fault);
    CallComes(w0, p, rs, w, v, l);
    if a.Error? {
      StageEnds(w0, p, rs, v, l);
    } else {
      CreateNewKeeps(v, p, Tail(rs), l);
      StageThen(w0, p, rs, v, CreateNew(v, p, Tail(rs)), l);
    }
  }

  lemma StopOldKeeps(w0: World, p: Pending, rs: seq<Reply>, l: Lineage)
    requires Pends(w0, p, l)
    ensures Leaves(w0, p, rs, StopOld(w0, p, rs), l)
  {
    hide Inv, Foreign, Polite, Leaves, Requests, RemoveOld;
    ArriveComes(w0, p, rs, l);
    var w := Arrive(w0, rs);
    StopKeeps(w, p, Head(rs).fault, l);
    var (v, a) := AfterStop(w, p.oldId, Head(rs).fault);
    CallComes(w0, p, rs, w, v, l);
    if a.Error? {
      StageEnds(w0, p, rs, v, l);
    } else {
      RemoveOldKeeps(v, p, Tail(rs), l);
      StageThen(w0, p, rs, v, RemoveOld(v, p, Tail(rs)), l);
    }
  }

  lemma ResumeKeeps(w0: World, p: Pending, rs: seq<Reply>, l: Lineage)
    requires Pends(w0, p, l)
    ensures Leaves(w0, p, rs, Resume(w0, p, rs), l)
  {
    hide Inv, Foreign, Polite, Leaves, Requests, CreateNew, StopOld, StartNew;
    ArriveComes(w0, p, rs, l);
    var w := Arrive(w0, rs);
    var id := ByName(w, p.spec.name);
    var o := Resume(w0, p, rs);
    if Head(rs).fault == Served && id == 0 {
      CreateNewKeeps(w, p, Tail(rs), l);
      StageThen(w0, p, rs, w, o, l);
    } else if Head(rs).fault == Served && id == p.oldId {
      StopOldKeeps(w, p, Tail(rs), l);
      StageThen(w0, p, rs, w, o, l);
    } else if Head(rs).fault == Served && IsOwn(w.containers[id], p) {
      OwnIsOther(w, p, id, l);
      StartNewKeeps(w, p, id, Tail(rs), l);
      StageThen(w0, p, rs, w, o, l);
    } else {
      StageEnds(w0, p, rs, w, l);
    }
  }

  lemma OwnIsOther(w: World, p: Pending, id: Id, l: Lineage)
    requires Pends(w, p, l) && id in w.containers && IsOwn(w.containers[id], p)
    ensures IsEngine(w, id)
  {
  }

  lemma EngineIsThe(w: World, id: Id, l: Lineage)
    requires Inv(w, l)
    ensures Engine(w) != 0 ==> IsEngine(w, Engine(w))
    ensures IsEngine(w, id) ==> Engine(w) == id
  {
    if IsEngine(w, id) {
      assert id in w.containers && 0 < id < w.nextId;
      assert IsEngine(w, Engine(w));
    }
  }

  /** The ways Sync can go. */
  lemma SyncCases(w0: World, cfg: Config, extras: Extras, recovered: Id, rs: seq<Reply>)
    ensures var o := Sync(w0, cfg, extras, recovered, rs);
            var w1, rs1 := Arrive(w0, rs), Tail(rs);
            var w2, rs2 := Arrive(w1, rs1), Tail(rs1);
            var id := Engine(w1);
            || (extras.Empty() && o.world == w0)
            || (o.world == w1 && o.result.None?)
            || (id != 0 && o.world == w2)
            || (id != 0 && id in w2.containers && var p := Pending(id, Built(cfg, id, w2.containers[id], extras));
                Valid(p) && o == Replace(w2, p, rs2))
  {
  }

  lemma SyncKeeps(w0: World, cfg: Config, extras: Extras, recovered: Id, rs: seq<Reply>, l: Lineage)
    requires Inv(w0, l) && w0.record == Absent && Compatible(cfg, l)
    ensures var o := Sync(w0, cfg, extras, recovered, rs);
            Inv(o.world, l) && (o.result.Some? ==> o.world.record == Absent)
  {
    var w1, rs1 := Arrive(w0, rs), Tail(rs);
    var id := Engine(w1);
    ArriveKeeps(w0, rs, l);
    if !extras.Empty() && id != 0 {
      var w2, rs2 := Arrive(w1, rs1), Tail(rs1);
      ArriveKeeps(w1, rs1, l);
      EngineStays(w1, Head(rs1).before, id, l);
      BuiltHolds(cfg, id, w2.containers[id], extras, l);
      var p := Pending(id, Built(cfg, id, w2.containers[id], extras));
      if Valid(p) {
        ReplaceKeeps(w2, p, rs2, l);
      }
      SyncCases(w0, cfg, extras, recovered, rs);
    }
  }

  lemma ReplaceKeeps(w0: World, p: Pending, rs: seq<Reply>, l: Lineage)
    requires Inv(w0, l) && w0.record == Absent
    requires Valid(p) && IsEngine(w0, p.oldId) && SpecHolds(p.spec, l)
    ensures var o := Replace(w0, p, rs);
            Inv(o.world, l) && (o.result.Some? ==> Replaced(o.world, p) && IsEngine(o.world, o.result.value))
  {
    ArriveKeeps(w0, rs, l);
    EngineStays(w0, Head(rs).before, p.oldId, l);
    SaveKeeps(Arrive(w0, rs), p, Head(rs).fault, l);
    var (v, a) := AfterSave(Arrive(w0, rs), p, Head(rs).fault);
    if !a.Error? {
      ResumeKeeps(v, p, Tail(rs), l);
    }
  }

  lemma EnsureKeeps(w0: World, cfg: Config, extras: Extras, rs: seq<Reply>, l: Lineage)
    requires Inv(w0, l) && Compatible(cfg, l)
    ensures var o := Ensure(w0, cfg, extras, rs);
            Inv(o.world, l) && (o.result.Some? ==> o.world.record == Absent)
  {
    var w := Arrive(w0, rs);
    ArriveKeeps(w0, rs, l);
    if Head(rs).fault == Served {
      match w.record {
        case Corrupt =>
        case Absent => SyncKeeps(w, cfg, extras, 0, Tail(rs), l);
        case Saved(p) =>
          ResumeKeeps(w, p, Tail(rs), l);
          var o := Resume(w, p, Tail(rs));
          if o.result.Some? { SyncKeeps(o.world, cfg, extras, o.result.value, o.rest, l); }
      }
    }
  }

  lemma ReconcileKeeps(w: World, ps: Pass, l: Lineage)
    requires Inv(w, l) && Compatible(ps.cfg, l)
    ensures Inv(Reconcile(w, ps).world, l)
  {
    EnsureKeeps(w, ps.cfg, NO_EXTRAS, ps.replies, l);
    var o := Recovery(w, ps);
    EnsureKeeps(o.world, ps.cfg, ps.extras, o.rest, l);
  }
}
