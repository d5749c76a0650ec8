// The replacement of the engine container as a protocol between the supervisor, the
// Docker daemon and a record on disk (internal/pipeline/manage.go, ensureGobackupContainer
// and resumeGobackupReplacement; internal/pipeline/reconcile.go, reconcile).
//
// Every call has a reply that says what others did to the daemon before it, and whether
// the call was served, refused, served with its answer lost, or never made because the
// supervisor died just before it. A pass ends at the first error that is not progress
// and keeps nothing in memory, so every world between two calls of a pass is the world
// that the same pass leaves when it crashes there.
module Replacement {
  import opened Wrappers
  import opened Docker
  import opened EngineSpec

  /** The write-ahead record: which container is replaced, and by what. */
  datatype Pending = Pending(oldId: Id, spec: Spec)

  predicate Valid(p: Pending) {
    && p.oldId != 0 && p.spec.name != "" && p.spec.image != ""
    && p.spec.labels.component && p.spec.labels.successorOf == p.oldId
  }

  datatype Record = Absent | Corrupt | Saved(pending: Pending)

  /** A request to change the daemon, with the record that was on disk when it was made, and
      whether that was sure to be there after a power loss. */
  datatype Action =
    | Stop(id: Id, record: Record, durable: bool)
    | Remove(id: Id, record: Record, durable: bool)
    | Create(id: Id, record: Record, durable: bool)
    | Start(id: Id, record: Record, durable: bool)

  /** The daemon's containers, the next ID it will give, the record, what may be on disk in
      its place after a power loss, and all requests. */
  datatype World = World(containers: map<Id, Container>, nextId: Id, record: Record, kept: set<Record>,
                         log: seq<Action>) {
    predicate Durable() {
      kept == {record}
    }
  }

  // ---- What others do ----

  datatype Change = Appear(c: Container) | Vanish(id: Id) | Flip(id: Id, running: bool)

  predicate NameFree(w: World, name: string) {
    forall id :: id in w.containers ==> w.containers[id].name != name
  }

  predicate IsEngine(w: World, id: Id) {
    id in w.containers && w.containers[id].labels.component
  }

  /** The environment's part of the contract: others create no engine component and no
      container marked as a replacement, and remove the engine only while it is the one
      being replaced. Anything else may happen at any time. */
  predicate Allowed(w: World, ch: Change) {
    match ch
    case Appear(c) => NameFree(w, c.name) && !c.labels.component && c.labels.successorOf == 0
    case Vanish(id) => IsEngine(w, id) ==> w.record.Saved? && w.record.pending.oldId == id
    case Flip(id, _) => id in w.containers
  }

  function Apply(w: World, ch: Change): World {
    if !Allowed(w, ch) then w
    else
      match ch
      case Appear(c) => w.(containers := w.containers[w.nextId := c], nextId := w.nextId + 1)
      case Vanish(id) => w.(containers := w.containers - {id})
      case Flip(id, on) => w.(containers := w.containers[id := w.containers[id].(running := on)])
  }

  function ApplyAll(w: World, chs: seq<Change>): World
    decreases |chs|
  {
    if chs == [] then w else ApplyAll(Apply(w, chs[0]), chs[1..])
  }

  // ---- Single calls ----

  datatype Fault = Served | Refused | Lost | Crashed

  /** made: how a created container is going to look, if it echoes the spec. */
  datatype Reply = Reply(before: seq<Change>, fault: Fault, made: Container)

  datatype Answer = Ok | NotFound | NotModified | Error

  function Noted(w: World, a: Action): World {
    w.(log := w.log + [a])
  }

  function Told(f: Fault, a: Answer): Answer {
    if f.Lost? then Error else a
  }

  /** The newest container below an ID that satisfies want, 0 if there is none. */
  function Find(cs: map<Id, Container>, below: Id, want: Container -> bool): (id: Id)
    ensures id != 0 ==> id < below && id in cs && want(cs[id])
    ensures id == 0 ==> forall k :: 0 < k < below && k in cs ==> !want(cs[k])
  {
    if below <= 1 then 0
    else if below - 1 in cs && want(cs[below - 1]) then below - 1
    else Find(cs, below - 1, want)
  }

  function ByName(w: World, name: string): Id {
    Find(w.containers, w.nextId, (c: Container) => c.name == name)
  }

  function Engine(w: World): Id {
    Find(w.containers, w.nextId, (c: Container) => c.labels.component)
  }

  function AfterStop(w: World, id: Id, f: Fault): (World, Answer) {
    var n := Noted(w, Stop(id, w.record, w.Durable()));
    if f.Crashed? then (w, Error)
    else if f.Refused? then (n, Error)
    else if id !in w.containers then (n, Told(f, NotFound))
    else if !w.containers[id].running then (n, Told(f, NotModified))
    else (n.(containers := w.containers[id := w.containers[id].(running := false)]), Told(f, Ok))
  }

  /** Removal is not forced: a running container is not removed. */
  function AfterRemove(w: World, id: Id, f: Fault): (World, Answer) {
    var n := Noted(w, Remove(id, w.record, w.Durable()));
    if f.Crashed? then (w, Error)
    else if f.Refused? then (n, Error)
    else if id !in w.containers then (n, Told(f, NotFound))
    else if w.containers[id].running then (n, Error)
    else (n.(containers := w.containers - {id}), Told(f, Ok))
  }

  function Points(ds: seq<MountDef>): (mps: seq<MountPoint>)
    ensures Defs(mps) == ds
  {
    if ds == [] then []
    else
      var d := ds[0];
      [MountPoint(d.kind, d.source, d.source, d.target, !d.readOnly)] + Points(ds[1..])
  }

  /** The container a spec becomes: as the daemon chose, within what a spec allows. */
  function Made(s: Spec, chosen: Container): (c: Container)
    ensures Echoes(c, s) && !c.running
  {
    if Echoes(chosen, s) && !chosen.running then chosen
    else
      Container(s.name, s.image, s.command, s.env, s.labels, Points(s.mounts), s.networks, false)
  }

  function AfterCreate(w: World, s: Spec, r: Reply): (World, Answer, Id) {
    if r.fault.Refused? || r.fault.Crashed? || !NameFree(w, s.name) then (w, Error, 0)
    else
      var n := Noted(w, Create(w.nextId, w.record, w.Durable()));
      (n.(containers := w.containers[w.nextId := Made(s, r.made)], nextId := w.nextId + 1), Told(r.fault, Ok), w.nextId)
  }

  function AfterStart(w: World, id: Id, f: Fault): (World, Answer) {
    var n := Noted(w, Start(id, w.record, w.Durable()));
    if f.Crashed? then (w, Error)
    else if f.Refused? then (n, Error)
    else if id !in w.containers then (n, Told(f, NotFound))
    else if w.containers[id].running then (n, Told(f, NotModified))
    else (n.(containers := w.containers[id := w.containers[id].(running := true)]), Told(f, Ok))
  }

  /** AtomicWrite (see AtomicFile): the old record or the new one. A write that is lost was
      answered after the rename; the directory was not synced, and a power loss may undo it. */
  function AfterSave(w: World, p: Pending, f: Fault): (World, Answer) {
    if f.Refused? || f.Crashed? then (w, Error)
    else (w.(record := Saved(p), kept := if f.Lost? then w.kept + {Saved(p)} else {Saved(p)}), Told(f, Ok))
  }

  /** os.Remove, which syncs nothing. */
  function AfterClear(w: World, f: Fault): (World, Answer) {
    if f.Refused? || f.Crashed? || w.record.Absent? then (w, Error)
    else (w.(record := Absent, kept := w.kept + {Absent}), Told(f, Ok))
  }

  /** The power is lost: on disk is one of the records that may be. */
  function AfterLoss(w: World, r: Record): World {
    if r in w.kept then w.(record := r, kept := {r}) else w
  }

  // ---- The protocol ----

  /** What a pass leaves, the replies it did not use, and its result: an error, or the
      engine's ID (0 if it was not looked up). */
  datatype Outcome = Outcome(world: World, rest: seq<Reply>, result: Option<Id>)

  const CALM := Reply([], Served, Container("", "", [], [], Labels(false, 0, [], map[]), [], {}, false))

  function Head(rs: seq<Reply>): Reply {
    if rs == [] then CALM else rs[0]
  }

  function Tail(rs: seq<Reply>): seq<Reply> {
    if rs == [] then [] else rs[1..]
  }

  /** The world in which the next call arrives. */
  function Arrive(w: World, rs: seq<Reply>): World {
    ApplyAll(w, Head(rs).before)
  }

  /** c is the replacement that the record p asks for. */
  predicate IsOwn(c: Container, p: Pending) {
    c.labels.successorOf == p.oldId && c.labels.component
  }

  function Resume(w0: World, p: Pending, rs: seq<Reply>): Outcome {
    var w, f := Arrive(w0, rs), Head(rs).fault;
    var id := ByName(w, p.spec.name);
    if f != Served then Outcome(w, Tail(rs), None)
    else if id == 0 then CreateNew(w, p, Tail(rs))
    else if id == p.oldId then StopOld(w, p, Tail(rs))
    else if IsOwn(w.containers[id], p) then StartNew(w, p, id, Tail(rs))
    else Outcome(w, Tail(rs), None)
  }

  function StopOld(w0: World, p: Pending, rs: seq<Reply>): Outcome {
    var (w, a) := AfterStop(Arrive(w0, rs), p.oldId, Head(rs).fault);
    if a.Error? then Outcome(w, Tail(rs), None) else RemoveOld(w, p, Tail(rs))
  }

  function RemoveOld(w0: World, p: Pending, rs: seq<Reply>): Outcome {
    var (w, a) := AfterRemove(Arrive(w0, rs), p.oldId, Head(rs).fault);
    if a.Error? then Outcome(w, Tail(rs), None) else CreateNew(w, p, Tail(rs))
  }

  function CreateNew(w0: World, p: Pending, rs: seq<Reply>): Outcome {
    var (w, a, id) := AfterCreate(Arrive(w0, rs), p.spec, Head(rs));
    if a.Error? then Outcome(w, Tail(rs), None) else StartNew(w, p, id, Tail(rs))
  }

  function StartNew(w0: World, p: Pending, id: Id, rs: seq<Reply>): Outcome {
    var (w, a) := AfterStart(Arrive(w0, rs), id, Head(rs).fault);
    if a.Error? || a.NotFound? then Outcome(w, Tail(rs), None) else ClearRecord(w, id, Tail(rs))
  }

  function ClearRecord(w0: World, id: Id, rs: seq<Reply>): Outcome {
    var (w, a) := AfterClear(Arrive(w0, rs), Head(rs).fault);
    Outcome(w, Tail(rs), if a.Ok? then Some(id) else None)
  }

  /** Finish an interrupted replacement, then bring the engine to the desired spec. */
  function Ensure(w0: World, cfg: Config, extras: Extras, rs: seq<Reply>): Outcome {
    var w, f := Arrive(w0, rs), Head(rs).fault;
    if f != Served then Outcome(w, Tail(rs), None)
    else
      match w.record
      case Corrupt => Outcome(w, Tail(rs), None)
      case Absent => Sync(w, cfg, extras, 0, Tail(rs))
      case Saved(p) =>
        if !Valid(p) then Outcome(w, Tail(rs), None)
        else
          var o := Resume(w, p, Tail(rs));
          if o.result.None? then o else Sync(o.world, cfg, extras, o.result.value, o.rest)
  }

  function Sync(w0: World, cfg: Config, extras: Extras, recovered: Id, rs: seq<Reply>): Outcome {
    if extras.Empty() then Outcome(w0, rs, Some(recovered))
    else
      var w1, rs1 := Arrive(w0, rs), Tail(rs);
      var id := Engine(w1);
      if Head(rs).fault != Served || id == 0 then Outcome(w1, rs1, None)
      else
        var w2, rs2 := Arrive(w1, rs1), Tail(rs1);
        if Head(rs1).fault != Served || id !in w2.containers then Outcome(w2, rs2, None)
        else
          var spec := Built(cfg, id, w2.containers[id], extras);
          if !NeedsRecreate(w2.containers[id], spec, extras.envVars) then Outcome(w2, rs2, Some(id))
          else if !Valid(Pending(id, spec)) then Outcome(w2, rs2, None)
          else Replace(w2, Pending(id, spec), rs2)
  }

  /** The record is written before anything is stopped. */
  function Replace(w0: World, p: Pending, rs: seq<Reply>): Outcome {
    var (w, a) := AfterSave(Arrive(w0, rs), p, Head(rs).fault);
    if a.Error? then Outcome(w, Tail(rs), None) else Resume(w, p, Tail(rs))
  }

  /** One reconcile: recovery first, then rendering, which may fail, then the engine. */
  datatype Pass = Pass(cfg: Config, extras: Extras, renders: bool, replies: seq<Reply>)

  function Recovery(w: World, ps: Pass): Outcome {
    Ensure(w, ps.cfg, NO_EXTRAS, ps.replies)
  }

  function Reconcile(w: World, ps: Pass): Outcome {
    var o := Recovery(w, ps);
    if o.result.None? || !ps.renders then o.(result := None)
    else Ensure(o.world, ps.cfg, ps.extras, o.rest)
  }
}
