// The supervisor's code as it runs: calls that change the daemon and the record step by
// step (internal/pipeline/manage.go), proved to go exactly the way Replacement describes.
module Supervisor {
  import opened Wrappers
  import opened Docker
  import opened EngineSpec
  import opened Replacement
  import opened Safety
  import opened Delivery

  /** The Docker daemon and the disk, as the supervisor reaches them. */
  class Host {
    var containers: map<Id, Container>
    var nextId: Id
    var record: Record
    var kept: set<Record>
    var log: seq<Action>
    var replies: seq<Reply>

    function State(): World
      reads this
    {
      World(containers, nextId, record, kept, log)
    }

    constructor (w: World, rs: seq<Reply>)
      ensures State() == w && replies == rs
    {
      containers, nextId, record, kept, log := w.containers, w.nextId, w.record, w.kept, w.log;
      replies := rs;
    }

    /** What others do before the next call arrives, and how that call is answered. */
    method Take() returns (r: Reply)
      modifies this
      ensures State() == Arrive(old(State()), old(replies))
      ensures r == Head(old(replies)) && replies == Tail(old(replies))
    {
      r := Head(replies);
      replies := Tail(replies);
      var i := 0;
      while i < |r.before|
        invariant i <= |r.before| && replies == Tail(old(replies))
        invariant ApplyAll(State(), r.before[i..]) == Arrive(old(State()), old(replies))
      {
        var w := Apply(State(), r.before[i]);
        assert r.before[i..][1..] == r.before[i + 1..];
        containers, nextId, record, kept, log := w.containers, w.nextId, w.record, w.kept, w.log;
        i := i + 1;
      }
    }

    method ReadRecord() returns (ok: bool, found: Record)
      modifies this
      ensures State() == Arrive(old(State()), old(replies)) && replies == Tail(old(replies))
      ensures ok <==> Head(old(replies)).fault == Served
      ensures found == record
    {
      var r := Take();
      ok, found := r.fault == Served, record;
    }

    method SaveRecord(p: Pending) returns (a: Answer)
      modifies this
      ensures (State(), a) == AfterSave(Arrive(old(State()), old(replies)), p, Head(old(replies)).fault)
      ensures replies == Tail(old(replies))
    {
      var r := Take();
      if r.fault.Refused? || r.fault.Crashed? {
        return Error;
      }
      record := Saved(p);
      kept := if r.fault.Lost? then kept + {Saved(p)} else {Saved(p)};
      a := Told(r.fault, Ok);
    }

    method RemoveRecord() returns (a: Answer)
      modifies this
      ensures (State(), a) == AfterClear(Arrive(old(State()), old(replies)), Head(old(replies)).fault)
      ensures replies == Tail(old(replies))
    {
      var r := Take();
      if r.fault.Refused? || r.fault.Crashed? || record.Absent? {
        return Error;
      }
      record, kept := Absent, kept + {Absent};
      a := Told(r.fault, Ok);
    }

    /** The IDs of all containers, newest first. */
    method ListAll() returns (ok: bool, ids: seq<Id>)
      modifies this
      ensures State() == Arrive(old(State()), old(replies)) && replies == Tail(old(replies))
      ensures ok <==> Head(old(replies)).fault == Served
      ensures forall i :: 0 <= i < |ids| ==> 0 < ids[i] < nextId && ids[i] in containers
      ensures forall id :: 0 < id < nextId && id in containers ==> id in ids
      ensures forall i, j :: 0 <= i < j < |ids| ==> ids[i] > ids[j]
    {
      var r := Take();
      ok, ids := r.fault == Served, [];
      var k := nextId;
      while k > 1
        invariant k >= 1 || k == nextId
        invariant forall i :: 0 <= i < |ids| ==> k <= ids[i] < nextId && ids[i] in containers && ids[i] > 0
        invariant forall id :: k <= id < nextId && 0 < id && id in containers ==> id in ids
        invariant forall i, j :: 0 <= i < j < |ids| ==> ids[i] > ids[j]
        invariant State() == Arrive(old(State()), old(replies)) && replies == Tail(old(replies))
      {
        k := k - 1;
        if k in containers {
          ids := ids + [k];
        }
      }
    }

    /** Inspection by name; id is 0 when there is no such container or no answer. */
    method InspectName(name: string) returns (ok: bool, id: Id)
      modifies this
      ensures State() == Arrive(old(State()), old(replies)) && replies == Tail(old(replies))
      ensures ok <==> Head(old(replies)).fault == Served
      ensures id == if ok then ByName(State(), name) else 0
    {
      var r := Take();
      ok := r.fault == Served;
      id := if ok then ByName(State(), name) else 0;
    }

    method InspectId(id: Id) returns (c: Option<Container>)
      modifies this
      ensures State() == Arrive(old(State()), old(replies)) && replies == Tail(old(replies))
      ensures c == if Head(old(replies)).fault == Served && id in containers then Some(containers[id]) else None
    {
      var r := Take();
      c := if r.fault == Served && id in containers then Some(containers[id]) else None;
    }

    method ContainerStop(id: Id) returns (a: Answer)
      modifies this
      ensures (State(), a) == AfterStop(Arrive(old(State()), old(replies)), id, Head(old(replies)).fault)
      ensures replies == Tail(old(replies))
    {
      var r := Take();
      if r.fault.Crashed? {
        return Error;
      }
      log := log + [Stop(id, record, State().Durable())];
      if r.fault.Refused? {
        return Error;
      }
      if id !in containers {
        return Told(r.fault, NotFound);
      }
      if !containers[id].running {
        return Told(r.fault, NotModified);
      }
      containers := containers[id := containers[id].(running := false)];
      a := Told(r.fault, Ok);
    }

    method ContainerRemove(id: Id) returns (a: Answer)
      modifies this
      ensures (State(), a) == AfterRemove(Arrive(old(State()), old(replies)), id, Head(old(replies)).fault)
      ensures replies == Tail(old(replies))
    {
      var r := Take();
      if r.fault.Crashed? {
        return Error;
      }
      log := log + [Remove(id, record, State().Durable())];
      if r.fault.Refused? {
        return Error;
      }
      if id !in containers {
        return Told(r.fault, NotFound);
      }
      if containers[id].running {
        return Error;
      }
      containers := containers - {id};
      a := Told(r.fault, Ok);
    }

    method ContainerCreate(s: Spec) returns (a: Answer, id: Id)
      modifies this
      ensures (State(), a, id) == AfterCreate(Arrive(old(State()), old(replies)), s, Head(old(replies)))
      ensures replies == Tail(old(replies))
    {
      var r := Take();
      if r.fault.Refused? || r.fault.Crashed? || !NameFree(State(), s.name) {
        return Error, 0;
      }
      id := nextId;
      log := log + [Create(id, record, State().Durable())];
      containers := containers[id := Made(s, r.made)];
      nextId := nextId + 1;
      a := Told(r.fault, Ok);
    }

    method ContainerStart(id: Id) returns (a: Answer)
      modifies this
      ensures (State(), a) == AfterStart(Arrive(old(State()), old(replies)), id, Head(old(replies)).fault)
      ensures replies == Tail(old(replies))
    {
      var r := Take();
      if r.fault.Crashed? {
        return Error;
      }
      log := log + [Start(id, record, State().Durable())];
      if r.fault.Refused? {
        return Error;
      }
      if id !in containers {
        return Told(r.fault, NotFound);
      }
      if containers[id].running {
        return Told(r.fault, NotModified);
      }
      containers := containers[id := containers[id].(running := true)];
      a := Told(r.fault, Ok);
    }
  }

  method ResumeGobackupReplacement(h: Host, p: Pending) returns (result: Option<Id>)
    requires Valid(p)
    modifies h
    ensures Outcome(h.State(), h.replies, result) == Resume(old(h.State()), p, old(h.replies))
  {
    var ok, id := h.InspectName(p.spec.name);
    if !ok {
      return None;
    }
    if id == p.oldId {
      var stopped := h.ContainerStop(id);
      if stopped.Error? {
        return None;
      }
      var removed := h.ContainerRemove(id);
      if removed.Error? {
        return None;
      }
      id := 0;
    } else if id != 0 && !IsOwn(h.containers[id], p) {
      return None;
    }
    if id == 0 {
      var created: Answer;
      created, id := h.ContainerCreate(p.spec);
      if created.Error? {
        return None;
      }
    }
    var started := h.ContainerStart(id);
    if started.Error? || started.NotFound? {
      return None;
    }
    var cleared := h.RemoveRecord();
    if !cleared.Ok? {
      return None;
    }
    return Some(id);
  }

  /** The newest container that carries the component label. */
  method FindGobackupContainer(h: Host) returns (ok: bool, id: Id)
    modifies h
    ensures h.State() == Arrive(old(h.State()), old(h.replies)) && h.replies == Tail(old(h.replies))
    ensures ok <==> Head(old(h.replies)).fault == Served
    ensures id == Engine(h.State())
  {
    var ids: seq<Id>;
    ok, ids := h.ListAll();
    id := 0;
    ghost var engine := Engine(h.State());
    assert engine != 0 ==> engine in ids;
    for i := 0 to |ids|
      invariant forall k :: 0 <= k < i ==> !h.containers[ids[k]].labels.component
    {
      if h.containers[ids[i]].labels.component {
        id := ids[i];
        NewestIs(h.State(), id);
        return;
      }
    }
  }

  lemma {:induction false} FindNewest(cs: map<Id, Container>, below: Id, want: Container -> bool, id: Id)
    requires 0 < id < below && id in cs && want(cs[id])
    requires forall k :: id < k < below && k in cs ==> !want(cs[k])
    ensures Find(cs, below, want) == id
  {
    if id != below - 1 {
      FindNewest(cs, below - 1, want, id);
    }
  }

  lemma NewestIs(w: World, id: Id)
    requires 0 < id < w.nextId && IsEngine(w, id)
    requires forall k :: id < k < w.nextId && k in w.containers ==> !w.containers[k].labels.component
    ensures Engine(w) == id
  {
    FindNewest(w.containers, w.nextId, (c: Container) => c.labels.component, id);
  }

  method EnsureGobackupContainer(h: Host, cfg: Config, extras: Extras) returns (result: Option<Id>)
    modifies h
    ensures Outcome(h.State(), h.replies, result) == Ensure(old(h.State()), cfg, extras, old(h.replies))
  {
    var recovered := 0;
    var read, record := h.ReadRecord();
    if !read {
      return None;
    }
    match record {
      case Corrupt => return None;
      case Absent =>
      case Saved(p) =>
        if !Valid(p) {
          return None;
        }
        var resumed := ResumeGobackupReplacement(h, p);
        if resumed.None? {
          return None;
        }
        recovered := resumed.value;
    }
    if |extras.mounts| == 0 && |extras.envVars| == 0 && |extras.exports| == 0 {
      return Some(recovered);
    }
    var listed, id := FindGobackupContainer(h);
    if !listed || id == 0 {
      return None;
    }
    var existing := h.InspectId(id);
    if existing.None? {
      return None;
    }
    var spec := BuildGobackupSpec(cfg, id, existing.value, extras);
    var needed := CheckRecreate(existing.value, spec, extras.envVars);
    if !needed {
      return Some(id);
    }
    var p := Pending(id, spec);
    if !Valid(p) {
      return None;
    }
    var saved := h.SaveRecord(p);
    if saved.Error? {
      return None;
    }
    result := ResumeGobackupReplacement(h, p);
  }

  /** One reconcile, as far as the engine is concerned: whatever happens, the engine or
      the way to it is kept. */
  method Reconcile(h: Host, ps: Pass, ghost l: Lineage) returns (result: Option<Id>)
    requires Inv(h.State(), l) && Compatible(ps.cfg, l) && h.replies == ps.replies
    modifies h
    ensures h.State() == Replacement.Reconcile(old(h.State()), ps).world
    ensures result == Replacement.Reconcile(old(h.State()), ps).result
    ensures Inv(h.State(), l)
    ensures result.Some? && Adds(ps.extras) && AllManaged(ps.extras.mounts) ==>
              && IsEngine(h.State(), result.value)
              && Delivered(h.containers[result.value], ps.cfg, ps.extras, l)
  {
    hide Delivered;
    ReconcileKeeps(h.State(), ps, l);
    if Replacement.Reconcile(h.State(), ps).result.Some? && Adds(ps.extras) && AllManaged(ps.extras.mounts) {
      PassDelivers(h.State(), ps, l);
    }
    var recovered := EnsureGobackupContainer(h, ps.cfg, NO_EXTRAS);
    if recovered.None? || !ps.renders {
      return None;
    }
    result := EnsureGobackupContainer(h, ps.cfg, ps.extras);
  }
}
