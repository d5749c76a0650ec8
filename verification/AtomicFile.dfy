// internal/apply/filewatch.go: how the config, and the replacement record, get to disk. The
// file must be seen whole at every moment, also after a crash; the writer skips what it
// believes is there already.
module AtomicFile {
  import opened Wrappers

  /** A file's bytes, and whether they are on stable storage. */
  datatype Inode = Inode(bytes: string, synced: bool)

  /** What a reader of the path sees, and what it may name after a crash: the entries since
      the directory was last synced. */
  datatype Moment = Moment(seen: Option<Inode>, kept: set<Option<Inode>>)

  /** What can fail, in this order; the first failure ends the write. */
  datatype Step = CreateTemp | WriteTemp | Chmod | Sync | Close | Rename | OpenDir | SyncDir

  class Directory {
    var seen: Option<Inode>
    var kept: set<Option<Inode>>
    var temps: map<string, Inode>
    ghost var history: seq<Moment>

    ghost function Now(): Moment
      reads this
    {
      Moment(seen, kept)
    }

    constructor (file: Option<Inode>)
      ensures seen == file && kept == {file} && temps == map[] && history == []
    {
      seen, kept, temps, history := file, {file}, map[], [];
    }

    /** Work on a temporary file; a write may stop halfway. */
    method SetTemp(name: string, i: Inode)
      modifies this
      ensures seen == old(seen) && kept == old(kept) && temps == old(temps)[name := i]
      ensures history == old(history) + [Now()]
    {
      temps := temps[name := i];
      history := history + [Now()];
    }

    method RemoveTemp(name: string)
      modifies this
      ensures seen == old(seen) && kept == old(kept) && temps == old(temps) - {name}
      ensures history == old(history)
    {
      temps := temps - {name};
    }

    method Replace(name: string)
      requires name in temps
      modifies this
      ensures seen == Some(old(temps)[name]) && kept == old(kept) + {seen} && temps == old(temps) - {name}
      ensures history == old(history) + [Now()]
    {
      seen := Some(temps[name]);
      kept, temps := kept + {seen}, temps - {name};
      history := history + [Now()];
    }

    method Settle()
      modifies this
      ensures seen == old(seen) && kept == {seen} && temps == old(temps)
      ensures history == old(history) + [Now()]
    {
      kept := {seen};
      history := history + [Now()];
    }

    /** At any moment since the first n the path names the old file or all of the new one, and
        so it does after a crash then. */
    ghost predicate WholeSince(n: nat, was: Moment, data: string)
      reads this
    {
      forall i :: n <= i < |history| ==> Whole(history[i], was, data)
    }

    ghost predicate SameSince(n: nat, was: Moment)
      reads this
    {
      Now() == was && forall i :: n <= i < |history| ==> history[i] == was
    }

    /** The file complete and synced under a temporary name, which leaves the path alone. Half
        of data is what a failed write leaves of it. */
    method Prepare(data: string, name: string, fail: Option<Step>, half: string) returns (ok: bool)
      requires name !in temps
      modifies this
      ensures old(history) <= history && SameSince(|old(history)|, old(Now()))
      ensures ok <==> TookEffect(fail)
      ensures temps == if ok then old(temps)[name := Inode(data, true)] else old(temps)
    {
      if fail == Some(CreateTemp) {
        return false;
      }
      SetTemp(name, Inode("", false));
      ghost var left;
      ok, left := Fill(data, name, fail, half);
      if !ok {
        // the deferred removal
        RemoveTemp(name);
        assert temps == old(temps);
      }
    }

    method Fill(data: string, name: string, fail: Option<Step>, half: string) returns (ok: bool, ghost left: Inode)
      requires fail != Some(CreateTemp)
      modifies this
      ensures old(history) <= history && SameSince(|old(history)|, old(Now()))
      ensures ok <==> TookEffect(fail)
      ensures temps == old(temps)[name := left] && (ok ==> left == Inode(data, true))
    {
      if fail == Some(WriteTemp) {
        SetTemp(name, Inode(half, false));
        return false, Inode(half, false);
      }
      SetTemp(name, Inode(data, false));
      if fail == Some(Chmod) || fail == Some(Sync) {
        return false, Inode(data, false);
      }
      SetTemp(name, Inode(data, true));
      return fail != Some(Close) && fail != Some(Rename), Inode(data, true);
    }

    method AtomicWrite(data: string, name: string, fail: Option<Step>, half: string) returns (ok: bool)
      requires name !in temps
      modifies this
      ensures temps == old(temps)
      ensures old(history) <= history && WholeSince(|old(history)|, old(Now()), data)
      ensures ok <==> fail.None?
      ensures Now() == Written(old(Now()), data, fail)
    {
      var ready := Prepare(data, name, fail, half);
      if !ready {
        return false;
      }
      Replace(name);
      assert temps == old(temps);
      if fail == Some(OpenDir) || fail == Some(SyncDir) {
        return false;
      }
      Settle();
      return true;
    }
  }

  /** The new file has been renamed over the path; a crash may still undo that. */
  function Renamed(m: Moment, data: string): Moment {
    var file := Some(Inode(data, true));
    Moment(file, m.kept + {file})
  }

  /** And the directory has been synced. */
  function Settled(data: string): Moment {
    Moment(Some(Inode(data, true)), {Some(Inode(data, true))})
  }

  predicate Whole(m: Moment, was: Moment, data: string) {
    m == was || m == Renamed(was, data) || m == Settled(data)
  }

  /** What a write leaves. */
  function Written(m: Moment, data: string, fail: Option<Step>): Moment {
    if fail.None? then Settled(data) else if TookEffect(fail) then Renamed(m, data) else m
  }

  /** The new file is there, even if the write then reports an error. */
  predicate TookEffect(fail: Option<Step>) {
    fail.None? || fail.value.OpenDir? || fail.value.SyncDir?
  }

  // ---- FileWriter ----

  class FileWriter {
    const dir: Directory
    var last: string

    constructor (d: Directory)
      ensures dir == d && last == ""
    {
      dir, last := d, "";
    }

    /** Apply; valid says whether the bytes parse. */
    method Apply(cfg: string, valid: bool, name: string, fail: Option<Step>, half: string)
      returns (changed: bool, ok: bool)
      requires name !in dir.temps
      modifies this, dir
      ensures dir.temps == old(dir.temps)
      ensures old(dir.history) <= dir.history && dir.WholeSince(|old(dir.history)|, old(dir.Now()), cfg)
      ensures var r := Applied(Writer(old(last), old(dir.seen)), Request(cfg, valid, fail));
              Writer(last, dir.seen) == r.0 && changed == r.1 && ok == r.2
    {
      if cfg == last {
        return false, true;
      }
      if !valid {
        return false, false;
      }
      var written := dir.AtomicWrite(cfg, name, fail, half);
      if !written {
        return false, false;
      }
      last := cfg;
      return true, true;
    }
  }

  /** What the writer believes it wrote, and what is there. */
  datatype Writer = Writer(last: string, seen: Option<Inode>)

  datatype Request = Request(cfg: string, valid: bool, fail: Option<Step>)

  /** The writer afterwards, whether it says that it wrote, and whether it reports success. */
  function Applied(w: Writer, r: Request): (Writer, bool, bool) {
    if r.cfg == w.last then (w, false, true)
    else if !r.valid then (w, false, false)
    else
      var seen := if TookEffect(r.fail) then Some(Inode(r.cfg, true)) else w.seen;
      (Writer(if r.fail.None? then r.cfg else w.last, seen), r.fail.None?, r.fail.None?)
  }

  function AppliedAll(w: Writer, rs: seq<Request>): Writer {
    if rs == [] then w else Applied(AppliedAll(w, rs[..|rs| - 1]), rs[|rs| - 1]).0
  }

  /** The last write to take effect reported an error, and it was not of what the writer
      believes is there. */
  predicate Astray(w: Writer, rs: seq<Request>) {
    if rs == [] then false
    else
      var before, r := rs[..|rs| - 1], rs[|rs| - 1];
      var b := AppliedAll(w, before);
      if r.cfg == b.last || !r.valid || !TookEffect(r.fail) then Astray(w, before)
      else r.fail.Some?
  }

  /** Over any run of requests of a writer that is new to its file, and as long as nobody else
      writes it: what the writer believes is there is there, exactly until a write takes
      effect and reports an error. */
  lemma {:induction false} BeliefIsRightExactly(w: Writer, rs: seq<Request>)
    requires w.last == "" && forall i :: 0 <= i < |rs| ==> rs[i].cfg != ""
    ensures var v := AppliedAll(w, rs);
            v.last != "" ==> (v.seen == Some(Inode(v.last, true)) <==> !Astray(w, rs))
  {
    if rs != [] {
      BeliefIsRightExactly(w, rs[..|rs| - 1]);
    }
  }

  /** So a successful Apply leaves the file as asked, unless it skipped a write astray. */
  lemma {:induction false} SuccessMeansWritten(w: Writer, rs: seq<Request>, r: Request)
    requires w.last == "" && r.cfg != "" && forall i :: 0 <= i < |rs| ==> rs[i].cfg != ""
    requires Applied(AppliedAll(w, rs), r).2
    ensures Applied(AppliedAll(w, rs), r).0.seen == Some(Inode(r.cfg, true)) <==>
            Applied(AppliedAll(w, rs), r).1 || !Astray(w, rs)
  {
    BeliefIsRightExactly(w, rs);
  }

  /** Only bytes that parse get into the file, and what was reported as applied is not written again. */
  lemma {:induction false} OnlyValidIsWritten(w: Writer, rs: seq<Request>)
    ensures var v := AppliedAll(w, rs);
            v.seen == w.seen || exists i :: 0 <= i < |rs| && rs[i].valid && v.seen == Some(Inode(rs[i].cfg, true))
    ensures forall r :: Applied(AppliedAll(w, rs), r).2 ==> !Applied(Applied(AppliedAll(w, rs), r).0, r).1
  {
    if rs != [] {
      var before := rs[..|rs| - 1];
      OnlyValidIsWritten(w, before);
      assert forall i :: 0 <= i < |before| ==> before[i] == rs[i];
    }
  }

  /** A config, a second one whose directory sync fails, then the first again: reported as
      unchanged and successful, with the second in the file. */
  lemma RevertIsSkipped()
    ensures var w := Writer("", None);
            var rs := [Request("a", true, None), Request("b", true, Some(SyncDir))];
            var r := Applied(AppliedAll(w, rs), Request("a", true, None));
            r == (Writer("a", Some(Inode("b", true))), false, true)
  {
    var w := Writer("", None);
    var rs := [Request("a", true, None), Request("b", true, Some(SyncDir))];
    assert rs[..1] == [Request("a", true, None)] && rs[..1][..0] == [];
    assert AppliedAll(w, rs[..1]) == Writer("a", Some(Inode("a", true)));
  }
}
