// The replacement record as a file: the protocol's save and clear are what the steps on disk come
// to (internal/apply/filewatch.go:43-76, internal/pipeline/manage.go:142-145, 178-180).
module RecordFile {
  import opened Wrappers
  import opened Replacement
  import opened AtomicFile

  /** How a record is written. */
  type Encoding = Record -> string

  function FileOf(r: Record, text: Encoding): Option<Inode> {
    if r.Absent? then None else Some(Inode(text(r), true))
  }

  function FilesOf(rs: set<Record>, text: Encoding): set<Option<Inode>> {
    set r | r in rs :: FileOf(r, text)
  }

  /** The path of the record in a world. */
  function Disk(w: World, text: Encoding): Moment {
    Moment(FileOf(w.record, text), FilesOf(w.kept, text))
  }

  /** An error after the rename loses the answer; any other error refuses the save. */
  function FaultOf(fail: Option<Step>): Fault {
    if fail.None? then Served else if TookEffect(fail) then Lost else Refused
  }

  /** Saving a record is AtomicWrite of its text, whatever step of that fails. */
  lemma SaveIsTheWrite(w: World, p: Pending, fail: Option<Step>, text: Encoding)
    ensures var (v, a) := AfterSave(w, p, FaultOf(fail));
            && Disk(v, text) == Written(Disk(w, text), text(Saved(p)), fail)
            && (a.Ok? <==> fail.None?)
  {
    var v := AfterSave(w, p, FaultOf(fail)).0;
    if fail.Some? && TookEffect(fail) {
      KeptWith(w.kept, Saved(p), text);
    }
  }

  lemma KeptWith(kept: set<Record>, r: Record, text: Encoding)
    ensures FilesOf(kept + {r}, text) == FilesOf(kept, text) + {FileOf(r, text)}
  {
    forall f ensures f in FilesOf(kept + {r}, text) <==> f in FilesOf(kept, text) + {FileOf(r, text)} {
      if f == FileOf(r, text) { assert r in kept + {r}; }
      if k :| k in kept && f == FileOf(k, text) { assert k in kept + {r}; }
    }
  }

  /** A supervisor that dies at any moment of the write leaves a world that the protocol has
      for some fault of the save. */
  lemma EveryMomentIsASave(w: World, p: Pending, m: Moment, text: Encoding)
    requires Whole(m, Disk(w, text), text(Saved(p)))
    ensures exists f :: m == Disk(AfterSave(w, p, f).0, text)
  {
    SaveIsTheWrite(w, p, None, text);
    SaveIsTheWrite(w, p, Some(SyncDir), text);
    SaveIsTheWrite(w, p, Some(CreateTemp), text);
    assert m == Disk(AfterSave(w, p, Served).0, text) || m == Disk(AfterSave(w, p, Lost).0, text)
        || m == Disk(AfterSave(w, p, Refused).0, text);
  }

  /** Clearing removes the entry and syncs nothing. */
  lemma ClearIsARemoval(w: World, text: Encoding)
    requires !w.record.Absent?
    ensures Disk(AfterClear(w, Served).0, text) == Moment(None, Disk(w, text).kept + {None})
  {
    KeptWith(w.kept, Absent, text);
  }

  /** After a loss of power the path names one of the entries that it might, for good. */
  lemma LossIsACrash(w: World, text: Encoding, m: Moment)
    ensures (exists r :: r in w.kept && m == Disk(AfterLoss(w, r), text)) <==>
            m.seen in Disk(w, text).kept && m.kept == {m.seen}
  {
    if m.seen in Disk(w, text).kept && m.kept == {m.seen} {
      var r :| r in w.kept && m.seen == FileOf(r, text);
      OneKept(r, text);
      assert m == Disk(AfterLoss(w, r), text);
    }
    if r :| r in w.kept && m == Disk(AfterLoss(w, r), text) { OneKept(r, text); }
  }

  lemma OneKept(r: Record, text: Encoding)
    ensures FilesOf({r}, text) == {FileOf(r, text)}
  {
    assert r in {r};
  }
}
