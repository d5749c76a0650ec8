// Volume discovery and path rewriting (internal/pipeline/volumes.go; internal/pipeline/
// reconcile.go, processArchiveVolumes and processSqliteVolumes).
module Volumes {
  import opened Wrappers
  import opened Docker
  import opened EngineSpec

  // ---- Paths and mounts ----

  /** strings.TrimRight(s, "/") */
  function TrimRight(s: string): (t: string)
    ensures t <= s
    ensures t != "" ==> t[|t| - 1] != '/'
  {
    if s != "" && s[|s| - 1] == '/' then TrimRight(s[..|s| - 1]) else s
  }

  /** buildDestMap: of two mounts with one destination the later counts. */
  function DestMap(mps: seq<MountPoint>): map<string, MountPoint> {
    if mps == [] then map[]
    else
      var last := mps[|mps| - 1];
      DestMap(mps[..|mps| - 1])[TrimRight(last.destination) := last]
  }

  method BuildDestMap(mounts: seq<MountPoint>) returns (m: map<string, MountPoint>)
    ensures m == DestMap(mounts)
  {
    m := map[];
    for i := 0 to |mounts|
      invariant m == DestMap(mounts[..i])
    {
      assert mounts[..i + 1][..i] == mounts[..i];
      m := m[TrimRight(mounts[i].destination) := mounts[i]];
    }
    assert mounts[..|mounts|] == mounts;
  }

  /** t[..n] is a whole directory on the way to t, or t itself. */
  predicate Ends(t: string, n: nat)
    requires n <= |t|
  {
    n == |t| || t[n] == '/'
  }

  /** The longest of the given non-empty paths that contains t, by its length; 0 if none. */
  function Longest(t: string, among: set<string>, n: nat): (best: nat)
    requires n <= |t|
    ensures best <= n
    ensures best > 0 ==> t[..best] in among && Ends(t, best)
    ensures forall k :: best < k <= n ==> !(t[..k] in among && Ends(t, k))
  {
    if n == 0 then 0
    else if t[..n] in among && Ends(t, n) then n
    else Longest(t, among, n - 1)
  }

  /** The destination of the mount that backs a path. */
  function Backing(path: string, m: map<string, MountPoint>): Option<string> {
    var t := TrimRight(path);
    var n := Longest(t, m.Keys, |t|);
    if t in m then Some(t) else if n > 0 then Some(t[..n]) else None
  }

  /** The search for the longest prefix finds it. */
  lemma LongestIs(t: string, among: set<string>, best: string)
    requires t !in among
    requires best != "" ==> best in among && best + "/" <= t
    requires forall d :: d in among && d + "/" <= t ==> |d| <= |best|
    ensures Longest(t, among, |t|) == |best| <= |t| && t[..|best|] == best
  {
    hide Longest;
    var n := Longest(t, among, |t|);
    assert t[..|t|] == t;
    if n > 0 {
      assert t[..n] + "/" <= t && |t[..n]| <= |best|;
    }
    if best != "" {
      assert t[..|best|] == best && Ends(t, |best|);
    }
  }

  method FindMountForPath(path: string, mounts: map<string, MountPoint>) returns (dst: Option<string>)
    ensures dst == Backing(path, mounts)
  {
    hide Longest, TrimRight;
    var t := TrimRight(path);
    if t in mounts {
      return Some(t);
    }
    var bestDst := "";
    var todo := mounts.Keys;
    while todo != {}
      invariant todo <= mounts.Keys
      invariant bestDst != "" ==> bestDst in mounts && bestDst + "/" <= t
      invariant forall d :: d in mounts && d !in todo && d + "/" <= t ==> |d| <= |bestDst|
      decreases todo
    {
      var d :| d in todo;
      todo := todo - {d};
      if d + "/" <= t && |d| > |bestDst| {
        bestDst := d;
      }
    }
    LongestIs(t, mounts.Keys, bestDst);
    if |bestDst| > 0 {
      return Some(bestDst);
    }
    return None;
  }

  function MountSource(mp: MountPoint): string {
    if mp.name != "" then mp.name else mp.source
  }

  function ConvertMountType(k: MountType): MountType {
    if k.Bind? || k.Tmpfs? then k else Volume
  }

  const VOLUMES := "/volumes/"

  /** The mount that makes a client's destination available to the engine. */
  function MountFor(m: map<string, MountPoint>, model: string, dst: string, readOnly: bool): MountDef
    requires dst in m
  {
    MountDef(ConvertMountType(m[dst].kind), MountSource(m[dst]), VOLUMES + model + dst, readOnly)
  }

  datatype Resolved = Resolved(mount: MountDef, path: string)

  function ResolvePath(m: map<string, MountPoint>, model: string, path: string, readOnly: bool): Option<Resolved> {
    match Backing(path, m)
    case None => None
    case Some(dst) => Some(Resolved(MountFor(m, model, dst, readOnly), VOLUMES + model + path))
  }

  method ResolvePathMount(destMap: map<string, MountPoint>, model: string, path: string, readOnly: bool)
    returns (r: Option<Resolved>)
    ensures r == ResolvePath(destMap, model, path, readOnly)
  {
    var dst := FindMountForPath(path, destMap);
    if dst.None? {
      return None;
    }
    return Some(Resolved(MountFor(destMap, model, dst.value, readOnly), VOLUMES + model + path));
  }

  // ---- One model ----

  /** The paths that have a mount behind them, rewritten; the others are skipped. */
  function Rewritten(m: map<string, MountPoint>, model: string, paths: seq<string>): seq<string> {
    if paths == [] then []
    else (if Backing(paths[0], m).Some? then [VOLUMES + model + paths[0]] else []) + Rewritten(m, model, paths[1..])
  }

  /** The mounts that some paths need. */
  function Needed(m: map<string, MountPoint>, model: string, paths: set<string>, readOnly: bool): set<MountDef> {
    set p | p in paths && ResolvePath(m, model, p, readOnly).Some? :: ResolvePath(m, model, p, readOnly).value.mount
  }

  ghost predicate IsList<T(!new)>(s: seq<T>, of: set<T>) {
    forall x :: x in s <==> x in of
  }

  lemma {:induction false} RewrittenSnoc(m: map<string, MountPoint>, model: string, paths: seq<string>, p: string)
    ensures Rewritten(m, model, paths + [p]) == Rewritten(m, model, paths)
            + (if Backing(p, m).Some? then [VOLUMES + model + p] else [])
  {
    if paths == [] {
      assert paths + [p] == [p];
    } else {
      assert (paths + [p])[1..] == paths[1..] + [p];
      RewrittenSnoc(m, model, paths[1..], p);
    }
  }

  /** One mount needed for one target: dropping repeated targets drops repeated mounts. */
  lemma SameTargetSameMount(m: map<string, MountPoint>, model: string, ps: set<string>, readOnly: bool, d: MountDef,
                            e: MountDef)
    requires d in Needed(m, model, ps, readOnly) && e in Needed(m, model, ps, readOnly)
    requires d.target == e.target
    ensures d == e
  {
    var p :| p in ps && ResolvePath(m, model, p, readOnly).Some? && ResolvePath(m, model, p, readOnly).value.mount == d;
    var q :| q in ps && ResolvePath(m, model, q, readOnly).Some? && ResolvePath(m, model, q, readOnly).value.mount == e;
    var a, b := Backing(p, m).value, Backing(q, m).value;
    assert (VOLUMES + model + a)[|VOLUMES + model|..] == a && (VOLUMES + model + b)[|VOLUMES + model|..] == b;
  }

  function SetOf(s: seq<string>): set<string> {
    set x | x in s
  }

  /** The mounts collected so far: what is needed, each target once, all targets seen. */
  ghost predicate Collected(mounts: seq<MountDef>, seen: set<string>, needed: set<MountDef>) {
    && IsList(mounts, needed) && DistinctTargets(mounts)
    && seen == set d | d in needed :: d.target
  }

  lemma NeededMore(m: map<string, MountPoint>, model: string, ps: set<string>, p: string, readOnly: bool)
    ensures Needed(m, model, ps + {p}, readOnly) ==
            Needed(m, model, ps, readOnly) +
            (if ResolvePath(m, model, p, readOnly).Some? then {ResolvePath(m, model, p, readOnly).value.mount} else {})
  {
  }

  /** One more path: its mount is added unless its target was seen. */
  lemma Collect(m: map<string, MountPoint>, model: string, ps: set<string>, p: string, readOnly: bool,
                mounts: seq<MountDef>, seen: set<string>)
    requires Collected(mounts, seen, Needed(m, model, ps, readOnly))
    ensures var r := ResolvePath(m, model, p, readOnly);
            var needed := Needed(m, model, ps + {p}, readOnly);
            if r.Some? && r.value.mount.target !in seen
            then Collected(mounts + [r.value.mount], seen + {r.value.mount.target}, needed)
            else Collected(mounts, seen, needed)
  {
    NeededMore(m, model, ps, p, readOnly);
    var r := ResolvePath(m, model, p, readOnly);
    if r.Some? {
      var d := r.value.mount;
      if d.target in seen {
        var e :| e in Needed(m, model, ps, readOnly) && e.target == d.target;
        SameTargetSameMount(m, model, ps + {p}, readOnly, d, e);
      } else {
        forall i | 0 <= i < |mounts| ensures mounts[i].target != d.target {
          assert mounts[i] in mounts;
        }
      }
    }
  }

  method DiscoverArchiveVolumes(clientMounts: seq<MountPoint>, model: string, includes: seq<string>)
    returns (mounts: seq<MountDef>, rewritten: seq<string>)
    ensures rewritten == Rewritten(DestMap(clientMounts), model, includes)
    ensures IsList(mounts, Needed(DestMap(clientMounts), model, SetOf(includes), true))
    ensures DistinctTargets(mounts)
  {
    var destMap := BuildDestMap(clientMounts);
    mounts, rewritten := [], [];
    var seen: set<string> := {};
    for i := 0 to |includes|
      invariant rewritten == Rewritten(destMap, model, includes[..i])
      invariant Collected(mounts, seen, Needed(destMap, model, SetOf(includes[..i]), true))
    {
      assert includes[..i + 1] == includes[..i] + [includes[i]];
      assert SetOf(includes[..i + 1]) == SetOf(includes[..i]) + {includes[i]};
      RewrittenSnoc(destMap, model, includes[..i], includes[i]);
      Collect(destMap, model, SetOf(includes[..i]), includes[i], true, mounts, seen);
      var r := ResolvePathMount(destMap, model, includes[i], true);
      if r.None? {
        continue;
      }
      if r.value.mount.target !in seen {
        seen := seen + {r.value.mount.target};
        mounts := mounts + [r.value.mount];
      }
      rewritten := rewritten + [r.value.path];
    }
    assert includes[..|includes|] == includes;
  }

  datatype Database = Database(kind: string, path: string)

  /** A sqlite database whose path has not been rewritten yet. */
  predicate Untransformed(db: Database) {
    db.kind == "sqlite" && db.path != "" && !(VOLUMES <= db.path)
  }

  function SqlitePaths(dbs: map<string, Database>): set<string> {
    set id | id in dbs && Untransformed(dbs[id]) :: dbs[id].path
  }

  function RewriteDb(m: map<string, MountPoint>, model: string, db: Database): Database {
    if Untransformed(db) && Backing(db.path, m).Some? then db.(path := VOLUMES + model + db.path) else db
  }

  ghost function PathsBut(dbs: map<string, Database>, todo: set<string>): set<string> {
    set id | id in dbs && id !in todo && Untransformed(dbs[id]) :: dbs[id].path
  }

  ghost predicate RewrittenBut(m: map<string, MountPoint>, model: string, dbs: map<string, Database>,
                               rewritten: map<string, Database>, todo: set<string>) {
    && rewritten.Keys == dbs.Keys
    && forall id :: id in dbs ==>
         rewritten[id] == if id in todo then dbs[id] else RewriteDb(m, model, dbs[id])
  }

  lemma RewriteStep(m: map<string, MountPoint>, model: string, dbs: map<string, Database>,
                    rewritten: map<string, Database>, todo: set<string>, id: string)
    requires id in todo && todo <= dbs.Keys && RewrittenBut(m, model, dbs, rewritten, todo)
    ensures RewrittenBut(m, model, dbs, rewritten[id := RewriteDb(m, model, dbs[id])], todo - {id})
    ensures RewriteDb(m, model, dbs[id]) == dbs[id] ==> RewrittenBut(m, model, dbs, rewritten, todo - {id})
    ensures PathsBut(dbs, todo - {id}) ==
            if Untransformed(dbs[id]) then PathsBut(dbs, todo) + {dbs[id].path} else PathsBut(dbs, todo)
  {
  }

  lemma NothingNeeded(m: map<string, MountPoint>, model: string, readOnly: bool)
    ensures Needed(m, model, {}, readOnly) == {}
  {
  }

  method SqliteMountsForModel(destMap: map<string, MountPoint>, model: string, dbs: map<string, Database>)
    returns (mounts: seq<MountDef>, rewritten: map<string, Database>)
    ensures rewritten == map id | id in dbs :: RewriteDb(destMap, model, dbs[id])
    ensures IsList(mounts, Needed(destMap, model, SqlitePaths(dbs), false))
    ensures DistinctTargets(mounts)
  {
    hide Needed;
    mounts, rewritten := [], dbs;
    var seen: set<string> := {};
    var todo := dbs.Keys;
    NothingNeeded(destMap, model, false);
    assert PathsBut(dbs, todo) == {};
    while todo != {}
      invariant todo <= dbs.Keys
      invariant RewrittenBut(destMap, model, dbs, rewritten, todo)
      invariant Collected(mounts, seen, Needed(destMap, model, PathsBut(dbs, todo), false))
      decreases todo
    {
      hide RewrittenBut, Collected, PathsBut;
      var id :| id in todo;
      RewriteStep(destMap, model, dbs, rewritten, todo, id);
      ghost var done := PathsBut(dbs, todo);
      todo := todo - {id};
      var db := dbs[id];
      if db.kind != "sqlite" || db.path == "" || VOLUMES <= db.path {
        continue;
      }
      Collect(destMap, model, done, db.path, false, mounts, seen);
      var r := ResolvePathMount(destMap, model, db.path, false);
      if r.None? {
        continue;
      }
      rewritten := rewritten[id := db.(path := r.value.path)];
      if r.value.mount.target !in seen {
        seen := seen + {r.value.mount.target};
        mounts := mounts + [r.value.mount];
      }
    }
    assert rewritten == map id | id in dbs :: RewriteDb(destMap, model, dbs[id]);
    assert PathsBut(dbs, {}) == SqlitePaths(dbs);
  }

  // ---- All models ----

  function Key(d: MountDef): string {
    d.source + ":" + d.target
  }

  /** applyArchiveVolumes keeps the first mount of every source:target key. */
  function FirstByKey(ds: seq<MountDef>): seq<MountDef> {
    if ds == [] then [] else AddByKey(FirstByKey(ds[..|ds| - 1]), ds[|ds| - 1])
  }

  function AddByKey(out: seq<MountDef>, d: MountDef): seq<MountDef> {
    if exists e :: e in out && Key(e) == Key(d) then out else out + [d]
  }

  method DedupByKey(ds: seq<MountDef>) returns (out: seq<MountDef>)
    ensures out == FirstByKey(ds)
  {
    var dedup: set<string> := {};
    out := [];
    for i := 0 to |ds|
      invariant out == FirstByKey(ds[..i])
      invariant dedup == set e | e in out :: Key(e)
    {
      assert ds[..i + 1][..i] == ds[..i];
      if Key(ds[i]) !in dedup {
        dedup := dedup + {Key(ds[i])};
        out := out + [ds[i]];
      }
    }
    assert ds[..|ds|] == ds;
  }

  /** Two mounts of one target: the writable one wins, in the place of the first. */
  function ByTarget(ds: seq<MountDef>): seq<MountDef> {
    if ds == [] then []
    else AddByTarget(ByTarget(ds[..|ds| - 1]), ds[|ds| - 1])
  }

  function AddByTarget(out: seq<MountDef>, d: MountDef): seq<MountDef> {
    if out == [] then [d]
    else if out[0].target == d.target then (if out[0].readOnly && !d.readOnly then [d] + out[1..] else out)
    else [out[0]] + AddByTarget(out[1..], d)
  }

  lemma {:induction false} AddByTargetAt(out: seq<MountDef>, d: MountDef, i: nat)
    requires DistinctTargets(out)
    requires i < |out| && out[i].target == d.target
    ensures AddByTarget(out, d) == if out[i].readOnly && !d.readOnly then out[i := d] else out
  {
    if i > 0 {
      assert out[0].target != out[i].target;
      AddByTargetAt(out[1..], d, i - 1);
    }
  }

  lemma {:induction false} AddByTargetNew(out: seq<MountDef>, d: MountDef)
    requires forall i :: 0 <= i < |out| ==> out[i].target != d.target
    ensures AddByTarget(out, d) == out + [d]
  {
    if out != [] {
      AddByTargetNew(out[1..], d);
    }
  }

  /** idx says where each target is. */
  ghost predicate Indexed(out: seq<MountDef>, idx: map<string, nat>) {
    && DistinctTargets(out)
    && (forall t :: t in idx ==> idx[t] < |out| && out[idx[t]].target == t)
    && (forall i :: 0 <= i < |out| ==> out[i].target in idx)
  }

  lemma IndexedUpdate(out: seq<MountDef>, idx: map<string, nat>, d: MountDef, i: nat)
    requires Indexed(out, idx) && i < |out| && out[i].target == d.target
    ensures Indexed(out[i := d], idx)
  {
    var out' := out[i := d];
    assert forall k :: 0 <= k < |out| ==> out'[k].target == out[k].target;
  }

  lemma IndexedAppend(out: seq<MountDef>, idx: map<string, nat>, d: MountDef)
    requires Indexed(out, idx) && d.target !in idx
    ensures Indexed(out + [d], idx[d.target := |out|])
    ensures AddByTarget(out, d) == out + [d]
  {
    AddByTargetNew(out, d);
  }

  method DedupMountsByTarget(mounts: seq<MountDef>) returns (out: seq<MountDef>)
    ensures out == ByTarget(mounts)
    ensures DistinctTargets(out)
  {
    var idx: map<string, nat> := map[];
    out := [];
    for k := 0 to |mounts|
      invariant out == ByTarget(mounts[..k])
      invariant Indexed(out, idx)
    {
      assert mounts[..k + 1][..k] == mounts[..k];
      var m := mounts[k];
      if m.target in idx {
        var i := idx[m.target];
        AddByTargetAt(out, m, i);
        IndexedUpdate(out, idx, m, i);
        if out[i].readOnly && !m.readOnly {
          out := out[i := m];
        }
        continue;
      }
      IndexedAppend(out, idx, m);
      idx := idx[m.target := |out|];
      out := out + [m];
    }
    assert mounts[..|mounts|] == mounts;
  }

  /** e stands in for d: the same target, and writable if d is. */
  ghost predicate Serves(e: MountDef, d: MountDef) {
    e.target == d.target && (!d.readOnly ==> !e.readOnly)
  }

  ghost predicate AllServed(ds: seq<MountDef>, out: seq<MountDef>) {
    forall d :: d in ds ==> exists e :: e in out && Serves(e, d)
  }

  lemma AddByTargetMeaning(out: seq<MountDef>, d: MountDef)
    requires DistinctTargets(out)
    ensures forall e :: e in AddByTarget(out, d) ==> e in out || e == d
    ensures AllServed(out + [d], AddByTarget(out, d))
    ensures DistinctTargets(AddByTarget(out, d))
  {
    hide AllServed, AddByTarget;
    if i :| 0 <= i < |out| && out[i].target == d.target {
      AddByTargetAt(out, d, i);
      ServedAt(out, d, i);
    } else {
      AddByTargetNew(out, d);
      ServedByItself(out + [d]);
    }
  }

  lemma ServedAt(out: seq<MountDef>, d: MountDef, i: nat)
    requires i < |out| && out[i].target == d.target
    ensures AllServed(out + [d], if out[i].readOnly && !d.readOnly then out[i := d] else out)
  {
    var next := if out[i].readOnly && !d.readOnly then out[i := d] else out;
    forall e | e in out + [d] ensures exists f :: f in next && Serves(f, e) {
      if e in out {
        var j :| 0 <= j < |out| && out[j] == e;
        assert next[j] in next && Serves(next[j], e);
      } else {
        assert next[i] in next && Serves(next[i], d);
      }
    }
  }

  lemma ServedByItself(ds: seq<MountDef>)
    ensures AllServed(ds, ds)
  {
    assert forall d :: d in ds ==> Serves(d, d);
  }

  lemma ServedThrough(a: seq<MountDef>, b: seq<MountDef>, c: seq<MountDef>)
    requires AllServed(a, b) && AllServed(b, c)
    ensures AllServed(a, c)
  {
    forall d | d in a ensures exists e :: e in c && Serves(e, d) {
      var e :| e in b && Serves(e, d);
      var f :| f in c && Serves(f, e);
      assert Serves(f, d);
    }
  }

  lemma ServedMore(a: seq<MountDef>, out: seq<MountDef>, d: MountDef)
    requires AllServed(a, out)
    ensures AllServed(a + [d], out + [d])
  {
    forall x | x in a + [d] ensures exists e :: e in out + [d] && Serves(e, x) {
      if x in a {
        var e :| e in out && Serves(e, x);
        assert e in out + [d];
      } else {
        assert x in out + [d] && Serves(x, x);
      }
    }
  }

  /** What deduplication means: every mount comes from the list, every target of the list
      is there once, and it is writable if the list asks for that anywhere. */
  lemma {:induction false} ByTargetMeaning(ds: seq<MountDef>)
    ensures DistinctTargets(ByTarget(ds))
    ensures forall d :: d in ByTarget(ds) ==> d in ds
    ensures AllServed(ds, ByTarget(ds))
  {
    if ds != [] {
      var pre, last := ds[..|ds| - 1], ds[|ds| - 1];
      ByTargetMeaning(pre);
      AddByTargetMeaning(ByTarget(pre), last);
      assert ds == pre + [last];
      ServedMore(pre, ByTarget(pre), last);
      ServedThrough(ds, ByTarget(pre) + [last], ByTarget(ds));
    }
  }
}
