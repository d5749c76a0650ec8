// The mounts that all models together need, as volume discovery collects them
// (internal/pipeline/reconcile.go:141-149, 361-432; internal/pipeline/volumes.go:139-157, 207-250).
module Collecting {
  import opened Wrappers
  import opened Text
  import opened Docker
  import opened EngineSpec
  import opened Volumes

  function Targets(ds: seq<MountDef>): set<string> {
    set d | d in ds :: d.target
  }

  function First(ds: seq<MountDef>, target: string): (d: MountDef)
    requires target in Targets(ds)
    ensures d in ds && d.target == target
  {
    if ds[0].target == target then ds[0] else First(ds[1..], target)
  }

  /** A model, the container it was rendered from, and its paths. */
  datatype Client = Client(model: string, mounts: seq<MountPoint>, includes: seq<string>, dbs: map<string, Database>)

  function ArchiveNeeds(c: Client): set<MountDef> {
    Needed(DestMap(c.mounts), c.model, SetOf(c.includes), true)
  }

  function SqliteNeeds(c: Client): set<MountDef> {
    Needed(DestMap(c.mounts), c.model, SqlitePaths(c.dbs), false)
  }

  ghost predicate Wants(cs: seq<Client>, d: MountDef) {
    exists i :: 0 <= i < |cs| && (d in ArchiveNeeds(cs[i]) || d in SqliteNeeds(cs[i]))
  }

  /** The mount at d's target stands in for d. */
  ghost predicate ServedBy(managed: seq<MountDef>, d: MountDef) {
    d.target in Targets(managed) && Serves(First(managed, d.target), d)
  }

  /** The managed mounts: only wanted ones, each wanted one served, no target twice. */
  ghost predicate Serving(managed: seq<MountDef>, cs: seq<Client>) {
    && DistinctTargets(managed)
    && (forall d :: d in managed ==> Wants(cs, d))
    && (forall d :: Wants(cs, d) ==> ServedBy(managed, d))
  }

  /** Every mount that a database wants is served. */
  ghost predicate DatabasesServed(managed: seq<MountDef>, cs: seq<Client>) {
    forall d :: SqliteWants(cs, d) ==> ServedBy(managed, d)
  }

  ghost predicate KeyServed(managed: seq<MountDef>, cs: seq<Client>, key: string) {
    exists e :: ArchiveWants(cs, e) && Key(e) == key && ServedBy(managed, e)
  }

  /** For every mount that an archive wants, one of its key is served. */
  ghost predicate ArchivesServed(managed: seq<MountDef>, cs: seq<Client>) {
    forall d :: ArchiveWants(cs, d) ==> KeyServed(managed, cs, Key(d))
  }

  /** What a model is written with: if no include has a mount, the includes stay as they are. */
  function RewriteClient(c: Client): Client {
    var m := DestMap(c.mounts);
    var includes := Rewritten(m, c.model, c.includes);
    c.(includes := if includes == [] then c.includes else includes,
       dbs := map id | id in c.dbs :: RewriteDb(m, c.model, c.dbs[id]))
  }

  // ---- The key of a mount ----

  /** The piece u of text belongs to the source of one mount and to the target of the other. */
  ghost predicate SplitTwice(d: MountDef, e: MountDef, u: string) {
    Straddles(d.source, d.target, e.source, e.target, ':', u)
  }

  /** Two mounts share a key, source:target, exactly if they have the same source and target,
      or there is such a piece. */
  lemma KeyCollidesExactly(d: MountDef, e: MountDef)
    ensures Key(d) == Key(e) <==>
            || (d.source == e.source && d.target == e.target)
            || (exists u :: SplitTwice(d, e, u)) || (exists u :: SplitTwice(e, d, u))
  {
    JoinedAlikeExactly(d.source, d.target, e.source, e.target, ':');
    assert forall u :: SplitTwice(d, e, u) <==> Straddles(d.source, d.target, e.source, e.target, ':', u);
    assert forall u :: SplitTwice(e, d, u) <==> Straddles(e.source, e.target, d.source, d.target, ':', u);
  }

  lemma SplitSame(d: MountDef, e: MountDef, u: string)
    requires SplitTwice(d, e, u)
    ensures Key(d) == Key(e)
  {
    StraddlesJoin(d.source, d.target, e.source, e.target, ':', u);
  }

  /** With one mount and an include at its destination, an archive asks for that mount. */
  lemma OneNeed(model: string, mp: MountPoint)
    requires mp.destination != "" && mp.destination[|mp.destination| - 1] != '/'
    ensures var c := Client(model, [mp], [mp.destination], map[]);
            ArchiveNeeds(c) == {MountDef(ConvertMountType(mp.kind), MountSource(mp), VOLUMES + model + mp.destination,
                true)}
  {
    var c, dst := Client(model, [mp], [mp.destination], map[]), mp.destination;
    assert [mp][..0] == [] && DestMap([mp]) == map[dst := mp];
    var d := MountFor(DestMap([mp]), model, dst, true);
    assert Backing(dst, DestMap([mp])) == Some(dst);
    assert SetOf([dst]) == {dst};
    assert forall e :: e in ArchiveNeeds(c) <==> e == d;
  }

  /** Two clients of which the second gets no mount: its key was seen. */
  lemma MarkedSourcesCollide()
    ensures var a := MountPoint(Bind, "", "/a", "/volumes/n/x", true);
            var b := MountPoint(Bind, "", "/a:/volumes/m", "/x", true);
            var d := MountDef(Bind, "/a", "/volumes/m:/volumes/n/x", true);
            var e := MountDef(Bind, "/a:/volumes/m", "/volumes/n/x", true);
            && ArchiveNeeds(Client("m:", [a], [a.destination], map[])) == {d}
            && ArchiveNeeds(Client("n", [b], [b.destination], map[])) == {e}
            && SplitTwice(d, e, "/volumes/m") && FirstByKey([d, e]) == [d]
  {
    hide ArchiveNeeds, FirstByKey, Key, SplitTwice;
    OneNeed("m:", MountPoint(Bind, "", "/a", "/volumes/n/x", true));
    OneNeed("n", MountPoint(Bind, "", "/a:/volumes/m", "/x", true));
    var d := MountDef(Bind, "/a", "/volumes/m:/volumes/n/x", true);
    var e := MountDef(Bind, "/a:/volumes/m", "/volumes/n/x", true);
    MarkedTargets();
    MarkedSplit(d, e);
    SecondIsDropped(d, e, "/volumes/m");
  }

  lemma MarkedTargets()
    ensures VOLUMES + "m:" + "/volumes/n/x" == "/volumes/m:/volumes/n/x" && VOLUMES + "n" + "/x" == "/volumes/n/x"
  {
  }

  lemma MarkedSplit(d: MountDef, e: MountDef)
    requires d.source == "/a" && d.target == "/volumes/m:/volumes/n/x"
    requires e.source == "/a:/volumes/m" && e.target == "/volumes/n/x"
    ensures SplitTwice(d, e, "/volumes/m")
  {
    assert "/a" + [':'] + "/volumes/m" == "/a:/volumes/m";
    assert "/volumes/m" + [':'] + "/volumes/n/x" == "/volumes/m:/volumes/n/x";
  }

  lemma SecondIsDropped(d: MountDef, e: MountDef, u: string)
    requires SplitTwice(d, e, u)
    ensures FirstByKey([d, e]) == [d]
  {
    SplitSame(d, e, u);
    assert [d, e][..1] == [d] && [d][..0] == [];
    assert FirstByKey([d]) == [d];
  }

  // ---- One mount for each key ----

  ghost predicate DistinctKeys(ds: seq<MountDef>) {
    forall i, j :: 0 <= i < j < |ds| ==> Key(ds[i]) != Key(ds[j])
  }

  ghost predicate HasKey(ds: seq<MountDef>, key: string) {
    exists e :: e in ds && Key(e) == key
  }

  lemma {:induction false} FirstByKeyMeaning(ds: seq<MountDef>)
    ensures forall d :: d in FirstByKey(ds) ==> d in ds
    ensures forall d :: d in ds ==> HasKey(FirstByKey(ds), Key(d))
    ensures DistinctKeys(FirstByKey(ds))
  {
    if ds != [] {
      var pre, last := ds[..|ds| - 1], ds[|ds| - 1];
      assert ds == pre + [last];
      FirstByKeyMeaning(pre);
      AddByKeyMeaning(FirstByKey(pre), last);
    }
  }

  lemma AddByKeyMeaning(out: seq<MountDef>, d: MountDef)
    requires DistinctKeys(out)
    ensures forall e :: e in AddByKey(out, d) ==> e in out || e == d
    ensures HasKey(AddByKey(out, d), Key(d)) && DistinctKeys(AddByKey(out, d))
    ensures forall key :: HasKey(out, key) ==> HasKey(AddByKey(out, d), key)
  {
    var added := AddByKey(out, d);
    assert forall e :: e in out ==> e in added;
    if !(exists e :: e in out && Key(e) == Key(d)) {
      assert d in added;
      forall i | 0 <= i < |out| ensures Key(out[i]) != Key(d) { assert out[i] in out; }
    }
  }

  // ---- All models ----

  lemma {:induction false} DestMapValues(mps: seq<MountPoint>, dst: string)
    requires dst in DestMap(mps)
    ensures exists i :: 0 <= i < |mps| && DestMap(mps)[dst] == mps[i] && TrimRight(mps[i].destination) == dst
  {
    var last := |mps| - 1;
    if dst == TrimRight(mps[last].destination) {
      assert DestMap(mps)[dst] == mps[last];
    } else {
      DestMapValues(mps[..last], dst);
      var i :| 0 <= i < last && DestMap(mps[..last])[dst] == mps[..last][i]
          && TrimRight(mps[..last][i].destination) == dst;
      assert mps[i] == mps[..last][i];
    }
  }

  ghost predicate ArchiveWants(cs: seq<Client>, d: MountDef) {
    exists i :: 0 <= i < |cs| && d in ArchiveNeeds(cs[i])
  }

  ghost predicate SqliteWants(cs: seq<Client>, d: MountDef) {
    exists i :: 0 <= i < |cs| && d in SqliteNeeds(cs[i])
  }

  lemma ArchiveWantsMore(cs: seq<Client>, c: Client, d: MountDef)
    ensures ArchiveWants(cs + [c], d) <==> ArchiveWants(cs, d) || d in ArchiveNeeds(c)
  {
    var more := cs + [c];
    assert more[|cs|] == c;
    if ArchiveWants(cs, d) {
      var i :| 0 <= i < |cs| && d in ArchiveNeeds(cs[i]);
      assert more[i] == cs[i];
    }
  }

  lemma SqliteWantsMore(cs: seq<Client>, c: Client, d: MountDef)
    ensures SqliteWants(cs + [c], d) <==> SqliteWants(cs, d) || d in SqliteNeeds(c)
  {
    var more := cs + [c];
    assert more[|cs|] == c;
    if SqliteWants(cs, d) {
      var i :| 0 <= i < |cs| && d in SqliteNeeds(cs[i]);
      assert more[i] == cs[i];
    }
  }

  /** Nothing but what the archives want, and all of it. */
  ghost predicate OnlyForArchives(mounts: seq<MountDef>, cs: seq<Client>) {
    forall d :: d in mounts ==> ArchiveWants(cs, d)
  }

  ghost predicate AllForArchives(mounts: seq<MountDef>, cs: seq<Client>) {
    forall d :: ArchiveWants(cs, d) ==> exists e :: e in mounts && Serves(e, d)
  }

  /** No two archive mounts for different targets share a key. */
  ghost predicate KeysApart(cs: seq<Client>) {
    forall d, e :: ArchiveWants(cs, d) && ArchiveWants(cs, e) && Key(d) == Key(e) ==> d.target == e.target
  }

  ghost predicate AllKeys(mounts: seq<MountDef>, cs: seq<Client>) {
    forall d :: ArchiveWants(cs, d) ==> HasKey(mounts, Key(d))
  }

  /** The includes of each client that can be rewritten, and the mounts for all of them. */
  method ProcessArchiveVolumes(cs: seq<Client>) returns (mounts: seq<MountDef>, includes: seq<seq<string>>)
    ensures OnlyForArchives(mounts, cs) && AllKeys(mounts, cs) && DistinctKeys(mounts)
    ensures KeysApart(cs) ==> AllForArchives(mounts, cs)
    ensures |includes| == |cs|
    ensures forall i :: 0 <= i < |cs| ==> includes[i] == Rewritten(DestMap(cs[i].mounts), cs[i].model, cs[i].includes)
  {
    hide DestMap, FirstByKey, Rewritten, Needed;
    var all: seq<MountDef> := [];
    includes := [];
    for i := 0 to |cs|
      invariant forall d :: d in all <==> ArchiveWants(cs[..i], d)
      invariant |includes| == i
      invariant forall k :: 0 <= k < i ==> includes[k] == Rewritten(DestMap(cs[k].mounts), cs[k].model, cs[k].includes)
    {
      var ms, rewritten := DiscoverArchiveVolumes(cs[i].mounts, cs[i].model, cs[i].includes);
      assert cs[..i + 1] == cs[..i] + [cs[i]];
      forall d { ArchiveWantsMore(cs[..i], cs[i], d); }
      assert IsList(ms, ArchiveNeeds(cs[i]));
      all, includes := all + ms, includes + [rewritten];
    }
    assert cs[..|cs|] == cs;
    FirstByKeyMeaning(all);
    mounts := DedupByKey(all);
    KeysServe(cs, mounts);
  }

  lemma KeysServe(cs: seq<Client>, mounts: seq<MountDef>)
    requires OnlyForArchives(mounts, cs) && AllKeys(mounts, cs)
    ensures KeysApart(cs) ==> AllForArchives(mounts, cs)
  {
    if KeysApart(cs) {
      forall d | ArchiveWants(cs, d) ensures exists e :: e in mounts && Serves(e, d) {
        assert HasKey(mounts, Key(d));
        var e :| e in mounts && Key(e) == Key(d);
        var i :| 0 <= i < |cs| && d in ArchiveNeeds(cs[i]);
        assert d.readOnly && Serves(e, d);
      }
    }
  }

  method ProcessSqliteVolumes(cs: seq<Client>) returns (mounts: seq<MountDef>, dbs: seq<map<string, Database>>)
    ensures forall d :: d in mounts <==> SqliteWants(cs, d)
    ensures |dbs| == |cs| && forall i :: 0 <= i < |cs| ==> dbs[i] == RewriteClient(cs[i]).dbs
  {
    hide DestMap, SqlitePaths, RewriteDb, ResolvePath;
    mounts, dbs := [], [];
    for i := 0 to |cs|
      invariant forall d :: d in mounts <==> SqliteWants(cs[..i], d)
      invariant |dbs| == i && forall k :: 0 <= k < i ==> dbs[k] == RewriteClient(cs[k]).dbs
    {
      var destMap := BuildDestMap(cs[i].mounts);
      var ms, rewritten := SqliteMountsForModel(destMap, cs[i].model, cs[i].dbs);
      assert cs[..i + 1] == cs[..i] + [cs[i]];
      forall d { SqliteWantsMore(cs[..i], cs[i], d); }
      assert IsList(ms, SqliteNeeds(cs[i]));
      mounts := mounts + ms;
      dbs := dbs + [rewritten];
    }
    assert cs[..|cs|] == cs;
  }

  /** Both phases over all models, then the deduplication of their mounts. */
  method CollectMounts(cs: seq<Client>)
    returns (managed: seq<MountDef>, includes: seq<seq<string>>, dbs: seq<map<string, Database>>)
    ensures DistinctTargets(managed) && forall d :: d in managed ==> Wants(cs, d)
    ensures DatabasesServed(managed, cs) && ArchivesServed(managed, cs)
    ensures KeysApart(cs) ==> Serving(managed, cs)
    ensures |includes| == |cs| && |dbs| == |cs|
    ensures forall i :: 0 <= i < |cs| ==> includes[i] == Rewritten(DestMap(cs[i].mounts), cs[i].model, cs[i].includes)
    ensures forall i :: 0 <= i < |cs| ==> dbs[i] == RewriteClient(cs[i]).dbs
  {
    hide OnlyForArchives, AllKeys, AllForArchives, DistinctKeys, ArchiveWants, SqliteWants, Serving, DatabasesServed,
         ArchivesServed, KeysApart, Wants, ByTarget, Rewritten, DestMap, RewriteDb;
    var archive, sqlite: seq<MountDef>;
    archive, includes := ProcessArchiveVolumes(cs);
    sqlite, dbs := ProcessSqliteVolumes(cs);
    managed := DedupMountsByTarget(archive + sqlite);
    OnlyWanted(cs, archive, sqlite);
    EachServedFrom(cs, archive, sqlite);
    if KeysApart(cs) { ServingFrom(cs, archive, sqlite); }
  }

  lemma FirstIs(ds: seq<MountDef>, e: MountDef)
    requires DistinctTargets(ds) && e in ds
    ensures e.target in Targets(ds) && First(ds, e.target) == e
  {
    var f := First(ds, e.target);
    var a :| 0 <= a < |ds| && ds[a] == e;
    var b :| 0 <= b < |ds| && ds[b] == f;
    assert a == b;
  }

  lemma ServingFrom(cs: seq<Client>, archive: seq<MountDef>, sqlite: seq<MountDef>)
    requires OnlyForArchives(archive, cs) && AllForArchives(archive, cs)
    requires forall d :: d in sqlite <==> SqliteWants(cs, d)
    ensures Serving(ByTarget(archive + sqlite), cs)
  {
    assert DistinctTargets(ByTarget(archive + sqlite)) by { ByTargetMeaning(archive + sqlite); }
    OnlyWanted(cs, archive, sqlite);
    forall d | Wants(cs, d) ensures ServedBy(ByTarget(archive + sqlite), d) {
      WantServed(cs, archive, sqlite, d);
    }
  }

  lemma OnlyWanted(cs: seq<Client>, archive: seq<MountDef>, sqlite: seq<MountDef>)
    requires OnlyForArchives(archive, cs) && forall d :: d in sqlite ==> SqliteWants(cs, d)
    ensures forall d :: d in ByTarget(archive + sqlite) ==> Wants(cs, d)
  {
    forall d | d in ByTarget(archive + sqlite) ensures Wants(cs, d) {
      assert d in archive + sqlite by { ByTargetMeaning(archive + sqlite); }
      WantsEither(cs, d);
    }
  }

  lemma EachServedFrom(cs: seq<Client>, archive: seq<MountDef>, sqlite: seq<MountDef>)
    requires OnlyForArchives(archive, cs) && AllKeys(archive, cs) && forall d :: d in sqlite <==> SqliteWants(cs, d)
    ensures DatabasesServed(ByTarget(archive + sqlite), cs) && ArchivesServed(ByTarget(archive + sqlite), cs)
  {
    hide SqliteWants, ArchiveWants, ServedBy, ByTarget, Key;
    forall d | SqliteWants(cs, d) ensures ServedBy(ByTarget(archive + sqlite), d) {
      ListedIsServed(archive + sqlite, d);
    }
    forall d | ArchiveWants(cs, d) ensures KeyServed(ByTarget(archive + sqlite), cs, Key(d)) {
      assert HasKey(archive, Key(d));
      var e :| e in archive && Key(e) == Key(d);
      ListedIsServed(archive + sqlite, e);
    }
  }

  lemma ListedIsServed(ds: seq<MountDef>, d: MountDef)
    requires d in ds
    ensures ServedBy(ByTarget(ds), d)
  {
    hide ByTarget, AllServed, DistinctTargets, ServedBy;
    ByTargetMeaning(ds);
    OneServes(ds, ByTarget(ds), d);
  }

  lemma OneServes(ds: seq<MountDef>, out: seq<MountDef>, d: MountDef)
    requires AllServed(ds, out) && DistinctTargets(out) && d in ds
    ensures ServedBy(out, d)
  {
    var f :| f in out && Serves(f, d);
    FirstIs(out, f);
  }

  lemma WantServed(cs: seq<Client>, archive: seq<MountDef>, sqlite: seq<MountDef>, d: MountDef)
    requires AllForArchives(archive, cs) && (SqliteWants(cs, d) ==> d in sqlite)
    requires Wants(cs, d)
    ensures ServedBy(ByTarget(archive + sqlite), d)
  {
    hide ArchiveWants, SqliteWants, Wants, ByTarget;
    WantsEither(cs, d);
    var e := d;
    if ArchiveWants(cs, d) {
      e :| e in archive && Serves(e, d);
    }
    ListedIsServed(archive + sqlite, e);
  }

  lemma WantsEither(cs: seq<Client>, d: MountDef)
    ensures Wants(cs, d) <==> ArchiveWants(cs, d) || SqliteWants(cs, d)
  {
  }
}
