// Volume discovery on the config document: a model's includes and database paths are read from
// its map, and what becomes of them is written back in place (internal/pipeline/reconcile.go:
// 361-486; internal/pipeline/volumes.go:108-137, 207-232).
module Rewriting {
  import opened Wrappers
  import opened Trees
  import opened Document
  import opened Docker
  import opened EngineSpec
  import opened Volumes
  import opened Collecting
  import opened FileText
  import opened ConfigFile

  // ---- Reading ----

  function Kid(t: Tree, k: string): Option<Tree> {
    if t.Map? && k in t.kids then Some(t.kids[k]) else None
  }

  function Strings(items: seq<Tree>): seq<string> {
    if items == [] then []
    else (match items[0] case Leaf(Str(s)) => [s] case _ => []) + Strings(items[1..])
  }

  /** toStrSlice: the strings of a []string, or of a list. */
  function StrSlice(t: Option<Tree>): seq<string> {
    match t
    case Some(Leaf(Strs(items))) => items
    case Some(List(items)) => Strings(items)
    case _ => []
  }

  function TextAt(t: Tree, k: string): string {
    match Kid(t, k) case Some(Leaf(Str(s))) => s case _ => ""
  }

  /** The strings under archive.includes or archive.excludes, if there is an archive map. */
  function ListOf(m: Tree, k: string): seq<string> {
    match Kid(m, "archive")
    case Some(Map(kids)) => StrSlice(Kid(Map(kids), k))
    case _ => []
  }

  function DbOf(t: Tree): Database {
    Database(TextAt(t, "type"), TextAt(t, "path"))
  }

  /** The databases that are maps. */
  function DatabasesOf(m: Tree): map<string, Database> {
    match Kid(m, "databases")
    case Some(Map(kids)) => map id | id in kids && kids[id].Map? :: DbOf(kids[id])
    case _ => map[]
  }

  /** What inspecting a model's container shows, and in which of the two phases it answered. */
  datatype Answer = Answer(mounts: seq<MountPoint>, forArchives: bool, forDatabases: bool)

  function ClientOf(m: Tree, name: string, a: Answer): Client {
    Client(name, a.mounts, if a.forArchives then ListOf(m, "includes") else [],
           if a.forDatabases then DatabasesOf(m) else map[])
  }

  // ---- Writing ----

  /** A list that is not empty is written as a []string. */
  function WithList(a: Tree, k: string, items: seq<string>): Tree
    requires a.Map?
    ensures WithList(a, k, items).Map?
  {
    if items == [] then a else Map(a.kids[k := Leaf(Strs(items))])
  }

  /** The archive of a model with includes: those that have a mount, and the excludes. */
  function ArchiveRewritten(m: Tree, name: string, mps: seq<MountPoint>): Tree
    requires m.Map?
    ensures ArchiveRewritten(m, name, mps).Map?
  {
    match Kid(m, "archive")
    case Some(Map(kids)) =>
      if ListOf(m, "includes") == [] then m
      else
        var a := WithList(Map(kids), "includes", Rewritten(DestMap(mps), name, ListOf(m, "includes")));
        Map(m.kids["archive" := WithList(a, "excludes", ListOf(m, "excludes"))])
    case _ => m
  }

  function DbRewritten(t: Tree, name: string, mps: seq<MountPoint>): Tree {
    if t.Map? && Untransformed(DbOf(t)) && Backing(DbOf(t).path, DestMap(mps)).Some?
    then Map(t.kids["path" := Leaf(Str(VOLUMES + name + DbOf(t).path))])
    else t
  }

  function DatabasesRewritten(m: Tree, name: string, mps: seq<MountPoint>): Tree
    requires m.Map?
    ensures DatabasesRewritten(m, name, mps).Map?
  {
    match Kid(m, "databases")
    case Some(Map(kids)) => Map(m.kids["databases" := Map(map id | id in kids :: DbRewritten(kids[id], name, mps))])
    case _ => m
  }

  function ModelRewritten(m: Tree, name: string, a: Answer): Tree {
    if !m.Map? then m
    else
      var next := if a.forArchives then ArchiveRewritten(m, name, a.mounts) else m;
      if a.forDatabases then DatabasesRewritten(next, name, a.mounts) else next
  }

  /** All models whose containers could be inspected. */
  function ModelsRewritten(models: map<string, Tree>, answers: map<string, Answer>): map<string, Tree> {
    map name | name in models :: if name in answers then ModelRewritten(models[name], name, answers[name])
        else models[name]
  }

  /** The clients are those of the models whose containers could be inspected, each once. */
  ghost predicate ListsClients(cs: seq<Client>, models: map<string, Tree>, answers: map<string, Answer>) {
    && (forall i :: 0 <= i < |cs| ==>
          && cs[i].model in models && cs[i].model in answers
          && cs[i] == ClientOf(models[cs[i].model], cs[i].model, answers[cs[i].model]))
    && (forall i, j :: 0 <= i < j < |cs| ==> cs[i].model != cs[j].model)
    && (forall name :: name in models && name in answers ==> exists i :: 0 <= i < |cs| && cs[i].model == name)
  }

  // ---- What is written is read back ----

  lemma ListOfWritten(m: Tree, name: string, mps: seq<MountPoint>)
    requires m.Map?
    ensures var r := Rewritten(DestMap(mps), name, ListOf(m, "includes"));
            ListOf(ArchiveRewritten(m, name, mps), "includes") == if r == [] then ListOf(m, "includes") else r
    ensures ListOf(ArchiveRewritten(m, name, mps), "excludes") == ListOf(m, "excludes")
    ensures DatabasesOf(ArchiveRewritten(m, name, mps)) == DatabasesOf(m)
  {
    hide DestMap, Backing;
    assert Rewritten(DestMap(mps), name, []) == [];
    assert Kid(m, "archive").None? || !Kid(m, "archive").value.Map? ==> ListOf(m, "includes") == [];
  }

  lemma DatabasesWritten(m: Tree, name: string, mps: seq<MountPoint>)
    requires m.Map?
    ensures var was, now := DatabasesOf(m), DatabasesOf(DatabasesRewritten(m, name, mps));
            now == map id | id in was :: RewriteDb(DestMap(mps), name, was[id])
    ensures forall k :: ListOf(DatabasesRewritten(m, name, mps), k) == ListOf(m, k)
  {
    hide DestMap, Backing, StrSlice;
    match Kid(m, "databases")
    case Some(Map(kids)) =>
      forall id | id in kids ensures DbRewritten(kids[id], name, mps).Map? <==> kids[id].Map? {}
      forall id | id in kids && kids[id].Map?
        ensures DbOf(DbRewritten(kids[id], name, mps)) == RewriteDb(DestMap(mps), name, DbOf(kids[id]))
      {
        DbWritten(kids[id], name, mps);
      }
    case _ =>
  }

  lemma DbWritten(t: Tree, name: string, mps: seq<MountPoint>)
    requires t.Map?
    ensures DbOf(DbRewritten(t, name, mps)) == RewriteDb(DestMap(mps), name, DbOf(t))
  {
    hide DestMap, Backing;
    var next := DbRewritten(t, name, mps);
    assert next != t ==> next.kids == t.kids["path" := Leaf(Str(VOLUMES + name + DbOf(t).path))];
    assert TextAt(next, "type") == TextAt(t, "type");
  }

  /** The model that is written holds exactly the rewritten includes and database paths. */
  lemma WrittenIsReadBack(m: Tree, name: string, a: Answer)
    ensures ClientOf(ModelRewritten(m, name, a), name, a) == RewriteClient(ClientOf(m, name, a))
    ensures ListOf(ModelRewritten(m, name, a), "excludes") == ListOf(m, "excludes")
  {
    hide DestMap, Rewritten, RewriteDb, ListOf, DatabasesOf, ArchiveRewritten, DatabasesRewritten;
    NothingRewritten(ClientOf(m, name, a));
    if m.Map? {
      ListOfWritten(m, name, a.mounts);
      DatabasesWritten(if a.forArchives then ArchiveRewritten(m, name, a.mounts) else m, name, a.mounts);
    } else {
      NothingToRead(m);
    }
  }

  lemma NothingRewritten(c: Client)
    ensures c.includes == [] ==> RewriteClient(c).includes == []
    ensures c.dbs == map[] ==> RewriteClient(c).dbs == map[]
  {
  }

  lemma NothingToRead(m: Tree)
    requires !m.Map?
    ensures ListOf(m, "includes") == [] && DatabasesOf(m) == map[]
  {
  }

  // ---- The rest stays ----

  /** Where volume discovery writes. */
  predicate IsTarget(p: Path) {
    p in {["archive", "includes"], ["archive", "excludes"]} || (|p| == 3 && p[0] == "databases" && p[2] == "path")
  }

  /** A path that is not, and is not below, a place where discovery writes. */
  ghost predicate OffTargets(p: Path) {
    forall n :: 0 <= n <= |p| ==> !IsTarget(p[..n])
  }

  /** Every scalar elsewhere stays, and no other appears. */
  lemma RestIsKept(m: Tree, name: string, a: Answer, p: Path, x: Scalar)
    requires OffTargets(p)
    ensures At(ModelRewritten(m, name, a), p) == Some(Leaf(x)) <==> At(m, p) == Some(Leaf(x))
  {
    hide ListOf, DestMap, Rewritten, At, OffTargets, ArchiveRewritten, DatabasesRewritten;
    if m.Map? {
      ArchiveKeeps(m, name, a.mounts, p, x);
      DatabasesKeep(if a.forArchives then ArchiveRewritten(m, name, a.mounts) else m, name, a.mounts, p, x);
    }
  }

  lemma ArchiveKeeps(m: Tree, name: string, mps: seq<MountPoint>, p: Path, x: Scalar)
    requires m.Map? && OffTargets(p)
    ensures At(ArchiveRewritten(m, name, mps), p) == Some(Leaf(x)) <==> At(m, p) == Some(Leaf(x))
  {
    hide ListOf, DestMap, Rewritten;
    if |p| >= 2 && p[0] == "archive" {
      assert p[..2] == ["archive", p[1]] && !IsTarget(p[..2]);
      assert p[1] != "includes" && p[1] != "excludes";
      assert p[1..][0] == p[1];
    }
  }

  lemma DatabasesKeep(m: Tree, name: string, mps: seq<MountPoint>, p: Path, x: Scalar)
    requires m.Map? && OffTargets(p)
    ensures At(DatabasesRewritten(m, name, mps), p) == Some(Leaf(x)) <==> At(m, p) == Some(Leaf(x))
  {
    hide DbOf, DestMap, Backing;
    if |p| >= 2 && p[0] == "databases" && Kid(m, "databases").Some? && m.kids["databases"].Map? {
      var kids := m.kids["databases"].kids;
      var id := p[1];
      assert p[1..][0] == id && p[1..][1..] == p[2..];
      if id in kids {
        if |p| >= 3 {
          assert p[..3] == ["databases", id, p[2]] && !IsTarget(p[..3]);
          assert p[2..][0] == p[2];
        }
        DbKeeps(kids[id], name, mps, p[2..], x);
      }
    }
  }

  lemma DbKeeps(t: Tree, name: string, mps: seq<MountPoint>, p: Path, x: Scalar)
    requires p != [] ==> p[0] != "path"
    ensures At(DbRewritten(t, name, mps), p) == Some(Leaf(x)) <==> At(t, p) == Some(Leaf(x))
  {
    hide DbOf, DestMap, Backing;
  }

  // ---- What is not escaped any more ----

  ghost predicate SomeHarmfulString(items: seq<string>) {
    exists s :: s in items && Harmful(s)
  }

  /** A rewritten include does harm, or an exclude beside it. */
  ghost predicate HarmInArchive(m: Tree, name: string, mps: seq<MountPoint>) {
    && ListOf(m, "includes") != []
    && (SomeHarmfulString(Rewritten(DestMap(mps), name, ListOf(m, "includes")))
          || SomeHarmfulString(ListOf(m, "excludes")))
  }

  ghost predicate WritesHarm(m: Tree, name: string, a: Answer) {
    a.forArchives && HarmInArchive(m, name, a.mounts)
  }

  lemma KidReplaced(kids: map<string, Tree>, k: string, v: Tree)
    requires k in kids && !HoldsHarm(kids[k])
    ensures HoldsHarm(Map(kids[k := v])) <==> HoldsHarm(Map(kids)) || HoldsHarm(v)
  {
    hide Harmful;
    var next := kids[k := v];
    assert next.Keys == kids.Keys;
    if HoldsHarm(Map(kids)) {
      var j :| j in kids && (Harmful(j) || HoldsHarm(kids[j]));
      assert j in next && (Harmful(j) || HoldsHarm(next[j]));
    }
    if HoldsHarm(v) { assert k in next && HoldsHarm(next[k]); }
    if HoldsHarm(Map(next)) {
      var j :| j in next && (Harmful(j) || HoldsHarm(next[j]));
      assert j in kids && (j != k ==> next[j] == kids[j]);
    }
  }

  lemma ListHarm(items: seq<string>)
    ensures HoldsHarm(Leaf(Strs(items))) <==> SomeHarmfulString(items)
  {
    hide Harmful;
    if SomeHarmfulString(items) {
      var s :| s in items && Harmful(s);
      var i :| 0 <= i < |items| && items[i] == s;
      assert Harmful(items[i]);
    }
  }

  lemma WithListHarm(kids: map<string, Tree>, k: string, items: seq<string>)
    requires items != [] ==> k in kids && !HoldsHarm(kids[k])
    ensures HoldsHarm(WithList(Map(kids), k, items)) <==> HoldsHarm(Map(kids)) || SomeHarmfulString(items)
  {
    hide Harmful, HoldsHarm;
    if items != [] {
      KidReplaced(kids, k, Leaf(Strs(items)));
      ListHarm(items);
    }
  }

  lemma ArchiveHarm(m: Tree, name: string, mps: seq<MountPoint>)
    requires m.Map? && !HoldsHarm(m)
    ensures HoldsHarm(ArchiveRewritten(m, name, mps)) <==> HarmInArchive(m, name, mps)
  {
    hide Harmful, DestMap, HoldsHarm, SomeHarmfulString, WithList;
    var includes, excludes := ListOf(m, "includes"), ListOf(m, "excludes");
    if includes != [] {
      var kids := m.kids["archive"].kids;
      KidsHarmless(m.kids, "archive");
      if "excludes" in kids { KidsHarmless(kids, "excludes"); }
      KidsHarmless(kids, "includes");
      var r := Rewritten(DestMap(mps), name, includes);
      WithListHarm(kids, "includes", r);
      var a := WithList(Map(kids), "includes", r);
      OtherKid(kids, "includes", r, "excludes");
      WithListHarm(a.kids, "excludes", excludes);
      KidReplaced(m.kids, "archive", WithList(a, "excludes", excludes));
    }
  }

  lemma OtherKid(kids: map<string, Tree>, k: string, items: seq<string>, j: string)
    requires j != k
    ensures WithList(Map(kids), k, items).Map?
    ensures var a := WithList(Map(kids), k, items); (j in a.kids <==> j in kids) && (j in kids ==> a.kids[j] == kids[j])
  {
  }

  lemma KidsHarmless(kids: map<string, Tree>, k: string)
    requires !HoldsHarm(Map(kids)) && k in kids
    ensures !HoldsHarm(kids[k])
  {
    hide Harmful;
  }

  lemma DbHarm(t: Tree, name: string, mps: seq<MountPoint>)
    ensures HoldsHarm(DbRewritten(t, name, mps)) <==> HoldsHarm(t)
  {
    hide DestMap, Backing, HoldsHarm;
    if t != DbRewritten(t, name, mps) {
      var q := VOLUMES + name + DbOf(t).path;
      StringIsHarmless(TextAt(t, "path"));
      StringIsHarmless(q);
      KidReplaced(t.kids, "path", Leaf(Str(q)));
    }
  }

  lemma StringIsHarmless(s: string)
    ensures !HoldsHarm(Leaf(Str(s)))
  {
  }

  /** Harm in the kids decides harm in the map. */
  lemma SameHarm(a: map<string, Tree>, b: map<string, Tree>)
    requires a.Keys == b.Keys && forall k :: k in a ==> (HoldsHarm(a[k]) <==> HoldsHarm(b[k]))
    ensures HoldsHarm(Map(a)) <==> HoldsHarm(Map(b))
  {
    hide Harmful;
    assert forall k :: k in a <==> k in b;
  }

  lemma DatabasesHarm(m: Tree, name: string, mps: seq<MountPoint>)
    requires m.Map?
    ensures HoldsHarm(DatabasesRewritten(m, name, mps)) <==> HoldsHarm(m)
  {
    hide DbRewritten, HoldsHarm;
    match Kid(m, "databases")
    case Some(Map(kids)) =>
      var next := map id | id in kids :: DbRewritten(kids[id], name, mps);
      forall id | id in kids ensures HoldsHarm(next[id]) <==> HoldsHarm(kids[id]) { DbHarm(kids[id], name, mps); }
      SameHarm(next, kids);
      var now := m.kids["databases" := Map(next)];
      forall k | k in m.kids ensures HoldsHarm(now[k]) <==> HoldsHarm(m.kids[k]) {}
      SameHarm(now, m.kids);
    case _ =>
  }

  lemma ModelHarm(m: Tree, name: string, a: Answer)
    requires !HoldsHarm(m)
    ensures HoldsHarm(ModelRewritten(m, name, a)) <==> m.Map? && WritesHarm(m, name, a)
  {
    hide HoldsHarm, ArchiveRewritten, DatabasesRewritten, SomeHarmfulString, Rewritten, HarmInArchive;
    if m.Map? {
      ArchiveHarm(m, name, a.mounts);
      DatabasesHarm(if a.forArchives then ArchiveRewritten(m, name, a.mounts) else m, name, a.mounts);
    }
  }

  lemma OnlyMapsHarm(m: Tree, name: string, a: Answer)
    requires WritesHarm(m, name, a)
    ensures m.Map?
  {
  }

  /** Of documents that would be read as they are meant, rewriting spoils exactly those in which
      it writes an include or an exclude with a harmful '$'. */
  lemma RewritingHarmsExactly(models: map<string, Tree>, answers: map<string, Answer>)
    requires !HoldsHarm(Map(models))
    ensures HoldsHarm(Map(ModelsRewritten(models, answers))) <==>
            exists name :: name in models && name in answers && WritesHarm(models[name], name, answers[name])
  {
    hide ModelRewritten, WritesHarm, Harmful;
    var next := ModelsRewritten(models, answers);
    forall name | name in models
      ensures HoldsHarm(next[name]) <==> name in answers && WritesHarm(models[name], name, answers[name])
    {
      KidsHarmless(models, name);
      if name in answers {
        ModelHarm(models[name], name, answers[name]);
        if WritesHarm(models[name], name, answers[name]) { OnlyMapsHarm(models[name], name, answers[name]); }
      }
    }
    assert next.Keys == models.Keys;
  }
}
