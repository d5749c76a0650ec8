// The volume phase of a pass, on the maps that the document is made of
// (internal/pipeline/reconcile.go:137-149, 361-486; internal/pipeline/volumes.go:108-137, 207-232).
module VolumePhase {
  import opened Wrappers
  import opened Trees
  import opened Document
  import opened Docker
  import opened EngineSpec
  import opened Volumes
  import opened Collecting
  import opened Rewriting
  import opened Positions

  // ---- Reading ----

  /** The kind of a value is the kind of its tree. */
  lemma KindOf(v: Value, sh: Shape)
    requires Rep(v, sh)
    ensures v.Atom? ==> TreeOf(sh) == Leaf(v.s)
    ensures v.Obj? <==> TreeOf(sh).Map?
    ensures v.Arr? <==> TreeOf(sh).List?
  {
  }

  lemma {:induction false} StringsSnoc(items: seq<Tree>, t: Tree)
    ensures Strings(items + [t]) == Strings(items) + (match t case Leaf(Str(s)) => [s] case _ => [])
  {
    if items == [] {
      assert items + [t] == [t];
    } else {
      assert (items + [t])[1..] == items[1..] + [t];
      StringsSnoc(items[1..], t);
    }
  }

  method ToStrSlice(v: Value, ghost sh: Shape) returns (out: seq<string>)
    requires Rep(v, sh)
    ensures out == StrSlice(Some(TreeOf(sh)))
  {
    match v {
      case Atom(Strs(items)) => return items;
      case Arr(list) =>
        out := [];
        ghost var ts := TreeOf(sh).items;
        for i := 0 to |list.items|
          invariant out == Strings(ts[..i])
        {
          StringsSnoc(ts[..i], ts[i]);
          KindOf(list.items[i], sh.items[i]);
          assert ts[..i + 1] == ts[..i] + [ts[i]];
          match list.items[i] {
            case Atom(Str(s)) => out := out + [s];
            case _ =>
          }
        }
        assert ts[..|list.items|] == ts;
      case _ => return [];
    }
  }

  /** archive.includes or archive.excludes */
  method ReadList(model: MapNode, k: string, ghost sh: Shape) returns (out: seq<string>)
    requires Rep(Obj(model), sh)
    ensures out == ListOf(TreeOf(sh), k)
  {
    if "archive" !in model.entries || !model.entries["archive"].Obj? {
      return [];
    }
    var archive := model.entries["archive"].node;
    ghost var ash := sh.kids["archive"];
    KidOf(archive, ash, k);
    if k !in archive.entries {
      return [];
    }
    out := ToStrSlice(archive.entries[k], ash.kids[k]);
  }

  method ReadText(node: MapNode, k: string, ghost sh: Shape) returns (s: string)
    requires Rep(Obj(node), sh)
    ensures s == TextAt(TreeOf(sh), k)
  {
    if k in node.entries {
      match node.entries[k] {
        case Atom(Str(t)) => return t;
        case _ =>
      }
    }
    return "";
  }

  method ReadDb(node: MapNode, ghost sh: Shape) returns (db: Database)
    requires Rep(Obj(node), sh)
    ensures db == DbOf(TreeOf(sh))
  {
    var kind := ReadText(node, "type", sh);
    var path := ReadText(node, "path", sh);
    db := Database(kind, path);
  }

  /** The databases read so far. */
  ghost predicate DbsRead(dbs: map<string, Database>, kids: map<string, Shape>, todo: set<string>) {
    && (forall id :: id in dbs <==> id in kids && id !in todo && TreeOf(kids[id]).Map?)
    && (forall id :: id in dbs ==> dbs[id] == DbOf(TreeOf(kids[id])))
  }

  lemma NoDbsRead(kids: map<string, Shape>)
    ensures DbsRead(map[], kids, kids.Keys)
  {
  }

  lemma OneDbRead(dbs: map<string, Database>, kids: map<string, Shape>, todo: set<string>, id: string)
    requires DbsRead(dbs, kids, todo) && id in todo && id in kids
    ensures var t := TreeOf(kids[id]);
            DbsRead(if t.Map? then dbs[id := DbOf(t)] else dbs, kids, todo - {id})
  {
    hide DbOf;
  }

  lemma AllDbsRead(dbs: map<string, Database>, sh: Shape)
    requires sh.AtMap? && "databases" in sh.kids && sh.kids["databases"].AtMap?
    requires DbsRead(dbs, sh.kids["databases"].kids, {})
    ensures dbs == DatabasesOf(TreeOf(sh))
  {
    hide DbOf;
    DatabasesIn(sh);
    var t := TreeOf(sh.kids["databases"]);
    forall id ensures id in dbs <==> id in t.kids && t.kids[id].Map?
              ensures id in dbs ==> dbs[id] == DbOf(t.kids[id])
    {
      assert id in t.kids ==> t.kids[id] == TreeOf(sh.kids["databases"].kids[id]);
    }
  }

  lemma DatabasesIn(sh: Shape)
    requires sh.AtMap? && "databases" in sh.kids && sh.kids["databases"].AtMap?
    ensures var t := TreeOf(sh.kids["databases"]);
            t.Map? && DatabasesOf(TreeOf(sh)) == map id | id in t.kids && t.kids[id].Map? :: DbOf(t.kids[id])
  {
    hide DbOf;
    assert TreeOf(sh).kids["databases"] == TreeOf(sh.kids["databases"]);
  }

  method ReadDatabases(model: MapNode, ghost sh: Shape) returns (dbs: map<string, Database>)
    requires Rep(Obj(model), sh)
    ensures dbs == DatabasesOf(TreeOf(sh))
  {
    hide DbOf, DbsRead;
    dbs := map[];
    if "databases" !in model.entries || !model.entries["databases"].Obj? {
      return;
    }
    var node := model.entries["databases"].node;
    ghost var kids := sh.kids["databases"].kids;
    var todo := node.entries.Keys;
    NoDbsRead(kids);
    while todo != {}
      invariant todo <= kids.Keys && DbsRead(dbs, kids, todo)
      decreases todo
    {
      var id :| id in todo;
      KindOf(node.entries[id], kids[id]);
      OneDbRead(dbs, kids, todo, id);
      if node.entries[id].Obj? {
        var d := ReadDb(node.entries[id].node, kids[id]);
        dbs := dbs[id := d];
      }
      todo := todo - {id};
    }
    AllDbsRead(dbs, sh);
  }

  method ReadClient(model: Value, name: string, a: Answer, ghost sh: Shape)
    returns (c: Client, excludes: seq<string>)
    requires Rep(model, sh)
    ensures c == ClientOf(TreeOf(sh), name, a) && excludes == ListOf(TreeOf(sh), "excludes")
  {
    if !model.Obj? {
      return Client(name, a.mounts, [], map[]), [];
    }
    excludes := ReadList(model.node, "excludes", sh);
    var includes, dbs := [], map[];
    if a.forArchives {
      includes := ReadList(model.node, "includes", sh);
    }
    if a.forDatabases {
      dbs := ReadDatabases(model.node, sh);
    }
    c := Client(name, a.mounts, includes, dbs);
  }

  // ---- Writing ----

  /** n[k] = items, a []string, unless it is empty. */
  method PutList(n: MapNode, k: string, items: seq<string>, ghost sh: Shape) returns (ghost sh': Shape)
    requires Rep(Obj(n), sh)
    modifies n
    ensures Rep(Obj(n), sh') && Foot(sh') == Foot(sh)
    ensures TreeOf(sh') == WithList(TreeOf(sh), k, items)
  {
    sh' := sh;
    if items != [] {
      RepWithout(n, sh.kids, sh.foot, k);
      Put(n, k, Atom(Strs(items)), sh.kids, sh.foot, AtLeaf(Strs(items)));
      sh' := AtMap(n, sh.kids[k := AtLeaf(Strs(items))], sh.foot);
      assert sh.foot + Foot(AtLeaf(Strs(items))) == sh.foot;
      KidPut(sh, k, AtLeaf(Strs(items)), sh.foot);
    }
  }

  lemma KidPut(sh: Shape, k: string, ksh: Shape, f: set<object>)
    requires sh.AtMap?
    ensures TreeOf(AtMap(sh.node, sh.kids[k := ksh], f)) == Map(TreeOf(sh).kids[k := TreeOf(ksh)])
  {
    assert TreeOf(AtMap(sh.node, sh.kids[k := ksh], f)).kids == TreeOf(sh).kids[k := TreeOf(ksh)];
  }

  /** A model's kid k, changed in place. */
  lemma KidChanged(n: MapNode, sh: Shape, k: string, ksh: Shape)
    requires sh.AtMap? && sh.node == n && k in sh.kids && RepBut(n, sh.kids, sh.foot, k) && k in n.entries
    requires Rep(n.entries[k], ksh) && Foot(ksh) == Foot(sh.kids[k]) && Fits(n, sh.kids, k, ksh) && Foot(ksh) <= sh.foot
    ensures Rep(Obj(n), AtMap(n, sh.kids[k := ksh], sh.foot))
    ensures TreeOf(AtMap(n, sh.kids[k := ksh], sh.foot)) == Map(TreeOf(sh).kids[k := TreeOf(ksh)])
  {
    Rejoin(n, sh.kids, sh.foot, k, ksh);
    assert sh.foot + Foot(ksh) == sh.foot;
    KidPut(sh, k, ksh, sh.foot);
  }

  method WriteArchive(model: MapNode, includes: seq<string>, excludes: seq<string>, ghost sh: Shape)
    returns (ghost sh': Shape)
    requires Rep(Obj(model), sh) && "archive" in sh.kids && sh.kids["archive"].AtMap?
    modifies Foot(sh)
    ensures Rep(Obj(model), sh') && Foot(sh') == Foot(sh)
    ensures var a := TreeOf(sh.kids["archive"]);
            TreeOf(sh') == Map(TreeOf(sh).kids["archive" := WithList(WithList(a, "includes", includes), "excludes",
                excludes)])
  {
    RepWithout(model, sh.kids, sh.foot, "archive");
    var archive := model.entries["archive"].node;
    ghost var ash := PutList(archive, "includes", includes, sh.kids["archive"]);
    ash := PutList(archive, "excludes", excludes, ash);
    KidChanged(model, sh, "archive", ash);
    sh' := AtMap(model, sh.kids["archive" := ash], sh.foot);
  }

  ghost function DbIn(name: string, mps: seq<MountPoint>): (string, Tree) -> Tree {
    (id, t) => DbRewritten(t, name, mps)
  }

  /** A path was rewritten exactly if it changed. */
  lemma PathChanges(db: Database, name: string, mps: seq<MountPoint>)
    ensures var next := RewriteDb(DestMap(mps), name, db);
            && next.kind == db.kind
            && (next.path != db.path <==> Untransformed(db) && Backing(db.path, DestMap(mps)).Some?)
            && (next.path != db.path ==> next.path == VOLUMES + name + db.path)
  {
    hide DestMap, Backing;
    assert |VOLUMES + name + db.path| > |db.path|;
  }

  /** db["path"] = tp */
  method WriteDb(db: MapNode, name: string, mps: seq<MountPoint>, was: Database, now: Database, ghost sh: Shape)
    returns (ghost sh': Shape)
    requires Rep(Obj(db), sh) && was == DbOf(TreeOf(sh)) && now == RewriteDb(DestMap(mps), name, was)
    modifies db
    ensures Rep(Obj(db), sh') && Foot(sh') == Foot(sh)
    ensures TreeOf(sh') == DbRewritten(TreeOf(sh), name, mps)
  {
    hide DestMap, Backing, RewriteDb, DbOf, Untransformed;
    PathChanges(was, name, mps);
    KindOf(Obj(db), sh);
    sh' := sh;
    if now.path != was.path {
      RepWithout(db, sh.kids, sh.foot, "path");
      Put(db, "path", Atom(Str(now.path)), sh.kids, sh.foot, AtLeaf(Str(now.path)));
      sh' := AtMap(db, sh.kids["path" := AtLeaf(Str(now.path))], sh.foot);
      assert sh.foot + Foot(AtLeaf(Str(now.path))) == sh.foot;
      KidPut(sh, "path", AtLeaf(Str(now.path)), sh.foot);
    }
  }

  /** What was read and what is to be written of the databases in kids. */
  ghost predicate Planned(kids: map<string, Shape>, name: string, mps: seq<MountPoint>, dbs: map<string, Database>,
                          written: map<string, Database>) {
    forall id :: id in kids && TreeOf(kids[id]).Map? ==>
      && id in dbs && dbs[id] == DbOf(TreeOf(kids[id]))
      && id in written && written[id] == RewriteDb(DestMap(mps), name, dbs[id])
  }

  lemma PlannedHere(sh: Shape, name: string, mps: seq<MountPoint>, dbs: map<string, Database>,
                    written: map<string, Database>)
    requires sh.AtMap? && "databases" in sh.kids && sh.kids["databases"].AtMap? && dbs == DatabasesOf(TreeOf(sh))
    requires written == map id | id in dbs :: RewriteDb(DestMap(mps), name, dbs[id])
    ensures Planned(sh.kids["databases"].kids, name, mps, dbs, written)
  {
    hide DestMap, RewriteDb, DbOf;
    var t := TreeOf(sh.kids["databases"]);
    assert TreeOf(sh).kids["databases"] == t;
    forall id | id in t.kids && t.kids[id].Map? ensures id in dbs && dbs[id] == DbOf(t.kids[id]) {}
  }

  /** One round of the loop over the databases. */
  method WriteOne(node: MapNode, id: string, name: string, mps: seq<MountPoint>, dbs: map<string, Database>,
                  written: map<string, Database>, ghost now: Shape, ghost sh: Shape)
    returns (ghost ksh: Shape)
    requires Rep(Obj(node), now) && id in now.kids
    requires sh.AtMap? && id in sh.kids && now.kids[id] == sh.kids[id] && Planned(sh.kids, name, mps, dbs, written)
    modifies Foot(now)
    ensures Rep(Obj(node), AtMap(node, now.kids[id := ksh], now.foot)) && Foot(ksh) == Foot(now.kids[id])
    ensures TreeOf(ksh) == DbRewritten(TreeOf(now.kids[id]), name, mps)
  {
    hide DestMap, Backing, RewriteDb, DbOf;
    RepWithout(node, now.kids, now.foot, id);
    KindOf(node.entries[id], now.kids[id]);
    ksh := now.kids[id];
    if node.entries[id].Obj? {
      ksh := WriteDb(node.entries[id].node, name, mps, dbs[id], written[id], now.kids[id]);
    }
    KidChanged(node, now, id, ksh);
  }

  method WriteDatabases(model: MapNode, name: string, mps: seq<MountPoint>, dbs: map<string, Database>,
                        written: map<string, Database>, ghost sh: Shape)
    returns (ghost sh': Shape)
    requires Rep(Obj(model), sh) && dbs == DatabasesOf(TreeOf(sh))
    requires written == map id | id in dbs :: RewriteDb(DestMap(mps), name, dbs[id])
    modifies Foot(sh)
    ensures Rep(Obj(model), sh') && Foot(sh') == Foot(sh)
    ensures TreeOf(sh') == DatabasesRewritten(TreeOf(sh), name, mps)
  {
    hide DestMap, Backing, RewriteDb, DbOf, DbRewritten;
    sh' := sh;
    KindOf(Obj(model), sh);
    if "databases" !in model.entries || !model.entries["databases"].Obj? {
      NoDatabases(model, sh, name, mps);
      return;
    }
    RepWithout(model, sh.kids, sh.foot, "databases");
    var node := model.entries["databases"].node;
    PlannedHere(sh, name, mps, dbs, written);
    ghost var dsh := WriteEach(node, name, mps, dbs, written, sh.kids["databases"]);
    KidChanged(model, sh, "databases", dsh);
    sh' := AtMap(model, sh.kids["databases" := dsh], sh.foot);
  }

  lemma NoDatabases(model: MapNode, sh: Shape, name: string, mps: seq<MountPoint>)
    requires Rep(Obj(model), sh) && ("databases" in model.entries ==> !model.entries["databases"].Obj?)
    ensures TreeOf(sh).Map? && DatabasesRewritten(TreeOf(sh), name, mps) == TreeOf(sh)
  {
    if "databases" in model.entries { KindOf(model.entries["databases"], sh.kids["databases"]); }
  }

  lemma WrittenEach(sh: Shape, kids: map<string, Shape>, name: string, mps: seq<MountPoint>, node: MapNode,
                    foot: set<object>)
    requires sh.AtMap? && Mapped(sh, kids, {}, DbIn(name, mps))
    ensures var t := TreeOf(sh);
            t.Map? && TreeOf(AtMap(node, kids, foot)) ==
                Map(map id | id in t.kids :: DbRewritten(t.kids[id], name, mps))
  {
    hide DbRewritten;
    var t := TreeOf(sh);
    MappedIs(sh, kids, DbIn(name, mps), node, foot, Map(map id | id in t.kids :: DbRewritten(t.kids[id], name, mps)));
  }

  method WriteEach(node: MapNode, name: string, mps: seq<MountPoint>, dbs: map<string, Database>,
                   written: map<string, Database>, ghost sh: Shape)
    returns (ghost sh': Shape)
    requires Rep(Obj(node), sh) && Planned(sh.kids, name, mps, dbs, written)
    modifies Foot(sh)
    ensures Rep(Obj(node), sh') && Foot(sh') == Foot(sh)
    ensures TreeOf(sh).Map? && TreeOf(sh') ==
            Map(map id | id in TreeOf(sh).kids :: DbRewritten(TreeOf(sh).kids[id], name, mps))
  {
    hide DestMap, Backing, RewriteDb, DbOf, DbRewritten, Planned, Rep, TreeOf;
    sh' := sh;
    ghost var f := DbIn(name, mps);
    KidsOfMap(node, sh, f);
    var todo := node.entries.Keys;
    while todo != {}
      invariant todo <= sh.kids.Keys && sh'.AtMap? && sh'.node == node
      invariant Rep(Obj(node), sh') && Foot(sh') == Foot(sh)
      invariant Mapped(sh, sh'.kids, todo, f)
      decreases todo
    {
      var id :| id in todo;
      ghost var ksh := WriteOne(node, id, name, mps, dbs, written, sh', sh);
      MappedStep(sh, sh'.kids, todo, f, id, ksh);
      sh' := AtMap(node, sh'.kids[id := ksh], sh'.foot);
      todo := todo - {id};
    }
    WrittenEach(sh, sh'.kids, name, mps, node, sh'.foot);
  }

  // ---- One model ----

  /** A model whose container could be inspected: its client, its excludes, and what the two
      phases found for it. */
  method WriteModel(model: MapNode, c: Client, a: Answer, excludes: seq<string>, includes: seq<string>,
                    dbs: map<string, Database>, ghost sh: Shape)
    returns (ghost sh': Shape)
    requires Rep(Obj(model), sh)
    requires c == ClientOf(TreeOf(sh), c.model, a) && excludes == ListOf(TreeOf(sh), "excludes")
    requires includes == Rewritten(DestMap(c.mounts), c.model, c.includes) && dbs == RewriteClient(c).dbs
    modifies Foot(sh)
    ensures Rep(Obj(model), sh') && Foot(sh') == Foot(sh)
    ensures TreeOf(sh') == ModelRewritten(TreeOf(sh), c.model, a)
  {
    hide DestMap, Backing, Rewritten, ListOf, DatabasesOf, RewriteDb, ArchiveRewritten, DatabasesRewritten, WithList;
    sh' := sh;
    ModelIsMap(model, sh);
    if a.forArchives {
      if |c.includes| > 0 {
        ArchiveIsMap(model, sh);
        sh' := WriteArchive(model, includes, excludes, sh);
        ArchiveIsWritten(sh, sh', c, excludes, includes);
      } else {
        ArchiveStays(TreeOf(sh), c.model, c.mounts);
      }
      ListOfWritten(TreeOf(sh), c.model, c.mounts);
    }
    if a.forDatabases {
      sh' := WriteDatabases(model, c.model, c.mounts, c.dbs, dbs, sh');
    }
  }

  lemma ModelIsMap(model: MapNode, sh: Shape)
    requires Rep(Obj(model), sh)
    ensures sh.AtMap? && TreeOf(sh).Map?
  {
  }

  lemma ArchiveIsMap(model: MapNode, sh: Shape)
    requires Rep(Obj(model), sh) && ListOf(TreeOf(sh), "includes") != []
    ensures sh.AtMap? && "archive" in sh.kids && sh.kids["archive"].AtMap?
    ensures TreeOf(sh).Map? && Kid(TreeOf(sh), "archive") == Some(TreeOf(sh.kids["archive"]))
  {
  }

  lemma ArchiveIsWritten(sh: Shape, sh': Shape, c: Client, excludes: seq<string>, includes: seq<string>)
    requires sh.AtMap? && "archive" in sh.kids && sh.kids["archive"].AtMap? && TreeOf(sh).Map?
    requires c.includes == ListOf(TreeOf(sh), "includes") != [] && excludes == ListOf(TreeOf(sh), "excludes")
    requires includes == Rewritten(DestMap(c.mounts), c.model, c.includes)
    requires var a := TreeOf(sh.kids["archive"]);
             TreeOf(sh') == Map(TreeOf(sh).kids["archive" := WithList(WithList(a, "includes", includes), "excludes",
                 excludes)])
    ensures TreeOf(sh') == ArchiveRewritten(TreeOf(sh), c.model, c.mounts)
  {
    hide DestMap, Rewritten, ListOf, WithList;
    assert TreeOf(sh).kids["archive"] == TreeOf(sh.kids["archive"]);
  }

  lemma ArchiveStays(m: Tree, name: string, mps: seq<MountPoint>)
    requires m.Map? && ListOf(m, "includes") == []
    ensures ArchiveRewritten(m, name, mps) == m
  {
  }

  // ---- All models ----

  /** The clients read from models whose containers could be inspected, but for those in todo. */
  ghost predicate ReadSoFar(cs: seq<Client>, excludes: seq<seq<string>>, kids: map<string, Shape>,
                            answers: map<string, Answer>, todo: set<string>) {
    && |excludes| == |cs|
    && (forall i :: 0 <= i < |cs| ==> IsRead(cs[i], excludes[i], kids, answers) && cs[i].model !in todo)
    && (forall i, j :: 0 <= i < j < |cs| ==> cs[i].model != cs[j].model)
    && (forall name :: name in kids && name in answers && name !in todo ==>
          exists i :: 0 <= i < |cs| && cs[i].model == name)
  }

  ghost predicate IsRead(c: Client, excludes: seq<string>, kids: map<string, Shape>, answers: map<string, Answer>) {
    && c.model in kids && c.model in answers && c.mounts == answers[c.model].mounts
    && c == ClientOf(TreeOf(kids[c.model]), c.model, answers[c.model])
          && excludes == ListOf(TreeOf(kids[c.model]), "excludes")
  }

  lemma OneMoreRead(cs: seq<Client>, ess: seq<seq<string>>, kids: map<string, Shape>, answers: map<string, Answer>,
                    todo: set<string>, name: string, c: Client, excludes: seq<string>)
    requires ReadSoFar(cs, ess, kids, answers, todo) && name in todo && name in kids
    requires name in answers ==> IsRead(c, excludes, kids, answers) && c.model == name
    ensures if name in answers then ReadSoFar(cs + [c], ess + [excludes], kids, answers, todo - {name})
            else ReadSoFar(cs, ess, kids, answers, todo - {name})
  {
    hide IsRead;
    var more := cs + [c];
    if name in answers {
      assert more[|cs|] == c && forall i :: 0 <= i < |cs| ==> more[i] == cs[i];
      forall n | n in kids && n in answers && n !in todo - {name}
        ensures exists i :: 0 <= i < |more| && more[i].model == n
      {
        if n != name {
          var i :| 0 <= i < |cs| && cs[i].model == n;
          assert more[i].model == n;
        }
      }
    }
  }

  method ReadModels(models: MapNode, answers: map<string, Answer>, ghost sh: Shape)
    returns (cs: seq<Client>, excludes: seq<seq<string>>)
    requires Rep(Obj(models), sh)
    ensures ReadSoFar(cs, excludes, sh.kids, answers, {})
  {
    hide ClientOf, ListOf, ReadSoFar;
    cs, excludes := [], [];
    var todo := models.entries.Keys;
    NoneRead(sh.kids, answers);
    while todo != {}
      invariant todo <= sh.kids.Keys && ReadSoFar(cs, excludes, sh.kids, answers, todo)
      decreases todo
    {
      var name :| name in todo;
      var c, es := Client(name, [], [], map[]), [];
      if name in answers {
        c, es := ReadClient(models.entries[name], name, answers[name], sh.kids[name]);
        ClientIsOf(TreeOf(sh.kids[name]), name, answers[name]);
      }
      OneMoreRead(cs, excludes, sh.kids, answers, todo, name, c, es);
      if name in answers {
        cs, excludes := cs + [c], excludes + [es];
      }
      todo := todo - {name};
    }
  }

  lemma NoneRead(kids: map<string, Shape>, answers: map<string, Answer>)
    ensures ReadSoFar([], [], kids, answers, kids.Keys)
  {
  }

  lemma ClientIsOf(m: Tree, name: string, a: Answer)
    ensures ClientOf(m, name, a).model == name && ClientOf(m, name, a).mounts == a.mounts
  {
  }

  ghost function ModelIn(answers: map<string, Answer>): (string, Tree) -> Tree {
    (name, t) => if name in answers then ModelRewritten(t, name, answers[name]) else t
  }

  ghost function NamesFrom(cs: seq<Client>, i: nat): set<string> {
    set j | i <= j < |cs| :: cs[j].model
  }

  lemma NothingWritten(cs: seq<Client>, excludes: seq<seq<string>>, sh: Shape, answers: map<string, Answer>)
    requires sh.AtMap? && ReadSoFar(cs, excludes, sh.kids, answers, {})
    ensures Mapped(sh, sh.kids, NamesFrom(cs, 0), ModelIn(answers))
  {
    hide IsRead, ModelRewritten;
  }

  /** One round of the loop that writes the models. */
  method WriteOneModel(models: MapNode, c: Client, excludes: seq<string>, includes: seq<string>,
                       dbs: map<string, Database>, answers: map<string, Answer>, ghost now: Shape, ghost sh: Shape)
    returns (ghost ksh: Shape)
    requires Rep(Obj(models), now) && sh.AtMap? && IsRead(c, excludes, sh.kids, answers)
    requires c.model in now.kids && now.kids[c.model] == sh.kids[c.model]
    requires includes == Rewritten(DestMap(c.mounts), c.model, c.includes) && dbs == RewriteClient(c).dbs
    modifies Foot(now)
    ensures Rep(Obj(models), AtMap(models, now.kids[c.model := ksh], now.foot)) && Foot(ksh) == Foot(now.kids[c.model])
    ensures TreeOf(ksh) == ModelIn(answers)(c.model, TreeOf(sh.kids[c.model]))
  {
    hide DestMap, Rewritten, ClientOf, ListOf, RewriteClient;
    var k := c.model;
    RepWithout(models, now.kids, now.foot, k);
    KindOf(models.entries[k], now.kids[k]);
    ksh := now.kids[k];
    if models.entries[k].Obj? {
      ksh := WriteModel(models.entries[k].node, c, answers[k], excludes, includes, dbs, now.kids[k]);
    }
    KidChanged(models, now, k, ksh);
  }

  method WriteModels(models: MapNode, cs: seq<Client>, excludes: seq<seq<string>>, includes: seq<seq<string>>,
                     dbs: seq<map<string, Database>>, answers: map<string, Answer>, ghost sh: Shape)
    returns (ghost sh': Shape)
    requires Rep(Obj(models), sh) && ReadSoFar(cs, excludes, sh.kids, answers, {})
    requires |includes| == |cs| == |dbs| == |excludes|
    requires forall i :: 0 <= i < |cs| ==> includes[i] == Rewritten(DestMap(cs[i].mounts), cs[i].model, cs[i].includes)
    requires forall i :: 0 <= i < |cs| ==> dbs[i] == RewriteClient(cs[i]).dbs
    modifies Foot(sh)
    ensures Rep(Obj(models), sh') && Foot(sh') == Foot(sh)
    ensures TreeOf(sh).Map? && TreeOf(sh') == Map(ModelsRewritten(TreeOf(sh).kids, answers))
  {
    hide DestMap, Rewritten, RewriteClient, IsRead, NamesFrom, ModelIn, ReadSoFar, ModelsRewritten;
    ghost var f := ModelIn(answers);
    sh' := sh;
    NothingWritten(cs, excludes, sh, answers);
    for i := 0 to |cs|
      invariant sh'.AtMap? && Rep(Obj(models), sh') && Foot(sh') == Foot(sh)
      invariant Mapped(sh, sh'.kids, NamesFrom(cs, i), f)
    {
      IsReadHere(cs, excludes, sh.kids, answers, i);
      ghost var ksh := WriteOneModel(models, cs[i], excludes[i], includes[i], dbs[i], answers, sh', sh);
      MappedStep(sh, sh'.kids, NamesFrom(cs, i), f, cs[i].model, ksh);
      sh' := AtMap(models, sh'.kids[cs[i].model := ksh], sh'.foot);
    }
    NoNames(cs);
    MappedAll(sh, sh'.kids, f, models, sh'.foot);
    ModelsAre(TreeOf(sh).kids, answers);
  }

  lemma ModelsAre(models: map<string, Tree>, answers: map<string, Answer>)
    ensures ModelsRewritten(models, answers) == map k | k in models :: ModelIn(answers)(k, models[k])
  {
  }

  /** The whole phase: the mounts for the engine, and the models rewritten in place. Models
      whose containers cannot be inspected stay as they are. */
  method RewriteModels(models: MapNode, answers: map<string, Answer>, ghost sh: Shape)
    returns (managed: seq<MountDef>, ghost cs: seq<Client>, ghost sh': Shape)
    requires Rep(Obj(models), sh)
    modifies Foot(sh)
    ensures Rep(Obj(models), sh') && Foot(sh') == Foot(sh)
    ensures TreeOf(sh).Map? && ListsClients(cs, TreeOf(sh).kids, answers)
    ensures DistinctTargets(managed) && forall d :: d in managed ==> Wants(cs, d)
    ensures DatabasesServed(managed, cs) && ArchivesServed(managed, cs) && (KeysApart(cs) ==> Serving(managed, cs))
    ensures TreeOf(sh') == Map(ModelsRewritten(TreeOf(sh).kids, answers))
    ensures AllMoved(TreeOf(sh).kids, TreeOf(sh').kids, answers) && Targeted(managed, TreeOf(sh).kids, answers)
  {
    hide DestMap, Rewritten, RewriteClient, KeysApart, Serving, DistinctTargets, Wants, IsRead, ReadSoFar,
         DatabasesServed, ArchivesServed, ListsClients, ModelsRewritten, AllMoved, Targeted;
    var read, es := ReadModels(models, answers, sh);
    cs := read;
    AllAreRead(read, es, sh, answers);
    var includes, dbs;
    managed, includes, dbs := CollectMounts(read);
    sh' := WriteModels(models, read, es, includes, dbs, answers, sh);
    ModelsMove(TreeOf(sh).kids, answers);
    CollectedTargets(cs, TreeOf(sh).kids, answers, managed);
  }

  lemma AllAreRead(cs: seq<Client>, excludes: seq<seq<string>>, sh: Shape, answers: map<string, Answer>)
    requires sh.AtMap? && ReadSoFar(cs, excludes, sh.kids, answers, {})
    ensures |excludes| == |cs| && TreeOf(sh).Map? && ListsClients(cs, TreeOf(sh).kids, answers)
  {
    hide ClientOf, ListOf;
    var models := TreeOf(sh).kids;
    forall i | 0 <= i < |cs|
      ensures cs[i].model in models && cs[i].model in answers
      ensures cs[i] == ClientOf(models[cs[i].model], cs[i].model, answers[cs[i].model])
    {
      assert IsRead(cs[i], excludes[i], sh.kids, answers);
    }
  }

  lemma NoNames(cs: seq<Client>)
    ensures NamesFrom(cs, |cs|) == {}
  {
  }

  lemma IsReadHere(cs: seq<Client>, excludes: seq<seq<string>>, kids: map<string, Shape>,
                   answers: map<string, Answer>, i: nat)
    requires ReadSoFar(cs, excludes, kids, answers, {}) && i < |cs|
    ensures |excludes| == |cs| && IsRead(cs[i], excludes[i], kids, answers) && cs[i].model in kids
    ensures cs[i].model in NamesFrom(cs, i) && NamesFrom(cs, i + 1) == NamesFrom(cs, i) - {cs[i].model}
  {
  }
}
