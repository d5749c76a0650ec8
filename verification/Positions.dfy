// Volume discovery said of the places of the document, without the functions that read and write it:
// which strings move where, which stay, and which targets the engine is given for them
// (internal/pipeline/volumes.go:30-189, 207-250; internal/pipeline/reconcile.go:361-486).
module Positions {
  import opened Wrappers
  import opened Trees
  import opened Docker
  import opened EngineSpec
  import opened Volumes
  import opened Collecting
  import opened Rewriting

  // ---- Mounts by their text ----

  /** The path is the mount's destination or below it, trailing slashes aside. */
  predicate Holds(mp: MountPoint, path: string) {
    var dst, t := TrimRight(mp.destination), TrimRight(path);
    t == dst || (dst != "" && dst + "/" <= t)
  }

  ghost predicate Mounted(mps: seq<MountPoint>, path: string) {
    exists i :: 0 <= i < |mps| && Holds(mps[i], path)
  }

  /** The mount holds the path, and none that does has a longer destination. */
  ghost predicate Innermost(mps: seq<MountPoint>, mp: MountPoint, path: string) {
    && mp in mps && Holds(mp, path)
    && forall i :: 0 <= i < |mps| && Holds(mps[i], path) ==>
         |TrimRight(mps[i].destination)| <= |TrimRight(mp.destination)|
  }

  lemma {:induction false} DestMapKeys(mps: seq<MountPoint>, k: string)
    ensures k in DestMap(mps) <==> exists i :: 0 <= i < |mps| && TrimRight(mps[i].destination) == k
  {
    hide TrimRight;
    if mps != [] {
      var n := |mps| - 1;
      DestMapKeys(mps[..n], k);
      if i :| 0 <= i < |mps| && TrimRight(mps[i].destination) == k && i < n {
        assert mps[..n][i] == mps[i];
      }
      if k in DestMap(mps[..n]) {
        var i :| 0 <= i < n && TrimRight(mps[..n][i].destination) == k;
        assert TrimRight(mps[i].destination) == k;
      }
    }
  }

  lemma HoldsInMap(mps: seq<MountPoint>, i: nat, path: string)
    requires i < |mps| && Holds(mps[i], path)
    ensures Backing(path, DestMap(mps)).Some?
    ensures |TrimRight(mps[i].destination)| <= |Backing(path, DestMap(mps)).value|
  {
    hide DestMap, TrimRight, Longest;
    var dst, t := TrimRight(mps[i].destination), TrimRight(path);
    DestMapKeys(mps, dst);
    assert t != dst ==> t[..|dst|] == dst && Ends(t, |dst|);
    assert t[..|t|] == t;
  }

  /** The lookup finds a destination exactly if some mount holds the path, and then an innermost one. */
  lemma FoundExactly(mps: seq<MountPoint>, path: string)
    ensures Backing(path, DestMap(mps)).Some? <==> Mounted(mps, path)
    ensures Backing(path, DestMap(mps)).Some? ==> exists mp ::
              Innermost(mps, mp, path) && TrimRight(mp.destination) == Backing(path, DestMap(mps)).value
  {
    hide DestMap, TrimRight, Longest;
    var b := Backing(path, DestMap(mps));
    if b.Some? {
      var dst := b.value;
      DestMapKeys(mps, dst);
      var i :| 0 <= i < |mps| && TrimRight(mps[i].destination) == dst;
      FoundHolds(mps, path, i);
      forall j | 0 <= j < |mps| && Holds(mps[j], path) ensures |TrimRight(mps[j].destination)| <= |dst| {
        HoldsInMap(mps, j, path);
      }
      assert Innermost(mps, mps[i], path);
    }
    if i :| 0 <= i < |mps| && Holds(mps[i], path) { HoldsInMap(mps, i, path); }
  }

  lemma FoundHolds(mps: seq<MountPoint>, path: string, i: nat)
    requires i < |mps| && Backing(path, DestMap(mps)) == Some(TrimRight(mps[i].destination))
    ensures Holds(mps[i], path)
  {
    hide DestMap, TrimRight, Backing;
    BackingContains(path, DestMap(mps));
  }

  lemma BackingContains(path: string, m: map<string, MountPoint>)
    requires Backing(path, m).Some?
    ensures var dst, t := Backing(path, m).value, TrimRight(path); t == dst || (dst != "" && dst + "/" <= t)
  {
    hide TrimRight, Longest;
    var t := TrimRight(path);
    var n := Longest(t, m.Keys, |t|);
    if t !in m && n < |t| {
      assert t[n] == '/';
      assert t[..n + 1] == t[..n] + "/";
    } else {
      assert t[..|t|] == t;
    }
  }

  /** Innermost mounts have one destination. */
  lemma OneInnermost(mps: seq<MountPoint>, mp: MountPoint, path: string)
    requires Innermost(mps, mp, path)
    ensures Backing(path, DestMap(mps)) == Some(TrimRight(mp.destination))
  {
    hide DestMap, TrimRight, Backing;
    var i :| 0 <= i < |mps| && mps[i] == mp;
    FoundExactly(mps, path);
    var q :| Innermost(mps, q, path) && TrimRight(q.destination) == Backing(path, DestMap(mps)).value;
    var j :| 0 <= j < |mps| && mps[j] == q;
    PrefixOf(mp, path);
    PrefixOf(q, path);
    assert Holds(mps[i], path) && Holds(mps[j], path);
    var a, b, t := TrimRight(mp.destination), TrimRight(q.destination), TrimRight(path);
    assert |a| == |b| && a == t[..|a|] && b == t[..|b|];
  }

  lemma PrefixOf(mp: MountPoint, path: string)
    requires Holds(mp, path)
    ensures TrimRight(mp.destination) <= TrimRight(path)
  {
  }

  // ---- Strings of the document ----

  ghost predicate Text(t: Tree, path: Path, s: string) {
    At(t, path) == Some(Leaf(Str(s)))
  }

  lemma AtStep(t: Tree, k: string, rest: Path)
    ensures At(t, [k] + rest) == match Kid(t, k) { case None => None case Some(u) => At(u, rest) }
  {
    assert ([k] + rest)[1..] == rest;
  }

  lemma AtOne(t: Tree, k: string)
    ensures At(t, [k]) == Kid(t, k)
  {
    assert [k][1..] == [];
  }

  function KidOfKid(t: Tree, j: string, k: string): Option<Tree> {
    match Kid(t, j) case None => None case Some(u) => Kid(u, k)
  }

  lemma AtTwo(t: Tree, j: string, k: string)
    ensures At(t, [j, k]) == KidOfKid(t, j, k)
  {
    hide At;
    assert [j, k] == [j] + [k];
    AtStep(t, j, [k]);
    if Kid(t, j).Some? { AtOne(Kid(t, j).value, k); }
  }

  lemma AtThree(t: Tree, i: string, j: string, k: string)
    ensures At(t, [i, j, k]) ==
            match Kid(t, i)
            case None => None
            case Some(u) => (match Kid(u, j) case None => None case Some(v) => Kid(v, k))
  {
    hide At;
    assert [i, j, k] == [i] + [j, k];
    AtStep(t, i, [j, k]);
    if Kid(t, i).Some? { AtTwo(Kid(t, i).value, j, k); }
  }

  // ---- Database paths ----

  /** The database id of a model is a sqlite one, with a path that has not been rewritten. */
  ghost predicate SqliteAt(m: Tree, id: string, p: string) {
    && Text(m, ["databases", id, "type"], "sqlite") && Text(m, ["databases", id, "path"], p)
    && p != "" && !("/volumes/" <= p)
  }

  lemma SqliteIsRead(m: Tree, id: string, p: string)
    ensures SqliteAt(m, id, p) <==>
            id in DatabasesOf(m) && Untransformed(DatabasesOf(m)[id]) && DatabasesOf(m)[id].path == p
  {
    AtThree(m, "databases", id, "type");
    AtThree(m, "databases", id, "path");
  }

  /** The path p of database id moves. */
  ghost predicate Moves(m: Tree, a: Answer, id: string, p: string) {
    a.forDatabases && SqliteAt(m, id, p) && Mounted(a.mounts, p)
  }

  /** A database's path afterwards is its path before, behind the model's directory exactly if it is a
      sqlite path on a mount of the container, given that this answered. */
  lemma DatabasePathExactly(m: Tree, name: string, a: Answer, id: string, s: string)
    ensures Text(ModelRewritten(m, name, a), ["databases", id, "path"], s) <==>
            exists p :: Text(m, ["databases", id, "path"], p)
                        && s == if Moves(m, a, id, p) then "/volumes/" + name + p else p
  {
    hide DestMap, Backing, At, Mounted, ArchiveRewritten;
    var path := ["databases", id, "path"];
    AtThree(m, "databases", id, "path");
    AtThree(ModelRewritten(m, name, a), "databases", id, "path");
    if m.Map? {
      ArchiveIsElsewhere(m, name, a.mounts, "databases");
      var next := if a.forArchives then ArchiveRewritten(m, name, a.mounts) else m;
      assert Kid(next, "databases") == Kid(m, "databases");
      if p :| Text(m, path, p) {
        SqliteIsRead(m, id, p);
        FoundExactly(a.mounts, p);
        DbPath(m.kids["databases"].kids[id], name, a.mounts, p);
      } else if Kid(m, "databases").Some? && Kid(Kid(m, "databases").value, id).Some? {
        forall p ensures Kid(Kid(Kid(m, "databases").value, id).value, "path") != Some(Leaf(Str(p))) {
          assert !Text(m, path, p);
        }
        NoDbPath(m.kids["databases"].kids[id], name, a.mounts);
      }
    }
  }

  lemma ArchiveIsElsewhere(m: Tree, name: string, mps: seq<MountPoint>, k: string)
    requires m.Map? && k != "archive"
    ensures Kid(ArchiveRewritten(m, name, mps), k) == Kid(m, k)
  {
  }

  lemma DbPath(t: Tree, name: string, mps: seq<MountPoint>, p: string)
    requires Kid(t, "path") == Some(Leaf(Str(p)))
    ensures Kid(DbRewritten(t, name, mps), "path") ==
            Some(Leaf(Str(if Untransformed(DbOf(t)) && Backing(p, DestMap(mps)).Some? then VOLUMES + name + p else p)))
  {
  }

  lemma NoDbPath(t: Tree, name: string, mps: seq<MountPoint>)
    requires forall p :: Kid(t, "path") != Some(Leaf(Str(p)))
    ensures DbRewritten(t, name, mps) == t
  {
    assert TextAt(t, "path") == "";
  }

  // ---- Includes and excludes ----

  /** Item i of a list, or of a []string, is the string s. */
  predicate ItemAt(v: Tree, i: nat, s: string) {
    match v
    case Leaf(Strs(items)) => i < |items| && items[i] == s
    case List(items) => i < |items| && items[i] == Leaf(Str(s))
    case _ => false
  }

  /** out has, in order, put before each string item of v that keep takes, and nothing else. */
  ghost predicate Picks(v: Tree, out: seq<string>, keep: string -> bool, put: string) {
    exists ks: seq<nat> :: PicksAt(v, ks, out, keep, put)
  }

  ghost predicate PicksAt(v: Tree, ks: seq<nat>, out: seq<string>, keep: string -> bool, put: string) {
    && |ks| == |out|
    && (forall i, j :: 0 <= i < j < |ks| ==> ks[i] < ks[j])
    && (forall j :: 0 <= j < |ks| ==> exists s :: ItemAt(v, ks[j], s) && keep(s) && out[j] == put + s)
    && (forall i, s :: ItemAt(v, i, s) && keep(s) ==> i in ks)
  }

  function Kept(paths: seq<string>, keep: string -> bool, put: string): seq<string> {
    if paths == [] then [] else (if keep(paths[0]) then [put + paths[0]] else []) + Kept(paths[1..], keep, put)
  }

  /** The strings among the items. */
  function TextsIn(items: seq<Option<string>>): seq<string> {
    if items == [] then [] else (if items[0].Some? then [items[0].value] else []) + TextsIn(items[1..])
  }

  predicate Takes(item: Option<string>, keep: string -> bool) {
    item.Some? && keep(item.value)
  }

  /** Where those are that keep takes, counted from n. */
  function KeptAt(items: seq<Option<string>>, keep: string -> bool, n: nat): seq<nat> {
    if items == [] then []
    else (if Takes(items[0], keep) then [n] else []) + KeptAt(items[1..], keep, n + 1)
  }

  lemma KeptAtStep(items: seq<Option<string>>, keep: string -> bool, n: nat)
    requires items != []
    ensures KeptAt(items, keep, n) == (if Takes(items[0], keep) then [n] else []) + KeptAt(items[1..], keep, n + 1)
  {
  }

  lemma {:induction false} KeptAtIncreases(items: seq<Option<string>>, keep: string -> bool, n: nat)
    ensures var ks := KeptAt(items, keep, n);
            && (forall j :: 0 <= j < |ks| ==> n <= ks[j] < n + |items|)
            && (forall i, j :: 0 <= i < j < |ks| ==> ks[i] < ks[j])
  {
    if items != [] {
      KeptAtIncreases(items[1..], keep, n + 1);
      KeptAtStep(items, keep, n);
    }
  }

  lemma {:induction false} KeptAtHolds(items: seq<Option<string>>, keep: string -> bool, n: nat, i: nat)
    requires i < |items|
    ensures n + i in KeptAt(items, keep, n) <==> Takes(items[i], keep)
  {
    KeptAtIncreases(items[1..], keep, n + 1);
    KeptAtStep(items, keep, n);
    if i > 0 { KeptAtHolds(items[1..], keep, n + 1, i - 1); }
  }

  lemma KeptStep(items: seq<Option<string>>, keep: string -> bool, put: string)
    requires items != []
    ensures Kept(TextsIn(items), keep, put) ==
            (if Takes(items[0], keep) then [put + items[0].value] else []) + Kept(TextsIn(items[1..]), keep, put)
  {
    if items[0].Some? {
      assert TextsIn(items) == [items[0].value] + TextsIn(items[1..]);
      assert TextsIn(items)[1..] == TextsIn(items[1..]);
    } else {
      assert TextsIn(items) == TextsIn(items[1..]);
    }
  }

  lemma {:induction false} KeptTexts(items: seq<Option<string>>, keep: string -> bool, put: string, n: nat)
    ensures var ks, out := KeptAt(items, keep, n), Kept(TextsIn(items), keep, put);
            && |ks| == |out|
            && forall j :: 0 <= j < |ks| ==>
                 && n <= ks[j] < n + |items| && items[ks[j] - n].Some?
                 && out[j] == put + items[ks[j] - n].value
  {
    KeptAtIncreases(items, keep, n);
    if items != [] {
      KeptTexts(items[1..], keep, put, n + 1);
      KeptAtStep(items, keep, n);
      KeptStep(items, keep, put);
    }
  }

  function ItemsOf(v: Tree): seq<Option<string>> {
    match v
    case Leaf(Strs(items)) => seq(|items|, i requires 0 <= i < |items| => Some(items[i]))
    case List(items) =>
      seq(|items|, i requires 0 <= i < |items| => match items[i] case Leaf(Str(s)) => Some(s) case _ => None)
    case _ => []
  }

  lemma ItemsAre(v: Tree, i: nat, s: string)
    ensures ItemAt(v, i, s) <==> i < |ItemsOf(v)| && ItemsOf(v)[i] == Some(s)
  {
  }

  lemma {:induction false} TextsOfStrs(items: seq<string>)
    ensures TextsIn(ItemsOf(Leaf(Strs(items)))) == items
  {
    if items != [] {
      TextsOfStrs(items[1..]);
      assert ItemsOf(Leaf(Strs(items)))[1..] == ItemsOf(Leaf(Strs(items[1..])));
    }
  }

  lemma {:induction false} TextsOfList(items: seq<Tree>)
    ensures TextsIn(ItemsOf(List(items))) == Strings(items)
  {
    if items != [] {
      TextsOfList(items[1..]);
      assert ItemsOf(List(items))[1..] == ItemsOf(List(items[1..]));
    }
  }

  lemma SliceIsTexts(v: Tree)
    ensures StrSlice(Some(v)) == TextsIn(ItemsOf(v))
  {
    match v {
      case Leaf(Strs(items)) => TextsOfStrs(items);
      case List(items) => TextsOfList(items);
      case _ =>
    }
  }

  lemma SlicePicked(v: Tree, keep: string -> bool, put: string)
    ensures Picks(v, Kept(StrSlice(Some(v)), keep, put), keep, put)
  {
    hide ItemAt, ItemsOf, StrSlice;
    SliceIsTexts(v);
    var items := ItemsOf(v);
    var ks, out := KeptAt(items, keep, 0), Kept(TextsIn(items), keep, put);
    KeptAtIncreases(items, keep, 0);
    KeptTexts(items, keep, put, 0);
    forall j | 0 <= j < |ks| ensures exists s :: ItemAt(v, ks[j], s) && keep(s) && out[j] == put + s {
      KeptAtHolds(items, keep, 0, ks[j]);
      ItemsAre(v, ks[j], items[ks[j]].value);
    }
    forall i: nat, s | ItemAt(v, i, s) && keep(s) ensures i in ks {
      ItemsAre(v, i, s);
      KeptAtHolds(items, keep, 0, i);
    }
    assert |ks| == |out|;
    assert forall j :: 0 <= j < |ks| ==> exists s :: ItemAt(v, ks[j], s) && keep(s) && out[j] == put + s;
    assert forall i: nat, s :: ItemAt(v, i, s) && keep(s) ==> i in ks;
    assert PicksAt(v, ks, out, keep, put);
  }

  ghost function OnMount(mps: seq<MountPoint>): string -> bool {
    p => Mounted(mps, p)
  }

  lemma {:induction false} RewrittenKept(mps: seq<MountPoint>, name: string, paths: seq<string>)
    ensures Rewritten(DestMap(mps), name, paths) == Kept(paths, OnMount(mps), "/volumes/" + name)
  {
    hide Backing, DestMap, Mounted;
    if paths != [] {
      RewrittenKept(mps, name, paths[1..]);
      FoundExactly(mps, paths[0]);
    }
  }

  const ALL := (s: string) => true

  lemma {:induction false} AllKept(paths: seq<string>)
    ensures Kept(paths, ALL, "") == paths
  {
    if paths != [] {
      AllKept(paths[1..]);
      assert "" + paths[0] == paths[0];
    }
  }

  /** There is a string among the items that keep takes. */
  ghost predicate SomeItem(v: Option<Tree>, keep: string -> bool) {
    v.Some? && exists i, s :: ItemAt(v.value, i, s) && keep(s)
  }

  lemma PicksSome(v: Tree, out: seq<string>, keep: string -> bool, put: string)
    requires Picks(v, out, keep, put)
    ensures out != [] <==> SomeItem(Some(v), keep)
  {
    hide ItemAt;
    var ks: seq<nat> :| PicksAt(v, ks, out, keep, put);
    if out != [] { var s :| ItemAt(v, ks[0], s) && keep(s) && out[0] == put + s; }
    if SomeItem(Some(v), keep) {
      var i, s :| ItemAt(v, i, s) && keep(s);
      assert i in ks;
    }
  }

  /** What is there afterwards: a []string of the items picked, or what was there. */
  ghost predicate Becomes(was: Option<Tree>, now: Option<Tree>, written: bool, keep: string -> bool, put: string) {
    if written then was.Some? && exists out :: now == Some(Leaf(Strs(out))) && Picks(was.value, out, keep, put)
    else now == was
  }

  lemma ListOfAt(m: Tree, k: string)
    ensures ListOf(m, k) == match At(m, ["archive", k]) { case None => [] case Some(v) => StrSlice(Some(v)) }
  {
    hide At, StrSlice;
    AtTwo(m, "archive", k);
    assert StrSlice(None) == [] by { NoSlice(); }
  }

  lemma NoSlice()
    ensures StrSlice(None) == []
  {
  }

  lemma ListPicked(m: Tree, k: string, keep: string -> bool, put: string)
    ensures var v := At(m, ["archive", k]);
            && (v.Some? ==> Picks(v.value, Kept(ListOf(m, k), keep, put), keep, put))
            && (Kept(ListOf(m, k), keep, put) != [] <==> SomeItem(v, keep))
  {
    hide At, StrSlice, Picks, ListOf, SomeItem;
    var v := At(m, ["archive", k]);
    ListOfAt(m, k);
    if v.Some? {
      SlicePicked(v.value, keep, put);
      PicksSome(v.value, Kept(ListOf(m, k), keep, put), keep, put);
    } else {
      NoItem(keep);
    }
  }

  lemma NoItem(keep: string -> bool)
    ensures !SomeItem(None, keep)
  {
  }

  /** The includes afterwards are, in order and behind the model's directory, those on a mount of the
      container, if it answered and there is one; else they stay. The excludes become a []string of
      the same strings if besides there are includes at all; else they stay. */
  lemma ListsExactly(m: Tree, name: string, a: Answer)
    ensures var includes, excludes := ["archive", "includes"], ["archive", "excludes"];
            var now := ModelRewritten(m, name, a);
            && Becomes(At(m, includes), At(now, includes),
                       a.forArchives && SomeItem(At(m, includes), OnMount(a.mounts)), OnMount(a.mounts),
                       "/volumes/" + name)
            && Becomes(At(m, excludes), At(now, excludes),
                       a.forArchives && SomeItem(At(m, includes), ALL) && SomeItem(At(m, excludes), ALL), ALL, "")
  {
    hide At, ListOf, Kept, Picks, SomeItem, Becomes, Rewritten, DestMap, ArchiveRewritten, DatabasesRewritten;
    var keep, put := OnMount(a.mounts), "/volumes/" + name;
    ListPicked(m, "includes", keep, put);
    ListPicked(m, "includes", ALL, "");
    ListPicked(m, "excludes", ALL, "");
    AllKept(ListOf(m, "includes"));
    AllKept(ListOf(m, "excludes"));
    RewrittenKept(a.mounts, name, ListOf(m, "includes"));
    AtTwo(m, "archive", "includes");
    AtTwo(m, "archive", "excludes");
    AtTwo(ModelRewritten(m, name, a), "archive", "includes");
    AtTwo(ModelRewritten(m, name, a), "archive", "excludes");
    ModelHas(m, name, a);
    Written(m, ModelRewritten(m, name, a), "includes", a.forArchives, ListOf(m, "includes"), keep, put);
    Written(m, ModelRewritten(m, name, a), "excludes", a.forArchives && ListOf(m, "includes") != [],
            ListOf(m, "excludes"), ALL, "");
  }

  lemma ModelHas(m: Tree, name: string, a: Answer)
    ensures var r, now := Rewritten(DestMap(a.mounts), name, ListOf(m, "includes")), ModelRewritten(m, name, a);
            && KidOfKid(now, "archive", "includes") ==
               (if a.forArchives && r != [] then Some(Leaf(Strs(r))) else KidOfKid(m, "archive", "includes"))
            && KidOfKid(now, "archive", "excludes") ==
               if a.forArchives && ListOf(m, "includes") != [] && ListOf(m, "excludes") != []
               then Some(Leaf(Strs(ListOf(m, "excludes")))) else KidOfKid(m, "archive", "excludes")
  {
    hide DestMap, Rewritten, ArchiveRewritten, DatabasesRewritten, ListOf;
    if m.Map? {
      ArchiveHas(m, name, a.mounts);
      DatabasesAreElsewhere(if a.forArchives then ArchiveRewritten(m, name, a.mounts) else m, name, a.mounts);
    } else {
      NothingToRead(m);
      NothingListed(m, a.mounts, name);
    }
  }

  lemma NothingListed(m: Tree, mps: seq<MountPoint>, name: string)
    requires !m.Map?
    ensures Rewritten(DestMap(mps), name, []) == [] && ListOf(m, "includes") == []
  {
  }

  lemma Written(m: Tree, next: Tree, k: string, may: bool, items: seq<string>, keep: string -> bool, put: string)
    requires var was, out := At(m, ["archive", k]), Kept(items, keep, put);
             && (was.Some? ==> Picks(was.value, out, keep, put)) && (out != [] <==> SomeItem(was, keep))
             && At(next, ["archive", k]) == if may && out != [] then Some(Leaf(Strs(out))) else was
    ensures Becomes(At(m, ["archive", k]), At(next, ["archive", k]), may && SomeItem(At(m, ["archive", k]), keep),
                    keep, put)
  {
    hide Picks, Kept, At;
  }

  lemma DatabasesAreElsewhere(m: Tree, name: string, mps: seq<MountPoint>)
    requires m.Map?
    ensures Kid(DatabasesRewritten(m, name, mps), "archive") == Kid(m, "archive")
  {
  }

  lemma ArchiveHas(m: Tree, name: string, mps: seq<MountPoint>)
    requires m.Map?
    ensures var r, now := Rewritten(DestMap(mps), name, ListOf(m, "includes")), ArchiveRewritten(m, name, mps);
            && KidOfKid(now, "archive", "includes") ==
               (if r != [] then Some(Leaf(Strs(r))) else KidOfKid(m, "archive", "includes"))
            && KidOfKid(now, "archive", "excludes") ==
               if ListOf(m, "includes") != [] && ListOf(m, "excludes") != []
               then Some(Leaf(Strs(ListOf(m, "excludes")))) else KidOfKid(m, "archive", "excludes")
  {
    hide DestMap, StrSlice;
    if ListOf(m, "includes") == [] { assert Rewritten(DestMap(mps), name, []) == []; }
  }

  // ---- Targets ----

  /** The place where the engine is given the mount behind the path. */
  ghost predicate TargetOf(mps: seq<MountPoint>, name: string, path: string, target: string) {
    exists mp :: Innermost(mps, mp, path) && target == "/volumes/" + name + TrimRight(mp.destination)
  }

  /** A database of the model asks to write below the target. */
  ghost predicate AsksToWrite(m: Tree, name: string, a: Answer, target: string) {
    exists id, p :: Moves(m, a, id, p) && TargetOf(a.mounts, name, p, target)
  }

  ghost predicate IncludeAt(m: Tree, p: string) {
    At(m, ["archive", "includes"]).Some? && exists i :: ItemAt(At(m, ["archive", "includes"]).value, i, p)
  }

  /** An include of the model asks to read below the target. */
  ghost predicate AsksToRead(m: Tree, name: string, a: Answer, target: string) {
    a.forArchives && exists p :: IncludeAt(m, p) && TargetOf(a.mounts, name, p, target)
  }

  lemma NeededExactly(mps: seq<MountPoint>, name: string, paths: set<string>, readOnly: bool, target: string)
    ensures (exists d :: d in Needed(DestMap(mps), name, paths, readOnly) && d.target == target) <==>
            exists p :: p in paths && TargetOf(mps, name, p, target)
    ensures forall d :: d in Needed(DestMap(mps), name, paths, readOnly) ==> d.readOnly == readOnly
  {
    hide DestMap, Backing, Innermost, TrimRight;
    var m := DestMap(mps);
    if d :| d in Needed(m, name, paths, readOnly) && d.target == target {
      var p :| p in paths && ResolvePath(m, name, p, readOnly).Some?
          && ResolvePath(m, name, p, readOnly).value.mount == d;
      FoundExactly(mps, p);
      assert TargetOf(mps, name, p, target);
    }
    if p :| p in paths && TargetOf(mps, name, p, target) {
      var mp :| Innermost(mps, mp, p) && target == "/volumes/" + name + TrimRight(mp.destination);
      OneInnermost(mps, mp, p);
      assert ResolvePath(m, name, p, readOnly).value.mount in Needed(m, name, paths, readOnly);
    }
  }

  // ---- A whole document ----

  /** All that happens to one model: its database paths, its includes and excludes; any other scalar
      stays and none appears. */
  ghost predicate Moved(was: Tree, now: Tree, name: string, a: Answer) {
    && (forall id, s :: PathMoved(was, now, name, a, id, s))
    && ListsMoved(was, now, name, a)
    && (forall p, x :: OffTargets(p) ==> (At(now, p) == Some(Leaf(x)) <==> At(was, p) == Some(Leaf(x))))
  }

  ghost predicate PathMoved(was: Tree, now: Tree, name: string, a: Answer, id: string, s: string) {
    Text(now, ["databases", id, "path"], s) <==>
    exists p :: Text(was, ["databases", id, "path"], p) && s == if Moves(was, a, id, p) then "/volumes/" + name + p
        else p
  }

  ghost predicate ListsMoved(was: Tree, now: Tree, name: string, a: Answer) {
    var includes, excludes := ["archive", "includes"], ["archive", "excludes"];
    && Becomes(At(was, includes), At(now, includes),
               a.forArchives && SomeItem(At(was, includes), OnMount(a.mounts)), OnMount(a.mounts), "/volumes/" + name)
    && Becomes(At(was, excludes), At(now, excludes),
               a.forArchives && SomeItem(At(was, includes), ALL) && SomeItem(At(was, excludes), ALL), ALL, "")
  }

  /** Models whose containers answered move; the others stay. */
  ghost predicate AllMoved(was: map<string, Tree>, now: map<string, Tree>, answers: map<string, Answer>) {
    && now.Keys == was.Keys
    && forall name :: name in was ==>
         if name in answers then Moved(was[name], now[name], name, answers[name]) else now[name] == was[name]
  }

  lemma ModelMoves(m: Tree, name: string, a: Answer)
    ensures Moved(m, ModelRewritten(m, name, a), name, a)
  {
    hide ModelRewritten, Moves, Text, Becomes, OffTargets;
    var now := ModelRewritten(m, name, a);
    forall id, s ensures PathMoved(m, now, name, a, id, s) { DatabasePathExactly(m, name, a, id, s); }
    ListsExactly(m, name, a);
    forall p, x | OffTargets(p) ensures At(now, p) == Some(Leaf(x)) <==> At(m, p) == Some(Leaf(x)) {
      RestIsKept(m, name, a, p, x);
    }
  }

  lemma ModelsMove(models: map<string, Tree>, answers: map<string, Answer>)
    ensures AllMoved(models, ModelsRewritten(models, answers), answers)
  {
    hide ModelRewritten, Moved;
    forall name | name in models && name in answers
      ensures Moved(models[name], ModelsRewritten(models, answers)[name], name, answers[name])
    {
      ModelMoves(models[name], name, answers[name]);
    }
  }

  ghost predicate SomeAsksToWrite(models: map<string, Tree>, answers: map<string, Answer>, target: string) {
    exists name :: name in models && name in answers && AsksToWrite(models[name], name, answers[name], target)
  }

  ghost predicate SomeAsksToRead(models: map<string, Tree>, answers: map<string, Answer>, target: string) {
    exists name :: name in models && name in answers && AsksToRead(models[name], name, answers[name], target)
  }

  ghost predicate Writable(managed: seq<MountDef>, target: string) {
    exists d :: d in managed && d.target == target && !d.readOnly
  }

  /** The writable targets are exactly those that databases ask for, and any other is one that an
      include asks for. */
  ghost predicate Targeted(managed: seq<MountDef>, models: map<string, Tree>, answers: map<string, Answer>) {
    && (forall target :: Writable(managed, target) <==> SomeAsksToWrite(models, answers, target))
    && (forall d :: d in managed ==>
          SomeAsksToWrite(models, answers, d.target) || SomeAsksToRead(models, answers, d.target))
  }

  lemma {:induction false} TextsHas(items: seq<Option<string>>, s: string)
    ensures s in TextsIn(items) <==> Some(s) in items
  {
    if items != [] {
      TextsHas(items[1..], s);
      assert items == [items[0]] + items[1..];
    }
  }

  lemma IncludeIsRead(m: Tree, p: string)
    ensures p in SetOf(ListOf(m, "includes")) <==> IncludeAt(m, p)
  {
    hide ItemAt, ItemsOf, ListOf, At, StrSlice;
    ListOfAt(m, "includes");
    var v := At(m, ["archive", "includes"]);
    if v.Some? {
      SliceIsTexts(v.value);
      var items := ItemsOf(v.value);
      TextsHas(items, p);
      forall i: nat ensures ItemAt(v.value, i, p) <==> i < |items| && items[i] == Some(p) { ItemsAre(v.value, i, p); }
      if Some(p) in items { var i :| 0 <= i < |items| && items[i] == Some(p); assert ItemAt(v.value, i, p); }
    }
  }

  lemma ClientWrites(m: Tree, name: string, a: Answer, target: string)
    ensures (exists d :: d in SqliteNeeds(ClientOf(m, name, a)) && d.target == target) <==>
            AsksToWrite(m, name, a, target)
    ensures forall d :: d in SqliteNeeds(ClientOf(m, name, a)) ==> !d.readOnly
  {
    hide Needed, DestMap, TargetOf, SqliteAt, DatabasesOf, ListOf, Mounted, Untransformed;
    var c := ClientOf(m, name, a);
    NeededExactly(a.mounts, name, SqlitePaths(c.dbs), false, target);
    forall p ensures p in SqlitePaths(c.dbs) <==> a.forDatabases && exists id :: SqliteAt(m, id, p) {
      if a.forDatabases {
        forall id ensures SqliteAt(m, id, p) <==>
            id in c.dbs && Untransformed(c.dbs[id]) && c.dbs[id].path == p { SqliteIsRead(m, id, p); }
        if p in SqlitePaths(c.dbs) {
          var id :| id in c.dbs && Untransformed(c.dbs[id]) && c.dbs[id].path == p;
          assert SqliteAt(m, id, p);
        }
      }
    }
    forall p | TargetOf(a.mounts, name, p, target)
      ensures Mounted(a.mounts, p)
    {
      TargetIsMounted(a.mounts, name, p, target);
    }
    if AsksToWrite(m, name, a, target) {
      var id, p :| Moves(m, a, id, p) && TargetOf(a.mounts, name, p, target);
      assert SqliteAt(m, id, p);
    }
    if p :| p in SqlitePaths(c.dbs) && TargetOf(a.mounts, name, p, target) {
      var id :| SqliteAt(m, id, p);
      assert Moves(m, a, id, p);
    }
  }

  lemma TargetIsMounted(mps: seq<MountPoint>, name: string, p: string, target: string)
    requires TargetOf(mps, name, p, target)
    ensures Mounted(mps, p)
  {
    hide Holds;
    var mp :| Innermost(mps, mp, p) && target == "/volumes/" + name + TrimRight(mp.destination);
    var i :| 0 <= i < |mps| && mps[i] == mp;
  }

  lemma ClientReads(m: Tree, name: string, a: Answer, target: string)
    ensures (exists d :: d in ArchiveNeeds(ClientOf(m, name, a)) && d.target == target) <==>
            AsksToRead(m, name, a, target)
    ensures forall d :: d in ArchiveNeeds(ClientOf(m, name, a)) ==> d.readOnly
  {
    hide Needed, DestMap, TargetOf, DatabasesOf, ListOf, IncludeAt;
    var c := ClientOf(m, name, a);
    NeededExactly(a.mounts, name, SetOf(c.includes), true, target);
    forall p ensures p in SetOf(c.includes) <==> a.forArchives && IncludeAt(m, p) {
      IncludeIsRead(m, p);
    }
  }

  /** The mounts that a phase collects, in terms of the document. */
  lemma CollectedTargets(cs: seq<Client>, models: map<string, Tree>, answers: map<string, Answer>,
                         managed: seq<MountDef>)
    requires ListsClients(cs, models, answers) && (forall d :: d in managed ==> Wants(cs, d))
    requires DatabasesServed(managed, cs)
    ensures Targeted(managed, models, answers)
  {
    hide ClientOf, AsksToWrite, AsksToRead, ArchiveNeeds, SqliteNeeds;
    forall d | d in managed
      ensures SomeAsksToWrite(models, answers, d.target) || (SomeAsksToRead(models, answers, d.target) && d.readOnly)
    {
      var i :| 0 <= i < |cs| && (d in ArchiveNeeds(cs[i]) || d in SqliteNeeds(cs[i]));
      var name := cs[i].model;
      ClientWrites(models[name], name, answers[name], d.target);
      ClientReads(models[name], name, answers[name], d.target);
    }
    forall target | SomeAsksToWrite(models, answers, target) ensures Writable(managed, target) {
      var name :| name in models && name in answers && AsksToWrite(models[name], name, answers[name], target);
      var i :| 0 <= i < |cs| && cs[i].model == name;
      ClientWrites(models[name], name, answers[name], target);
      var d :| d in SqliteNeeds(cs[i]) && d.target == target;
      assert SqliteWants(cs, d) && ServedBy(managed, d);
      assert First(managed, target) in managed;
    }
  }

  /** What includes ask for is mounted, if all that is wanted is served. */
  lemma IncludesAreMounted(cs: seq<Client>, models: map<string, Tree>, answers: map<string, Answer>,
                           managed: seq<MountDef>, target: string)
    requires ListsClients(cs, models, answers) && Serving(managed, cs) && SomeAsksToRead(models, answers, target)
    ensures exists d :: d in managed && d.target == target
  {
    hide ClientOf, AsksToRead, ArchiveNeeds, SqliteNeeds;
    var name :| name in models && name in answers && AsksToRead(models[name], name, answers[name], target);
    var i :| 0 <= i < |cs| && cs[i].model == name;
    ClientReads(models[name], name, answers[name], target);
    var d :| d in ArchiveNeeds(cs[i]) && d.target == target;
    assert Wants(cs, d) && ServedBy(managed, d);
    assert First(managed, target) in managed;
  }
}
