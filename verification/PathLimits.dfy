// Where volume discovery, which compares paths as text, and the kernel, which follows them, part
// (internal/pipeline/volumes.go:91-106, 167-189), and where two models or mounts are confused.
module PathLimits {
  import opened Wrappers
  import opened Text
  import opened Docker
  import opened EngineSpec
  import opened Volumes
  import opened Collecting
  import opened Locations
  import opened PathMeaning

  // ---- Climbing ----

  /** The engine has the data of the client's mount d at the model's place for it and nowhere
      else. */
  ghost predicate OnlyThere(c: Client, d: MountDef, engine: seq<MountDef>) {
    forall e :: e in engine && e.kind == d.kind && e.source == d.source ==> e.target == VOLUMES + c.model + d.target
  }

  /** A path that climbs out of its start leaves the model's directory, and finds its data only
      where that is mounted once more. */
  lemma ClimbingMisses(c: Client, path: string, engine: seq<MountDef>)
    requires Named(c.model) && WellPlaced(c.mounts) && path != "" && path[0] == '/' && Climb(path) > 0
    requires SameData(c, path, engine)
    ensures !OnlyThere(c, MountAt(Defs(c.mounts), path).value, engine)
  {
    hide Location, Clean, MountOn;
    var d := MountAt(Defs(c.mounts), path).value;
    var e := MountAt(engine, VOLUMES + c.model + path).value;
    UnderModel(c.model, path);
    var base := ["volumes", c.model][..2 - Min(2, Climb(path))];
    SameLength(base, Location(path), Location(e.target), Location(d.target));
    MountedIsDestination(c.mounts, d);
    CleanUnderModel(c.model, d.target);
    assert |Location(e.target)| < |["volumes", c.model] + Location(d.target)|;
  }

  /** All rewritten paths, if no data is mounted twice: the engine reads the same data exactly
      when the path does not climb and the model asks for the mount that the kernel finds. */
  lemma SameDataOrClimbing(cs: seq<Client>, i: nat, path: string, readOnly: bool,
                           existing: seq<MountPoint>, managed: seq<MountDef>, secrets: seq<MountDef>)
    requires ProperClients(cs) && Serving(managed, cs) && AreSecrets(secrets) && WellPlaced(existing)
    requires Rewrites(cs, i, path, readOnly)
    requires var d := MountAt(Defs(cs[i].mounts), path);
             d.Some? ==> OnlyThere(cs[i], d.value, EngineMounts(existing, managed, secrets))
    ensures SameData(cs[i], path, EngineMounts(existing, managed, secrets)) <==>
            Climb(path) == 0 && Reachable(cs[i], path, false)
  {
    hide Location, Clean, MountOn, DestMap, Climb, EngineMounts, Reachable, Serving, AreSecrets, Backing, OnlyThere;
    if Climb(path) == 0 {
      SameDataExactly(cs, i, path, readOnly, existing, managed, secrets);
    } else if SameData(cs[i], path, EngineMounts(existing, managed, secrets)) {
      StartsAtRoot(cs[i].mounts, path);
      ClimbingMisses(cs[i], path, EngineMounts(existing, managed, secrets));
    }
  }

  lemma StartsAtRoot(mps: seq<MountPoint>, path: string)
    requires WellPlaced(mps) && Backing(path, DestMap(mps)).Some?
    ensures path != "" && path[0] == '/'
  {
    hide DestMap, Clean, Backing;
    var dst := Backing(path, DestMap(mps)).value;
    BackingInMap(path, DestMap(mps));
    DestinationIsMounted(mps, dst);
    CleanIsLong(dst);
    RootedPath(path, DestMap(mps));
  }

  // ---- A second slash ----

  /** A mount inside the other's directory. */
  ghost predicate Nested(outer: MountPoint, inner: MountPoint, x: string) {
    && WellPlaced([outer, inner]) && Named(x)
    && inner.destination == outer.destination + "/" + x
  }

  function Direct(inner: MountPoint, f: string): string { inner.destination + "/" + f }

  function Doubled(outer: MountPoint, x: string, f: string): string { outer.destination + "//" + x + "/" + f }

  lemma DoubledIsSome(outer: MountPoint, x: string, f: string)
    ensures Doubled(outer, x, f) != ""
  {
  }

  lemma SplitClean(path: string)
    requires Clean(path)
    ensures Split(path, '/') == [""] + Location(path)
    ensures forall s :: s in Location(path) ==> Named(s)
  {
    SplitAbsolute(path);
    CleanLocation(path);
  }

  /** Both spellings lead to the same place, and neither climbs. */
  lemma SpellingsLocation(outer: MountPoint, inner: MountPoint, x: string, f: string)
    requires Nested(outer, inner, x) && Named(f)
    ensures Location(Doubled(outer, x, f)) == Location(outer.destination) + [x, f] && Climb(Doubled(outer, x, f)) == 0
    ensures Clean(Direct(inner, f)) && Location(Direct(inner, f)) == Location(outer.destination) + [x, f]
    ensures Location(inner.destination) == Location(outer.destination) + [x]
  {
    hide Split, Walk, Overshoot;
    var a := outer.destination;
    assert Clean([outer, inner][0].destination) && Clean([outer, inner][1].destination);
    SplitClean(a);
    SplitPlain(x, '/');
    SplitPlain(f, '/');
    SplitPlain("", '/');
    SplitConcat(a, x, '/');
    SplitConcat(inner.destination, f, '/');
    SplitConcat(x, f, '/');
    assert Split(x + ['/'] + f, '/') == [x, f];
    SplitConcat(a, "", '/');
    SplitConcat(a + ['/'] + "", x + ['/'] + f, '/');
    assert Doubled(outer, x, f) == (a + ['/'] + "") + ['/'] + (x + ['/'] + f);
    assert Split(Doubled(outer, x, f), '/') == [""] + Location(a) + ["", x, f];
    DirectLocation(a, Direct(inner, f), x, f);
    NamesAndGap(Location(a), x, f);
    CleanLocation(inner.destination);
    SplitAbsolute(inner.destination);
    assert [""] + Location(inner.destination) == [""] + (Location(a) + [x]);
    assert ([""] + Location(inner.destination))[1..] == ([""] + (Location(a) + [x]))[1..];
  }

  lemma NamesAndGap(at: Place, x: string, f: string)
    requires (forall s :: s in at ==> Named(s)) && Named(x) && Named(f)
    ensures Walk([""] + at + ["", x, f], []) == at + [x, f]
    ensures Overshoot([""] + at + ["", x, f], 0) == 0
  {
    WalkConcat([""] + at, ["", x, f], []);
    WalkConcat([""], at, []);
    assert [""][1..] == [];
    WalkNamed(at, []);
    assert [] + at == at;
    assert ["", x, f][1..] == [x, f];
    WalkNamed([x, f], at);
    NamedStayBelow([""] + at + ["", x, f], 0);
  }

  lemma DirectLocation(a: string, path: string, x: string, f: string)
    requires Clean(a) && Named(x) && Named(f) && path != "" && path[0] == '/'
    requires Split(path, '/') == [""] + Location(a) + [x, f]
    ensures Clean(path) && Location(path) == Location(a) + [x, f]
  {
    hide Split, Walk;
    SplitClean(a);
    SplitAbsolute(path);
    var names := Location(a) + [x, f];
    assert [""] + Split(path[1..], '/') == [""] + names;
    assert ([""] + Split(path[1..], '/'))[1..] == ([""] + names)[1..];
    assert Split(path[1..], '/') == names;
    assert |path| > 1 by { if path[1..] == "" { SplitPlain("", '/'); } }
    CleanLocation(path);
  }

  /** The kernel finds the inner mount, the text comparison the outer one. */
  lemma DoubledIsOuter(outer: MountPoint, inner: MountPoint, x: string, f: string)
    requires Nested(outer, inner, x) && Named(f)
    ensures Backing(Doubled(outer, x, f), DestMap([outer, inner])) == Some(outer.destination)
    ensures MountAt(Defs([outer, inner]), Doubled(outer, x, f)) == Some(Def(inner))
    ensures Backing(Direct(inner, f), DestMap([outer, inner])) == Some(inner.destination)
  {
    assert WellPlaced([outer, inner]);
    hide DestMap, Backing, Location, Clean, MountOn, Longest, Nested, WellPlaced;
    var mps, p, q := [outer, inner], Doubled(outer, x, f), Direct(inner, f);
    SpellingsLocation(outer, inner, x, f);
    DoubledText(outer, inner, x, f);
    InnerIsDeeper(outer, inner, p);
    InnerIsDeeper(outer, inner, q);
    CleanIsTrimmed(q);
    assert CleanEnough(q);
    BackingIsTheMount(mps, q);
  }

  lemma InnerIsDeeper(outer: MountPoint, inner: MountPoint, path: string)
    requires Location(inner.destination) <= Location(path)
    requires |Location(outer.destination)| < |Location(inner.destination)|
    ensures MountAt(Defs([outer, inner]), path) == Some(Def(inner))
  {
    hide Location, MountOn;
    var ds := Defs([outer, inner]);
    assert ds == [Def(outer), Def(inner)] && Def(inner) in ds;
    var found := MountAt(ds, path);
    assert found.Some?;
  }

  lemma DoubledText(outer: MountPoint, inner: MountPoint, x: string, f: string)
    requires Nested(outer, inner, x) && Named(f)
    ensures Backing(Doubled(outer, x, f), DestMap([outer, inner])) == Some(outer.destination)
  {
    assert f != "" && '/' !in f && x != "" && '/' !in x;
    hide DestMap, Backing, Clean, Longest, Named;
    var mps, p, a := [outer, inner], Doubled(outer, x, f), outer.destination;
    var m := DestMap(mps);
    assert p[|p| - 1] == f[|f| - 1] && TrimRight(p) == p;
    DestMapOf(mps);
    assert mps[0].destination in m && Clean(mps[0].destination);
    CleanIsLong(a);
    assert p[..|a|] == a && p[|a|] == '/' && p[|a| + 1] == '/';
    BackingIsLongest(p, m, a);
    BackingByText(p, m);
    var dst := Backing(p, m).value;
    DestinationIsMounted(mps, dst);
    assert Defs(mps) == [Def(outer), Def(inner)];
    InnerIsNoPrefix(outer, inner, x, f);
  }

  lemma InnerIsNoPrefix(outer: MountPoint, inner: MountPoint, x: string, f: string)
    requires inner.destination == outer.destination + "/" + x && x != "" && '/' !in x
    ensures !(inner.destination <= Doubled(outer, x, f))
  {
    var p, a := Doubled(outer, x, f), outer.destination;
    assert p[..|a|] == a && p[|a|] == '/' && p[|a| + 1] == '/';
    assert inner.destination[|a| + 1] == x[0] && x[0] in x;
  }

  /** One mount inside another, and an include spelled with a second slash: the client reads
      the inner mount and the engine does not. */
  lemma DoubleSlashMisses(model: string, outer: MountPoint, inner: MountPoint, x: string, f: string,
                          existing: seq<MountPoint>, managed: seq<MountDef>, secrets: seq<MountDef>)
    requires Named(model) && Nested(outer, inner, x) && Named(f)
    requires var c := Client(model, [outer, inner], [Doubled(outer, x, f)], map[]);
             Serving(managed, [c]) && AreSecrets(secrets) && WellPlaced(existing)
    ensures var c, path := Client(model, [outer, inner], [Doubled(outer, x, f)], map[]), Doubled(outer, x, f);
            && Rewrites([c], 0, path, true)
            && MountAt(Defs(c.mounts), path) == Some(Def(inner))
            && !SameData(c, path, EngineMounts(existing, managed, secrets))
  {
    hide Doubled, DestMap, Backing, Location, Clean, MountOn, EngineMounts, Serving, AreSecrets, Climb, SameData;
    var path := Doubled(outer, x, f);
    var c := Client(model, [outer, inner], [path], map[]);
    DoubledIsOuter(outer, inner, x, f);
    SpellingsLocation(outer, inner, x, f);
    assert SetOf(c.includes) == {path};
    assert Rewrites([c], 0, path, true);
    assert inner.destination != outer.destination by {
      assert [outer, inner][0].destination != [outer, inner][1].destination;
    }
    SameDataExactly([c], 0, path, true, existing, managed, secrets);
  }

  /** A database path spelled like that beside an archive of the inner mount: the engine finds
      it, but read-only. */
  lemma DatabaseBesideArchive(model: string, outer: MountPoint, inner: MountPoint, x: string, f: string,
                              existing: seq<MountPoint>, managed: seq<MountDef>, secrets: seq<MountDef>)
    requires Named(model) && Nested(outer, inner, x) && Named(f) && inner.kind in {Bind, Volume}
    requires !(VOLUMES <= Doubled(outer, x, f))
    requires var c := Client(model, [outer, inner], [Direct(inner, f)],
             map["db" := Database("sqlite", Doubled(outer, x, f))]);
             Serving(managed, [c]) && AreSecrets(secrets) && WellPlaced(existing)
    ensures var path := Doubled(outer, x, f);
            var c := Client(model, [outer, inner], [Direct(inner, f)], map["db" := Database("sqlite", path)]);
            var engine := EngineMounts(existing, managed, secrets);
            && Rewrites([c], 0, path, false)
            && SameData(c, path, engine) && !OnWritable(c, path, engine)
  {
    hide Doubled, Direct, DestMap, Backing, Location, Clean, MountOn, EngineMounts, Serving, AreSecrets, Climb,
         SameData, OnWritable;
    var path := Doubled(outer, x, f);
    var c := Client(model, [outer, inner], [Direct(inner, f)], map["db" := Database("sqlite", path)]);
    DoubledIsOuter(outer, inner, x, f);
    SpellingsLocation(outer, inner, x, f);
    DoubledIsSome(outer, x, f);
    assert "db" in c.dbs && c.dbs["db"].path == path && Untransformed(c.dbs["db"]);
    assert SqlitePaths(c.dbs) == {path};
    assert Rewrites([c], 0, path, false);
    assert inner.destination != outer.destination by {
      assert [outer, inner][0].destination != [outer, inner][1].destination;
    }
    assert Direct(inner, f) in SetOf(c.includes) && AsksFor(c, inner.destination, true);
    SameDataExactly([c], 0, path, false, existing, managed, secrets);
  }

  // ---- A mount below an include ----

  /** One mount inside another, and the outer directory as the only include: the engine has that
      directory and not what is mounted in it, so no file of the inner mount is archived. */
  lemma NestedMountIsMissed(model: string, outer: MountPoint, inner: MountPoint, x: string, f: string,
                            existing: seq<MountPoint>, managed: seq<MountDef>, secrets: seq<MountDef>)
    requires Named(model) && Nested(outer, inner, x) && Named(f) && outer.kind in {Bind, Volume}
    requires var c := Client(model, [outer, inner], [outer.destination], map[]);
             Serving(managed, [c]) && AreSecrets(secrets) && WellPlaced(existing)
    ensures var c, engine := Client(model, [outer, inner], [outer.destination], map[]),
            EngineMounts(existing, managed, secrets);
            && Rewrites([c], 0, outer.destination, true)
            && SameData(c, outer.destination, engine) && !SameTree(c, outer.destination, engine)
            && MountAt(Defs(c.mounts), Direct(inner, f)) == Some(Def(inner)) && !SameData(c, Direct(inner, f), engine)
  {
    hide Direct, DestMap, Backing, Location, Clean, MountOn, EngineMounts, Serving, AreSecrets, Climb, SameData,
         SameTree, OnWritable, OnWritableAt, SameDataOn;
    var path, c := outer.destination, Client(model, [outer, inner], [outer.destination], map[]);
    var engine := EngineMounts(existing, managed, secrets);
    SpellingsLocation(outer, inner, x, f);
    OuterIsFound(outer, inner, x);
    InnerIsDeeper(outer, inner, Direct(inner, f));
    assert SetOf(c.includes) == {path} && Rewrites([c], 0, path, true);
    assert inner.destination != path by { assert [outer, inner][0].destination != [outer, inner][1].destination; }
    CleanPathsKeepTheirData([c], 0, path, true, existing, managed, secrets);
    SameTreeExactly([c], 0, path, true, existing, managed, secrets);
    assert Def(inner) in Defs(c.mounts) && Def(inner).target == inner.destination by {
      assert Defs(c.mounts)[1] == Def(inner);
    }
    assert Location(path) <= Location(inner.destination) && !Shared(c, Def(inner), false);
    CleanUnderModel(model, Direct(inner, f));
    SamePlaceExactly([c], 0, Location(Direct(inner, f)), existing, managed, secrets);
    OfItsPlace(c, Direct(inner, f), engine);
  }

  lemma OuterIsFound(outer: MountPoint, inner: MountPoint, x: string)
    requires Nested(outer, inner, x)
    ensures WellPlaced([outer, inner]) && Clean(outer.destination) && CleanEnough(outer.destination)
    ensures Backing(outer.destination, DestMap([outer, inner])) == Some(outer.destination)
    ensures MountAt(Defs([outer, inner]), outer.destination) == Some(Def(outer))
  {
    hide DestMap, Backing, Location, Clean, MountOn, Longest;
    var mps, a := [outer, inner], outer.destination;
    assert Clean(mps[0].destination);
    CleanIsTrimmed(a);
    BackingIsTheMount(mps, a);
    var found := MountAt(Defs(mps), a);
    assert Defs(mps) == [Def(outer), Def(inner)] && Def(outer) in Defs(mps);
    assert Location(found.value.target) == Location(a);
    CleanIs(mps, found.value);
    CleanInjective(found.value.target, a);
    assert outer.destination != inner.destination by { assert mps[0].destination != mps[1].destination; }
  }

  lemma CleanIs(mps: seq<MountPoint>, d: MountDef)
    requires WellPlaced(mps) && d in Defs(mps)
    ensures Clean(d.target)
  {
    hide Clean, DestMap;
    MountedIsDestination(mps, d);
  }

  // ---- Targets that Docker cleans ----

  /** A target below a model is clean exactly if the model's name is made of names that stand for
      themselves. */
  lemma TargetIsCleanExactly(model: string, dst: string)
    requires Clean(dst)
    ensures Clean(VOLUMES + model + dst) <==> forall s :: s in Split(model, '/') ==> Named(s)
  {
    hide Split, Named;
    var t := VOLUMES + model + dst;
    var a := "volumes" + ['/'] + model;
    assert t[1..] == a + ['/'] + dst[1..] by { CleanIsLong(dst); }
    SplitConcat(a, dst[1..], '/');
    SplitConcat("volumes", model, '/');
    SplitPlain("volumes", '/');
    var names := Split(t[1..], '/');
    assert names == ["volumes"] + Split(model, '/') + Split(dst[1..], '/');
    VolumesIsNamed();
    forall s | s in Split(dst[1..], '/') ensures Named(s) {}
    forall s ensures s in names <==> s == "volumes" || s in Split(model, '/') || s in Split(dst[1..], '/') {}
  }

  lemma VolumesIsNamed()
    ensures Named("volumes")
  {
  }

  /** A container's mounts are clean, so an engine that is to have a mount at another target is
      replaced in every pass, however it was made. */
  lemma UncleanNeverSettles(current: seq<MountPoint>, managed: seq<MountDef>, d: MountDef)
    requires WellPlaced(current) && d in managed && !Clean(d.target)
    requires KeysTellApart(Defs(current), Merged(current, managed))
    ensures !SameMounts(current, Merged(current, managed))
  {
    hide Clean, DestMap, SameMounts, KeysTellApart;
    var desired := Merged(current, managed);
    assert d in desired && d in multiset(desired);
    DestinationsAreTargets(current);
    MountsEqualIsExact(current, desired);
    if d in Defs(current) { CleanIs(current, d); }
    assert d !in multiset(Defs(current));
  }

  lemma DestinationsAreTargets(mps: seq<MountPoint>)
    requires WellPlaced(mps)
    ensures DistinctTargets(Defs(mps))
  {
    hide Clean;
    assert forall i :: 0 <= i < |mps| ==> Defs(mps)[i].target == mps[i].destination;
  }
}
