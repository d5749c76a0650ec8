// When two models, or two mounts, are taken for one (internal/pipeline/volumes.go:99-105,
// 139-157, 234-241).
module Collisions {
  import opened Wrappers
  import opened Text
  import opened Docker
  import opened EngineSpec
  import opened Volumes
  import opened Collecting
  import opened Locations
  import opened PathMeaning

  // ---- Targets ----

  /** The piece y0 of text belongs to the name of model b, and to the destination x. */
  ghost predicate Shifted(a: string, x: string, b: string, y: string, y0: string) {
    y0 != "" && b == a + y0 && x == y0 + y
  }

  /** Two models are given one target exactly if a piece of one destination is at the end of
      the other model's name; as destinations begin with a slash, so does the piece. */
  lemma TargetsCollideExactly(a: string, x: string, b: string, y: string)
    requires a != b
    ensures VOLUMES + a + x == VOLUMES + b + y <==>
            (exists y0 :: Shifted(a, x, b, y, y0)) || (exists y0 :: Shifted(b, y, a, x, y0))
  {
    if VOLUMES + a + x == VOLUMES + b + y {
      SameTail(VOLUMES, a, x, b, y);
      if |a| <= |b| { LongerModel(a, x, b, y); } else { LongerModel(b, y, a, x); }
    }
    if y0 :| Shifted(a, x, b, y, y0) { ShiftedTargets(a, x, b, y, y0); }
    if y0 :| Shifted(b, y, a, x, y0) { ShiftedTargets(b, y, a, x, y0); }
  }

  lemma SameTail(v: string, a: string, x: string, b: string, y: string)
    requires v + a + x == v + b + y
    ensures a + x == b + y
  {
    assert (v + a + x)[|v|..] == a + x && (v + b + y)[|v|..] == b + y;
  }

  lemma LongerModel(a: string, x: string, b: string, y: string)
    requires a + x == b + y && |a| <= |b| && a != b
    ensures exists y0 :: Shifted(a, x, b, y, y0)
  {
    var s, y0 := a + x, b[|a|..];
    assert s[..|a|] == a && s[..|b|] == b && b == b[..|a|] + y0;
    assert b[..|a|] == s[..|a|];
    assert s[|a|..] == x && s[|a|..] == s[|a|..|b|] + s[|b|..] && s[|b|..] == y;
    assert Shifted(a, x, b, y, y0);
  }

  lemma ShiftedTargets(a: string, x: string, b: string, y: string, y0: string)
    requires Shifted(a, x, b, y, y0)
    ensures VOLUMES + a + x == VOLUMES + b + y
  {
    assert VOLUMES + a + (y0 + y) == VOLUMES + (a + y0) + y;
  }

  /** A model with a slash in its name is given another model's data: its volume is not
      mounted, and its rewritten include leads to the other model's volume. */
  lemma SlashesCollide(va: string, vb: string, existing: seq<MountPoint>, secrets: seq<MountDef>)
    requires va != "" && vb != "" && ':' !in va && ':' !in vb && va != vb
    requires WellPlaced(existing) && AreSecrets(secrets)
    ensures var a := Client("m", [MountPoint(Volume, va, "", "/x/d", true)], ["/x/d"], map[]);
            var b := Client("m/x", [MountPoint(Volume, vb, "", "/d", true)], ["/d"], map[]);
            var da, db := MountDef(Volume, va, "/volumes/m/x/d", true), MountDef(Volume, vb, "/volumes/m/x/d", true);
            && ArchiveNeeds(a) == {da} && ArchiveNeeds(b) == {db}
            && ByTarget(FirstByKey([da, db])) == [da]
            && Rewritten(DestMap(b.mounts), b.model, b.includes) == ["/volumes/m/x/d"]
            && DataAt(EngineMounts(existing, [da], secrets), "/volumes/m/x/d") == Some(Data(Volume, va, []))
            && DataAt(Defs(b.mounts), "/d") == Some(Data(Volume, vb, []))
  {
    hide ArchiveNeeds, FirstByKey, ByTarget, Rewritten, DataOn, EngineMounts, WellPlaced, AreSecrets;
    var pa, pb := MountPoint(Volume, va, "", "/x/d", true), MountPoint(Volume, vb, "", "/d", true);
    OneNeed("m", pa);
    OneNeed("m/x", pb);
    assert VOLUMES + "m" + "/x/d" == "/volumes/m/x/d" == VOLUMES + "m/x" + "/d";
    var da, db := MountDef(Volume, va, "/volumes/m/x/d", true), MountDef(Volume, vb, "/volumes/m/x/d", true);
    BothThenOne(da, db);
    OneRewritten("m/x", pb);
    CleanCases();
    OneMountFound(pb);
    FoundInEngine(Client("m", [pa], ["/x/d"], map[]), pa, da, existing, secrets);
  }

  lemma CleanCases()
    ensures Clean("/x/d") && Clean("/d") && Clean("/volumes/m/x/d") && Named("m")
  {
    hide Split;
    SplitPlain("x", '/');
    SplitPlain("d", '/');
    SplitConcat("x", "d", '/');
    assert "/x/d"[1..] == "x" + ['/'] + "d" && "/d"[1..] == "d";
    assert Named("x") && Named("d") && Named("m");
    assert Split("/x/d"[1..], '/') == ["x", "d"] && Split("/d"[1..], '/') == ["d"];
    UnderM("/x/d");
    assert "/volumes/m" + "/x/d" == "/volumes/m/x/d";
  }

  lemma UnderM(dst: string)
    requires Clean(dst)
    ensures Clean("/volumes/m" + dst)
  {
    hide Clean;
    CleanUnderModel("m", dst);
    assert "/volumes/" + "m" + dst == "/volumes/m" + dst;
  }

  lemma BothThenOne(d: MountDef, e: MountDef)
    requires ':' !in d.source && ':' !in e.source && d.source != e.source && d.target == e.target && d.readOnly
             && e.readOnly
    ensures ByTarget(FirstByKey([d, e])) == [d]
  {
    assert Key(d) != Key(e) by {
      if Key(d) == Key(e) {
        assert Key(d)[|d.source|] == ':' && Key(e)[|e.source|] == ':';
        KeyCollidesExactly(d, e);
      }
    }
    assert [d, e][..1] == [d] && [d][..0] == [];
    assert FirstByKey([d]) == [d] && FirstByKey([d, e]) == [d, e];
    assert ByTarget([d]) == [d];
  }

  lemma OneRewritten(model: string, mp: MountPoint)
    requires mp.destination != "" && mp.destination[|mp.destination| - 1] != '/'
    ensures Rewritten(DestMap([mp]), model, [mp.destination]) == [VOLUMES + model + mp.destination]
  {
    var dst := mp.destination;
    assert [mp][..0] == [] && DestMap([mp]) == map[dst := mp];
    assert Backing(dst, DestMap([mp])) == Some(dst);
    assert [dst][1..] == [];
    assert Rewritten(DestMap([mp]), model, []) == [];
  }

  /** A container finds a mount's destination on that mount. */
  lemma OneMountFound(mp: MountPoint)
    requires mp.kind.Volume? && mp.name != ""
    ensures DataAt(Defs([mp]), mp.destination) == Some(Data(Volume, mp.name, []))
  {
    hide Location;
    var ds := Defs([mp]);
    assert ds == [Def(mp)] && Def(mp) in ds;
    var found := MountAt(ds, mp.destination);
    assert found == Some(Def(mp));
    assert Location(mp.destination)[|Location(mp.destination)|..] == [];
  }

  lemma OneIsPlaced(mp: MountPoint)
    requires Clean(mp.destination)
    ensures WellPlaced([mp])
  {
  }

  lemma FoundInEngine(c: Client, mp: MountPoint, d: MountDef, existing: seq<MountPoint>, secrets: seq<MountDef>)
    requires Named(c.model) && c.mounts == [mp] && WellPlaced(existing) && AreSecrets(secrets) && Clean(mp.destination)
    requires ArchiveNeeds(c) == {d} && d.target == VOLUMES + c.model + mp.destination && !d.kind.Tmpfs?
    ensures DataAt(EngineMounts(existing, [d], secrets), d.target) == Some(Data(d.kind, d.source, []))
  {
    hide Location, Clean, EngineMounts, ArchiveNeeds, WellPlaced, AreSecrets;
    var all := EngineMounts(existing, [d], secrets);
    OneIsPlaced(mp);
    EngineHasManaged(existing, [d], secrets, d);
    assert Wants([c], d) by { assert d in ArchiveNeeds([c][0]); }
    var found := MountAt(all, d.target);
    var e := found.value;
    WantedAreVolumes([c], [d]);
    EngineIsClean(existing, [d], secrets, e);
    CleanUnderModel(c.model, mp.destination);
    assert Location(e.target) == Location(d.target);
    BelowVolumes(e.target, Location(d.target));
    OnlyManagedBelow(existing, [d], secrets, e);
    assert Location(d.target)[|Location(d.target)|..] == [];
  }

  // ---- Keys ----

  lemma WantedPlace(cs: seq<Client>, d: MountDef) returns (i: nat, dst: string)
    requires ProperClients(cs) && Wants(cs, d)
    ensures i < |cs| && dst in DestMap(cs[i].mounts) && Clean(dst)
    ensures d == MountFor(DestMap(cs[i].mounts), cs[i].model, dst, d.readOnly)
    ensures Location(d.target) == ["volumes", cs[i].model] + Location(dst)
  {
    hide DestMap, Clean, Location, Wants, AsksFor, Backing;
    i, dst := WantedFrom(cs, d);
    DestinationIsMounted(cs[i].mounts, dst);
    CleanUnderModel(cs[i].model, dst);
  }

  /** Proper models are given one mount for one target. */
  lemma OneMountForTarget(cs: seq<Client>, d: MountDef, e: MountDef)
    requires ProperClients(cs) && Wants(cs, d) && Wants(cs, e) && d.target == e.target && d.readOnly == e.readOnly
    ensures d == e
  {
    hide DestMap, Clean, Location, Wants, MountFor;
    var i, x := WantedPlace(cs, d);
    var j, y := WantedPlace(cs, e);
    SamePlace(cs[i].model, Location(x), cs[j].model, Location(y));
    assert i == j;
    CleanInjective(x, y);
  }

  /** Keeping the first mount of each key keeps one for every target that an archive wants,
      if and only if no two targets share a key. */
  lemma ArchivesAreServedExactly(cs: seq<Client>, mounts: seq<MountDef>)
    requires ProperClients(cs)
    requires OnlyForArchives(mounts, cs) && AllKeys(mounts, cs) && DistinctKeys(mounts)
    ensures AllForArchives(mounts, cs) <==> KeysApart(cs)
  {
    hide Key, ArchiveWants, ProperClients, AllForArchives, AllKeys, OnlyForArchives, DistinctKeys;
    KeysServe(cs, mounts);
    if AllForArchives(mounts, cs) {
      forall d, e | ArchiveWants(cs, d) && ArchiveWants(cs, e) && Key(d) == Key(e) ensures d.target == e.target {
        KeptForTarget(cs, mounts, d);
        KeptForTarget(cs, mounts, e);
        KeyOnce(mounts, d, e);
      }
    }
  }

  lemma KeyOnce(mounts: seq<MountDef>, d: MountDef, e: MountDef)
    requires DistinctKeys(mounts) && d in mounts && e in mounts && Key(d) == Key(e)
    ensures d == e
  {
    hide Key;
    var i :| 0 <= i < |mounts| && mounts[i] == d;
    var j :| 0 <= j < |mounts| && mounts[j] == e;
    assert i == j;
  }

  lemma KeptForTarget(cs: seq<Client>, mounts: seq<MountDef>, d: MountDef)
    requires ProperClients(cs) && OnlyForArchives(mounts, cs) && AllForArchives(mounts, cs) && ArchiveWants(cs, d)
    ensures d in mounts
  {
    hide ProperClients;
    var e :| e in mounts && Serves(e, d);
    ArchivesAreReadOnly(cs, d);
    ArchivesAreReadOnly(cs, e);
    OneMountForTarget(cs, d, e);
  }

  lemma ArchivesAreReadOnly(cs: seq<Client>, d: MountDef)
    requires ArchiveWants(cs, d)
    ensures d.readOnly && Wants(cs, d)
  {
  }

  /** Two models as Docker allows them for which no list with one mount for each key serves
      both archives (see Collecting.MarkedSourcesCollide). */
  lemma MarkedSourcesStarve(mounts: seq<MountDef>)
    ensures var a := MountPoint(Bind, "", "/a", "/volumes/n/x", true);
            var b := MountPoint(Bind, "", "/a:/volumes/m", "/x", true);
            var cs := [Client("m:", [a], [a.destination], map[]), Client("n", [b], [b.destination], map[])];
            && ProperClients(cs)
            && (OnlyForArchives(mounts, cs) && AllKeys(mounts, cs) && DistinctKeys(mounts) ==>
                  !AllForArchives(mounts, cs))
  {
    hide Key, ArchiveNeeds, AllForArchives, AllKeys, OnlyForArchives, DistinctKeys;
    var a, b := MountPoint(Bind, "", "/a", "/volumes/n/x", true), MountPoint(Bind, "", "/a:/volumes/m", "/x", true);
    var cs := [Client("m:", [a], [a.destination], map[]), Client("n", [b], [b.destination], map[])];
    var d, e := MountDef(Bind, "/a", "/volumes/m:/volumes/n/x", true),
        MountDef(Bind, "/a:/volumes/m", "/volumes/n/x", true);
    MarkedSourcesCollide();
    assert ArchiveWants(cs, d) && ArchiveWants(cs, e) by {
      assert d in ArchiveNeeds(cs[0]) && e in ArchiveNeeds(cs[1]);
    }
    SplitSame(d, e, "/volumes/m");
    MarkedAreProper(a, b);
    if OnlyForArchives(mounts, cs) && AllKeys(mounts, cs) && DistinctKeys(mounts) {
      ArchivesAreServedExactly(cs, mounts);
    }
  }

  lemma MarkedAreProper(a: MountPoint, b: MountPoint)
    requires a.destination == "/volumes/n/x" && b.destination == "/x"
    ensures ProperClients([Client("m:", [a], [a.destination], map[]), Client("n", [b], [b.destination], map[])])
  {
    hide Split;
    SplitPlain("x", '/');
    assert "/x"[1..] == "x" && Named("x") && Clean("/x");
    CleanUnderModel("n", "/x");
    assert "/volumes/" + "n" + "/x" == "/volumes/n/x";
    assert "m:" != "n" by { assert |"m:"| == 2; }
  }

  /** The engine has the mount of a model that is gone, and another model asks for a mount of
      another source with another target: their keys are one, and the engine keeps the old. */
  lemma BarsCollide()
    ensures var a := MountPoint(Bind, "", "/a", "/volumes/n/x", true);
            var b := MountPoint(Bind, "", "/a|/volumes/m", "/x", true);
            var d := MountDef(Bind, "/a", "/volumes/m|/volumes/n/x", true);
            var e := MountDef(Bind, "/a|/volumes/m", "/volumes/n/x", true);
            var engine := MountPoint(Bind, "", "/a", "/volumes/m|/volumes/n/x", false);
            && ArchiveNeeds(Client("m|", [a], [a.destination], map[])) == {d}
            && ArchiveNeeds(Client("n", [b], [b.destination], map[])) == {e}
            && Defs([engine]) == [d] && Merged([engine], [e]) == [e]
            && BarTwice(d, e, "/volumes/m") && SameMounts([engine], Merged([engine], [e]))
            && multiset(Defs([engine])) != multiset(Merged([engine], [e]))
  {
    hide ArchiveNeeds, MountKey, BarTwice, Merged, SameMounts;
    OneNeed("m|", MountPoint(Bind, "", "/a", "/volumes/n/x", true));
    OneNeed("n", MountPoint(Bind, "", "/a|/volumes/m", "/x", true));
    var d := MountDef(Bind, "/a", "/volumes/m|/volumes/n/x", true);
    var e := MountDef(Bind, "/a|/volumes/m", "/volumes/n/x", true);
    BarTargets();
    BarSplit(d, e);
    MountKeyCollidesExactly(d, e);
    OldIsKept(d, e, MountPoint(Bind, "", "/a", "/volumes/m|/volumes/n/x", false));
  }

  lemma BarTargets()
    ensures VOLUMES + "m|" + "/volumes/n/x" == "/volumes/m|/volumes/n/x" && VOLUMES + "n" + "/x" == "/volumes/n/x"
  {
  }

  lemma BarSplit(d: MountDef, e: MountDef)
    requires d.source == "/a" && d.target == "/volumes/m|/volumes/n/x"
    requires e.source == "/a|/volumes/m" && e.target == "/volumes/n/x"
    ensures BarTwice(d, e, "/volumes/m") && VOLUMES <= d.target && d != e
  {
    assert "/a" + ['|'] + "/volumes/m" == "/a|/volumes/m";
    assert "/volumes/m" + ['|'] + "/volumes/n/x" == "/volumes/m|/volumes/n/x";
    assert |d.source| != |e.source|;
  }

  lemma OldIsKept(d: MountDef, e: MountDef, p: MountPoint)
    requires Def(p) == d && VOLUMES <= d.target && d != e && MountKey(d) == MountKey(e)
    ensures Defs([p]) == [d] && Merged([p], [e]) == [e] && SameMounts([p], Merged([p], [e]))
    ensures multiset(Defs([p])) != multiset(Merged([p], [e]))
  {
    hide MountKey;
    assert [p][1..] == [] && Defs([]) == [];
    assert Defs([p]) == [d] && [d][1..] == [];
    assert Only(false, []) == [] && Only(false, [d]) == [];
    assert MountKey(e) in Keys([e]) by { assert e in [e]; }
    assert d in multiset([d]) && d !in multiset([e]);
  }
}
