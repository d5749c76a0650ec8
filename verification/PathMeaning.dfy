// A rewritten path names the same data in the engine as the original path did in the client
// container, for all models together.
module PathMeaning {
  import opened Wrappers
  import opened Text
  import opened Docker
  import opened EngineSpec
  import opened Volumes
  import opened Collecting
  import opened Locations

  /** Docker's rule for a container's mounts: clean destinations, no two alike. */
  ghost predicate WellPlaced(mps: seq<MountPoint>) {
    && (forall i :: 0 <= i < |mps| ==> Clean(mps[i].destination))
    && (forall i, j :: 0 <= i < j < |mps| ==> mps[i].destination != mps[j].destination)
  }

  // ---- The client ----

  lemma CleanIsTrimmed(path: string)
    requires Clean(path)
    ensures TrimRight(path) == path
  {
    var s := path[1..];
    if s[|s| - 1] == '/' { EndsEmpty(s); }
  }

  lemma EndsEmpty(s: string)
    requires s != "" && s[|s| - 1] == '/'
    ensures "" in Split(s, '/')
  {
    var t := s[..|s| - 1];
    SplitConcat(t, "", '/');
    assert s == t + ['/'] + "";
    assert (Split(t, '/') + [""])[|Split(t, '/')|] == "";
  }

  lemma {:induction false} DestMapOf(mps: seq<MountPoint>)
    requires WellPlaced(mps)
    ensures forall i :: 0 <= i < |mps| ==>
              mps[i].destination in DestMap(mps) && DestMap(mps)[mps[i].destination] == mps[i]
  {
    hide Clean;
    if mps != [] {
      var last := |mps| - 1;
      DestMapOf(mps[..last]);
      CleanIsTrimmed(mps[last].destination);
      forall i | 0 <= i < |mps|
        ensures mps[i].destination in DestMap(mps) && DestMap(mps)[mps[i].destination] == mps[i]
      {
        if i < last { assert mps[..last][i] == mps[i]; }
      }
    }
  }

  /** A destination of the map is a mount of the container. */
  lemma DestinationIsMounted(mps: seq<MountPoint>, dst: string)
    requires WellPlaced(mps) && dst in DestMap(mps)
    ensures Clean(dst) && Def(DestMap(mps)[dst]) in Defs(mps) && Def(DestMap(mps)[dst]).target == dst
  {
    hide Clean;
    DestMapValues(mps, dst);
    var i :| 0 <= i < |mps| && DestMap(mps)[dst] == mps[i] && TrimRight(mps[i].destination) == dst;
    CleanIsTrimmed(mps[i].destination);
    assert Defs(mps)[i] == Def(mps[i]);
  }

  /** And the other way round. */
  lemma MountedIsDestination(mps: seq<MountPoint>, d: MountDef)
    requires WellPlaced(mps) && d in Defs(mps)
    ensures d.target in DestMap(mps) && d == Def(DestMap(mps)[d.target]) && Clean(d.target)
  {
    hide Clean;
    var i :| 0 <= i < |mps| && Defs(mps)[i] == d;
    DestMapOf(mps);
    assert mps[i].destination == d.target;
  }

  /** On clean paths the text tells what contains what. */
  lemma Contains(d: string, t: string)
    requires Clean(d) && Clean(t)
    ensures (d == t || d + "/" <= t) <==> Location(d) <= Location(t)
  {
    hide Split;
    CleanLocation(d);
    CleanLocation(t);
    SplitPrefix(d[1..], t[1..], '/');
    assert d == "/" + d[1..] && t == "/" + t[1..];
    assert (d + "/" <= t) <==> (d[1..] + ['/'] <= t[1..]) by {
      if d + "/" <= t { assert t[1..][..|d|] == (d + "/")[1..]; }
      if d[1..] + ['/'] <= t[1..] { assert t[..|d| + 1] == "/" + t[1..][..|d|]; }
    }
    if Location(d) == Location(t) { CleanInjective(d, t); }
  }

  lemma {:induction false} TrimLocation(path: string)
    ensures Location(TrimRight(path)) == Location(path) && Climb(TrimRight(path)) == Climb(path)
  {
    hide Split, Walk, Overshoot;
    if path != "" && path[|path| - 1] == '/' {
      var t := path[..|path| - 1];
      TrimLocation(t);
      assert path == t + ['/'] + "";
      SplitConcat(t, "", '/');
      SplitPlain("", '/');
      WalkConcat(Split(t, '/'), [""], []);
      NothingMore(Split(t, '/'));
    }
  }

  lemma NothingMore(names: seq<string>)
    ensures forall at :: Walk([""], at) == at
    ensures Overshoot(names + [""], 0) == Overshoot(names, 0)
  {
    OvershootEmpty(names, 0);
    assert [""][1..] == [];
  }

  lemma {:induction false} OvershootEmpty(names: seq<string>, depth: nat)
    ensures Overshoot(names + [""], depth) == Overshoot(names, depth)
  {
    if names == [] {
      assert [] + [""] == [""] && [""][1..] == [];
    } else {
      assert (names + [""])[1..] == names[1..] + [""];
      var s := names[0];
      var next: nat := if s == "" || s == "." then depth else if s != ".." then depth + 1 else if depth > 0 then
          depth - 1 else 0;
      OvershootEmpty(names[1..], next);
    }
  }

  lemma {:induction false} NamedStayBelow(names: seq<string>, depth: nat)
    requires forall s :: s in names ==> s == "" || Named(s)
    ensures Overshoot(names, depth) == 0
  {
    if names != [] {
      assert names[0] in names && forall s :: s in names[1..] ==> s in names;
      NamedStayBelow(names[1..], if names[0] == "" then depth else depth + 1);
    }
  }

  lemma CleanStaysBelow(path: string)
    requires Clean(path)
    ensures Climb(path) == 0
  {
    SplitAbsolute(path);
    OvershootRoot(Split(path[1..], '/'));
    NamedStayBelow(Split(path[1..], '/'), 0);
  }

  /** A clean path, but for slashes at its end. */
  predicate CleanEnough(path: string) {
    Clean(TrimRight(path))
  }

  /** findMountForPath finds the mount that the client container finds a clean path on. */
  lemma BackingIsTheMount(mps: seq<MountPoint>, path: string)
    requires WellPlaced(mps) && CleanEnough(path)
    ensures var dst, d := Backing(path, DestMap(mps)), MountAt(Defs(mps), path);
            && (dst.Some? <==> d.Some?)
            && (dst.Some? ==>
                  && dst.value in DestMap(mps) && d.value == Def(DestMap(mps)[dst.value])
                  && d.value.target == dst.value)
  {
    hide Clean, DestMap, TrimRight, Location, Longest;
    var d := MountAt(Defs(mps), path);
    if Backing(path, DestMap(mps)).Some? { BackingIsContaining(mps, path); }
    if d.Some? {
      MountedIsDestination(mps, d.value);
      MountIsBacking(mps, path, d.value);
    }
  }

  lemma BackingByText(path: string, m: map<string, MountPoint>)
    requires Backing(path, m).Some?
    ensures var dst, t := Backing(path, m).value, TrimRight(path);
            dst in m && (dst == t || dst + "/" <= t)
  {
    hide TrimRight;
    var t := TrimRight(path);
    var n := Longest(t, m.Keys, |t|);
    if t !in m && n < |t| { assert t[..n] + "/" == t[..n + 1]; }
  }

  /** What discovery finds is on the way. */
  lemma BackingIsContaining(mps: seq<MountPoint>, path: string)
    requires WellPlaced(mps) && CleanEnough(path) && Backing(path, DestMap(mps)).Some?
    ensures var dst := Backing(path, DestMap(mps)).value;
            && dst in DestMap(mps) && Def(DestMap(mps)[dst]) in Defs(mps) && Def(DestMap(mps)[dst]).target == dst
            && Location(dst) <= Location(path)
  {
    hide Clean, DestMap, TrimRight, Location, Backing, WellPlaced;
    TrimLocation(path);
    BackingByText(path, DestMap(mps));
    var dst := Backing(path, DestMap(mps)).value;
    DestinationIsMounted(mps, dst);
    Contains(dst, TrimRight(path));
  }

  /** What the text contains is contained in what discovery finds. */
  lemma BackingIsLongest(path: string, m: map<string, MountPoint>, x: string)
    requires x in m && x != "" && (x == TrimRight(path) || x + "/" <= TrimRight(path))
    ensures Backing(path, m).Some?
    ensures var dst := Backing(path, m).value; x == dst || x + "/" <= dst
  {
    hide TrimRight;
    var t := TrimRight(path);
    var n := Longest(t, m.Keys, |t|);
    assert t[..|t|] == t && t[..|x|] == x;
    assert Ends(t, |x|) && |x| <= n;
    var dst := Backing(path, m).value;
    assert dst == t[..n] by { assert t in m ==> n == |t|; }
    assert |x| < n ==> (x + "/")[|x|] == t[|x|] && x + "/" == t[..|x| + 1];
  }

  /** What is on the way deepest is found. */
  lemma MountIsBacking(mps: seq<MountPoint>, path: string, d: MountDef)
    requires WellPlaced(mps) && CleanEnough(path) && MountAt(Defs(mps), path) == Some(d)
    ensures Backing(path, DestMap(mps)) == Some(d.target)
  {
    hide Clean, DestMap, TrimRight, Location, Backing, WellPlaced;
    var m := DestMap(mps);
    TrimLocation(path);
    MountedIsDestination(mps, d);
    Contains(d.target, TrimRight(path));
    assert d.target != "" by { CleanIsLong(d.target); }
    BackingIsLongest(path, m, d.target);
    BackingIsContaining(mps, path);
    var dst := Backing(path, m).value;
    DestinationIsMounted(mps, dst);
    Contains(d.target, dst);
    CleanInjective(dst, d.target);
  }

  lemma CleanIsLong(path: string)
    requires Clean(path)
    ensures |path| > 1 && path[0] == '/'
  {
  }

  // ---- The engine ----

  /** Models with names that can be one directory, rendered from containers as Docker has them. */
  ghost predicate ProperClients(cs: seq<Client>) {
    && (forall i :: 0 <= i < |cs| ==> Named(cs[i].model) && WellPlaced(cs[i].mounts))
    && (forall i, j :: 0 <= i < j < |cs| ==> cs[i].model != cs[j].model)
  }

  /** Some path of the model is looked up at this destination. */
  ghost predicate AsksFor(c: Client, dst: string, readOnly: bool) {
    exists p :: p in (if readOnly then SetOf(c.includes) else SqlitePaths(c.dbs))
        && Backing(p, DestMap(c.mounts)) == Some(dst)
  }

  lemma BackingInMap(path: string, m: map<string, MountPoint>)
    ensures Backing(path, m).Some? ==> Backing(path, m).value in m
  {
  }

  lemma AskedIsWanted(cs: seq<Client>, i: nat, dst: string, readOnly: bool)
    requires i < |cs| && AsksFor(cs[i], dst, readOnly)
    ensures dst in DestMap(cs[i].mounts)
    ensures Wants(cs, MountFor(DestMap(cs[i].mounts), cs[i].model, dst, readOnly))
  {
    hide DestMap, Backing;
    var c, m := cs[i], DestMap(cs[i].mounts);
    var p :| p in (if readOnly then SetOf(c.includes) else SqlitePaths(c.dbs)) && Backing(p, m) == Some(dst);
    BackingInMap(p, m);
    var need := MountFor(m, c.model, dst, readOnly);
    assert ResolvePath(m, c.model, p, readOnly).value.mount == need;
    if readOnly {
      assert need in ArchiveNeeds(c);
    } else {
      assert need in SqliteNeeds(c);
    }
  }

  /** A managed mount comes from one client's destination. */
  lemma WantedFrom(cs: seq<Client>, d: MountDef) returns (i: nat, dst: string)
    requires Wants(cs, d)
    ensures i < |cs| && AsksFor(cs[i], dst, d.readOnly) && dst in DestMap(cs[i].mounts)
    ensures d == MountFor(DestMap(cs[i].mounts), cs[i].model, dst, d.readOnly)
  {
    hide DestMap, Backing;
    i :| i < |cs| && (d in ArchiveNeeds(cs[i]) || d in SqliteNeeds(cs[i]));
    var c, m := cs[i], DestMap(cs[i].mounts);
    var ro := d in ArchiveNeeds(c);
    var paths := if ro then SetOf(c.includes) else SqlitePaths(c.dbs);
    var p :| p in paths && ResolvePath(m, c.model, p, ro).Some? && ResolvePath(m, c.model, p, ro).value.mount == d;
    dst := Backing(p, m).value;
    BackingInMap(p, m);
  }

  /** The engine's mounts after a replacement (see EngineSpec.Merged). */
  function EngineMounts(existing: seq<MountPoint>, managed: seq<MountDef>, secrets: seq<MountDef>): seq<MountDef> {
    Merged(existing, managed + secrets)
  }

  /** Mounts below /gobackup-secrets/, as clean as Docker makes them. */
  ghost predicate AreSecrets(ds: seq<MountDef>) {
    forall d :: d in ds ==> SECRET_PREFIX <= d.target && Clean(d.target)
  }

  lemma PrefixesApart(t: string)
    ensures !(VOLUMES <= t && SECRET_PREFIX <= t)
  {
    assert VOLUMES[1] != SECRET_PREFIX[1];
  }

  /** Below /volumes/ the engine has the managed mounts and nothing else. */
  lemma OnlyManagedBelow(existing: seq<MountPoint>, managed: seq<MountDef>, secrets: seq<MountDef>, d: MountDef)
    requires AreSecrets(secrets)
    requires d in EngineMounts(existing, managed, secrets) && VOLUMES <= d.target
    ensures d in managed
  {
    hide Clean;
    var kept := Only(false, Defs(existing));
    OnlyMembers(false, Defs(existing), d);
    assert multiset(kept)[d] == 0;
    PrefixesApart(d.target);
  }

  /** Wanted mounts are all below the managed prefixes, as EngineSpec asks. */
  lemma WantedAreManaged(cs: seq<Client>, managed: seq<MountDef>)
    requires forall d :: d in managed ==> Wants(cs, d)
    ensures AllManaged(managed)
  {
    hide Backing, DestMap, AsksFor, Wants;
    forall d | d in managed ensures IsManaged(d.target) {
      var i, dst := WantedFrom(cs, d);
      assert ARCHIVE_PREFIX <= d.target;
    }
  }

  /** Clean mounts below /volumes/. */
  ghost predicate AreVolumes(ds: seq<MountDef>) {
    forall d :: d in ds ==> VOLUMES <= d.target && Clean(d.target)
  }

  lemma WantedAreVolumes(cs: seq<Client>, managed: seq<MountDef>)
    requires ProperClients(cs) && forall e :: e in managed ==> Wants(cs, e)
    ensures AreVolumes(managed)
  {
    hide Clean, DestMap, Wants, Location;
    forall d | d in managed ensures VOLUMES <= d.target && Clean(d.target) {
      var j, dst := WantedFrom(cs, d);
      DestinationIsMounted(cs[j].mounts, dst);
      CleanUnderModel(cs[j].model, dst);
    }
  }

  /** All mounts of the engine are clean. */
  lemma EngineIsClean(existing: seq<MountPoint>, managed: seq<MountDef>, secrets: seq<MountDef>, d: MountDef)
    requires WellPlaced(existing) && AreVolumes(managed) && AreSecrets(secrets)
    requires d in EngineMounts(existing, managed, secrets)
    ensures Clean(d.target)
  {
    hide Clean;
    var kept := Only(false, Defs(existing));
    if d in kept {
      OnlyMembers(false, Defs(existing), d);
      assert d in multiset(kept);
      MountedIsDestination(existing, d);
    } else if d !in managed {
      assert d in secrets;
    }
  }

  lemma SamePlace(a: string, x: Place, b: string, y: Place)
    requires ["volumes", a] + x == ["volumes", b] + y
    ensures a == b && x == y
  {
    var here, there := ["volumes", a] + x, ["volumes", b] + y;
    assert here[1] == a && there[1] == b && here[2..] == x && there[2..] == y;
  }

  /** A mount below a model's directory is one of that model's. */
  lemma ModelsOwn(cs: seq<Client>, i: nat, existing: seq<MountPoint>, managed: seq<MountDef>, secrets: seq<MountDef>,
                  d: MountDef, x: Place)
    requires ProperClients(cs) && WellPlaced(existing) && AreSecrets(secrets) && i < |cs|
    requires forall e :: e in managed ==> Wants(cs, e)
    requires d in EngineMounts(existing, managed, secrets)
    requires Location(d.target) == ["volumes", cs[i].model] + x && x != []
    ensures d in managed
    ensures exists dst :: OwnMount(cs[i], d, dst) && Location(dst) == x
  {
    hide Clean, DestMap, Location, EngineMounts;
    WantedAreVolumes(cs, managed);
    EngineIsClean(existing, managed, secrets, d);
    BelowVolumes(d.target, ["volumes", cs[i].model] + x);
    OnlyManagedBelow(existing, managed, secrets, d);
    var j, dst := WantedFrom(cs, d);
    DestinationIsMounted(cs[j].mounts, dst);
    CleanUnderModel(cs[j].model, dst);
    SamePlace(cs[i].model, x, cs[j].model, Location(dst));
    assert j == i && OwnMount(cs[i], d, dst);
  }

  /** The mount that makes destination dst of the client available, because it asked for it. */
  ghost predicate OwnMount(c: Client, d: MountDef, dst: string) {
    && AsksFor(c, dst, d.readOnly) && dst in DestMap(c.mounts)
    && d == MountFor(DestMap(c.mounts), c.model, dst, d.readOnly)
  }

  lemma BelowVolumes(target: string, at: Place)
    requires Clean(target) && Location(target) == at && |at| >= 2 && at[0] == "volumes"
    ensures VOLUMES <= target
  {
    CleanLocation(target);
    assert Join(at, '/') == "volumes" + ['/'] + Join(at[1..], '/');
    assert target == "/" + target[1..];
    assert target[..9] == VOLUMES;
  }

  // ---- The same data ----

  /** A path of client i that has a mount behind it by its text and was rewritten. */
  ghost predicate Rewrites(cs: seq<Client>, i: nat, path: string, readOnly: bool) {
    && i < |cs|
    && Backing(path, DestMap(cs[i].mounts)).Some?
    && path in (if readOnly then SetOf(cs[i].includes) else SqlitePaths(cs[i].dbs))
  }

  /** A place of the client, seen below the model's directory of the engine. */
  function Below(model: string, at: Place): Place {
    ["volumes", model] + at
  }

  /** The engine has there what the client has. */
  ghost predicate SameDataOn(c: Client, at: Place, engine: seq<MountDef>) {
    DataOn(Defs(c.mounts), at).Some? && DataOn(engine, Below(c.model, at)) == DataOn(Defs(c.mounts), at)
  }

  ghost predicate OnWritableAt(c: Client, at: Place, engine: seq<MountDef>) {
    var d := MountOn(engine, Below(c.model, at));
    d.Some? && !d.value.readOnly
  }

  /** A mount that can be shared and that one of the model's paths asks for; for writing, one
      of its databases does. */
  ghost predicate Shared(c: Client, d: MountDef, forWriting: bool) {
    d.kind in {Bind, Volume} && (AsksFor(c, d.target, false) || (!forWriting && AsksFor(c, d.target, true)))
  }

  /** The client finds the place on such a mount. */
  ghost predicate ReachableOn(c: Client, at: Place, forWriting: bool) {
    var d := MountOn(Defs(c.mounts), at);
    d.Some? && Shared(c, d.value, forWriting)
  }

  /** The same of a path, as the engine reads it after rewriting. */
  ghost predicate SameData(c: Client, path: string, engine: seq<MountDef>) {
    && DataAt(Defs(c.mounts), path).Some?
    && DataAt(engine, VOLUMES + c.model + path) == DataAt(Defs(c.mounts), path)
  }

  ghost predicate OnWritable(c: Client, path: string, engine: seq<MountDef>) {
    var d := MountAt(engine, VOLUMES + c.model + path);
    d.Some? && !d.value.readOnly
  }

  ghost predicate Reachable(c: Client, path: string, forWriting: bool) {
    ReachableOn(c, Location(path), forWriting)
  }

  lemma RootedPath(path: string, m: map<string, MountPoint>)
    requires Backing(path, m).Some? && |Backing(path, m).value| > 0 && Backing(path, m).value[0] == '/'
    ensures path != "" && path[0] == '/'
  {
    var t, dst := TrimRight(path), Backing(path, m).value;
    assert dst <= t;
  }

  /** The path's place in the engine, if it does not climb. */
  lemma EnginePlace(c: Client, path: string)
    requires Named(c.model) && WellPlaced(c.mounts) && Backing(path, DestMap(c.mounts)).Some? && Climb(path) == 0
    ensures Location(VOLUMES + c.model + path) == ["volumes", c.model] + Location(path)
  {
    hide DestMap, Clean, Backing, Location, Climb;
    var dst := Backing(path, DestMap(c.mounts)).value;
    BackingInMap(path, DestMap(c.mounts));
    DestinationIsMounted(c.mounts, dst);
    CleanIsLong(dst);
    RootedPath(path, DestMap(c.mounts));
    UnderModel(c.model, path);
    assert ["volumes", c.model][..2 - Min(2, 0)] == ["volumes", c.model];
  }

  /** What the client finds a place on, if it can be shared and is asked for, is what the engine
      finds the place below the model on. */
  lemma AskedIsFound(cs: seq<Client>, i: nat, at: Place, forWriting: bool,
                     existing: seq<MountPoint>, managed: seq<MountDef>, secrets: seq<MountDef>)
    requires ProperClients(cs) && Serving(managed, cs) && AreSecrets(secrets) && WellPlaced(existing) && i < |cs|
    requires ReachableOn(cs[i], at, forWriting)
    ensures var c, engine := cs[i], EngineMounts(existing, managed, secrets);
            var d, e := MountOn(Defs(c.mounts), at), MountOn(engine, Below(c.model, at));
            && d.Some? && e.Some? && (forWriting ==> !e.value.readOnly)
            && e.value.kind == d.value.kind && e.value.source == d.value.source
            && Location(e.value.target) == Below(c.model, Location(d.value.target))
  {
    hide Clean, DestMap, Location, MountOn, EngineMounts, WellPlaced, Serves, Only;
    var c := cs[i];
    var d := MountOn(Defs(c.mounts), at).value;
    var ro :| AsksFor(c, d.target, ro) && (forWriting ==> !ro);
    MountedIsDestination(c.mounts, d);
    var f := AskedIsServed(cs, i, d.target, ro, managed);
    EngineHasManaged(existing, managed, secrets, f);
    CleanUnderModel(c.model, d.target);
    var e := FoundBelow(EngineMounts(existing, managed, secrets), c.model, at, d, f);
    var x := Location(e.target)[2..];
    assert x != [] by { CleanLocation(d.target); }
    ModelsOwn(cs, i, existing, managed, secrets, e, x);
    var dst :| OwnMount(c, e, dst) && Location(dst) == x;
    OwnIsTheMount(c, at, d, e, dst);
    FirstIs(managed, e);
    FirstIs(managed, f);
  }

  /** The mount that the managed mounts have for a destination that is asked for. */
  lemma AskedIsServed(cs: seq<Client>, i: nat, dst: string, readOnly: bool, managed: seq<MountDef>)
    returns (f: MountDef)
    requires Serving(managed, cs) && i < |cs| && AsksFor(cs[i], dst, readOnly)
    ensures f in managed && f.target == VOLUMES + cs[i].model + dst && (!readOnly ==> !f.readOnly)
  {
    hide DestMap, Backing;
    AskedIsWanted(cs, i, dst, readOnly);
    var need := MountFor(DestMap(cs[i].mounts), cs[i].model, dst, readOnly);
    f := First(managed, need.target);
  }

  lemma EngineHasManaged(existing: seq<MountPoint>, managed: seq<MountDef>, secrets: seq<MountDef>, d: MountDef)
    requires d in managed || d in secrets
    ensures d in EngineMounts(existing, managed, secrets)
  {
  }

  /** A place on the way that is at least as deep as one below base is below base too. */
  lemma BaseOnly(base: Place, at: Place, sub: Place, least: Place)
    requires at <= base + sub && |at| >= |base + least|
    ensures at == base + at[|base|..] && at[|base|..] <= sub && |at[|base|..]| >= |least|
  {
    assert at == (base + sub)[..|at|];
    assert (base + sub)[..|at|] == base + sub[..|at| - |base|];
  }

  /** With a mount at the model's place for d on the way, what is found is no less deep. */
  lemma FoundBelow(all: seq<MountDef>, model: string, at: Place, d: MountDef, f: MountDef) returns (e: MountDef)
    requires f in all && Location(f.target) == Below(model, Location(d.target)) && Location(d.target) <= at
    ensures MountOn(all, Below(model, at)) == Some(e) && e in all
    ensures |Location(e.target)| >= 2 && Location(e.target) == Below(model, Location(e.target)[2..])
    ensures Location(e.target)[2..] <= at && |Location(e.target)[2..]| >= |Location(d.target)|
  {
    hide Location, MountOn;
    assert Location(f.target) <= Below(model, at);
    e := MountOn(all, Below(model, at)).value;
    BaseOnly(["volumes", model], Location(e.target), at, Location(d.target));
  }

  /** The client's own deepest mount is the one whose place below the model is deepest. */
  lemma OwnIsTheMount(c: Client, at: Place, d: MountDef, e: MountDef, dst: string)
    requires WellPlaced(c.mounts) && MountOn(Defs(c.mounts), at) == Some(d)
    requires OwnMount(c, e, dst) && Location(dst) <= at && |Location(dst)| >= |Location(d.target)|
    ensures dst == d.target && e.source == d.source && e.kind == ConvertMountType(d.kind)
  {
    hide Clean, DestMap, Location, MountOn;
    DestinationIsMounted(c.mounts, dst);
    MountedIsDestination(c.mounts, d);
    assert Location(dst) == Location(d.target);
    CleanInjective(dst, d.target);
  }

  /** If the engine finds the same data, it finds it on the mount made for the one that the
      client finds it on. */
  lemma FoundIsAsked(cs: seq<Client>, i: nat, at: Place,
                     existing: seq<MountPoint>, managed: seq<MountDef>, secrets: seq<MountDef>)
    requires ProperClients(cs) && Serving(managed, cs) && AreSecrets(secrets) && WellPlaced(existing) && i < |cs|
    requires SameDataOn(cs[i], at, EngineMounts(existing, managed, secrets))
    ensures ReachableOn(cs[i], at, false)
    ensures OnWritableAt(cs[i], at, EngineMounts(existing, managed, secrets)) ==> ReachableOn(cs[i], at, true)
  {
    hide Clean, DestMap, Location, MountOn, EngineMounts, WellPlaced, Serves, Only;
    var c := cs[i];
    var d := MountOn(Defs(c.mounts), at).value;
    var e := MountOn(EngineMounts(existing, managed, secrets), Below(c.model, at)).value;
    SameLength(["volumes", c.model], at, Location(e.target), Location(d.target));
    MountedIsDestination(c.mounts, d);
    CleanLocation(d.target);
    ModelsOwn(cs, i, existing, managed, secrets, e, Location(d.target));
    var dst :| OwnMount(c, e, dst) && Location(dst) == Location(d.target);
    OwnIsTheMount(c, at, d, e, dst);
  }

  lemma SameLength(base: Place, at: Place, e: Place, d: Place)
    requires e <= base + at && d <= at && (base + at)[|e|..] == at[|d|..]
    ensures e == base + d
  {
    assert |base + at| - |e| == |at| - |d|;
    assert (base + at)[..|base| + |d|] == base + at[..|d|];
  }

  lemma SubIsKept(model: string, at: Place, d: MountDef, e: MountDef)
    requires Location(e.target) == Below(model, Location(d.target)) && Location(d.target) <= at
    ensures Location(e.target) <= Below(model, at)
    ensures Below(model, at)[|Location(e.target)|..] == at[|Location(d.target)|..]
  {
    hide Location;
  }

  /** For every place of the client: the engine has the same data below the model's directory if
      and only if the mount there is one that the model asks for, and can write it if and only
      if a database asks for that mount. */
  lemma SamePlaceExactly(cs: seq<Client>, i: nat, at: Place,
                         existing: seq<MountPoint>, managed: seq<MountDef>, secrets: seq<MountDef>)
    requires ProperClients(cs) && Serving(managed, cs) && AreSecrets(secrets) && WellPlaced(existing) && i < |cs|
    ensures var c, engine := cs[i], EngineMounts(existing, managed, secrets);
            && (SameDataOn(c, at, engine) <==> ReachableOn(c, at, false))
            && (SameDataOn(c, at, engine) && OnWritableAt(c, at, engine) <==> ReachableOn(c, at, true))
  {
    hide Clean, DestMap, Location, EngineMounts, MountOn, WellPlaced, Serving, AreSecrets, ProperClients, AsksFor;
    var c, engine := cs[i], EngineMounts(existing, managed, secrets);
    if ReachableOn(c, at, false) {
      AskedIsFound(cs, i, at, false, existing, managed, secrets);
      SubIsKept(c.model, at, MountOn(Defs(c.mounts), at).value, MountOn(engine, Below(c.model, at)).value);
    }
    if ReachableOn(c, at, true) {
      AskedIsFound(cs, i, at, true, existing, managed, secrets);
    }
    if SameDataOn(c, at, engine) {
      FoundIsAsked(cs, i, at, existing, managed, secrets);
    }
  }

  lemma OfItsPlace(c: Client, path: string, engine: seq<MountDef>)
    requires Location(VOLUMES + c.model + path) == Below(c.model, Location(path))
    ensures SameData(c, path, engine) <==> SameDataOn(c, Location(path), engine)
    ensures OnWritable(c, path, engine) <==> OnWritableAt(c, Location(path), engine)
  {
    hide Location, MountOn;
  }

  /** For every path that is rewritten and does not climb: the engine reads the same data
      there if and only if the mount that the client's kernel finds is one that the model asks
      for, and can write it if and only if a database asks for that mount. */
  lemma SameDataExactly(cs: seq<Client>, i: nat, path: string, readOnly: bool,
                        existing: seq<MountPoint>, managed: seq<MountDef>, secrets: seq<MountDef>)
    requires ProperClients(cs) && Serving(managed, cs) && AreSecrets(secrets) && WellPlaced(existing)
    requires Rewrites(cs, i, path, readOnly) && Climb(path) == 0
    ensures var engine := EngineMounts(existing, managed, secrets);
            && (SameData(cs[i], path, engine) <==> Reachable(cs[i], path, false))
            && (SameData(cs[i], path, engine) && OnWritable(cs[i], path, engine) <==> Reachable(cs[i], path, true))
  {
    hide Clean, DestMap, Location, EngineMounts, WellPlaced, Climb, Serving, AreSecrets, SameData, OnWritable,
         SameDataOn, OnWritableAt, ReachableOn;
    EnginePlace(cs[i], path);
    SamePlaceExactly(cs, i, Location(path), existing, managed, secrets);
    OfItsPlace(cs[i], path, EngineMounts(existing, managed, secrets));
  }

  /** So every clean path keeps its data, and every clean database path can be written. */
  lemma CleanPathsKeepTheirData(cs: seq<Client>, i: nat, path: string, readOnly: bool,
                                existing: seq<MountPoint>, managed: seq<MountDef>, secrets: seq<MountDef>)
    requires ProperClients(cs) && Serving(managed, cs) && AreSecrets(secrets) && WellPlaced(existing)
    requires Rewrites(cs, i, path, readOnly) && CleanEnough(path)
    ensures var d := MountAt(Defs(cs[i].mounts), path);
            d.Some? && AsksFor(cs[i], d.value.target, readOnly) && Climb(path) == 0
    ensures var d, engine := MountAt(Defs(cs[i].mounts), path), EngineMounts(existing, managed, secrets);
            && (SameData(cs[i], path, engine) <==> d.value.kind in {Bind, Volume})
            && (d.value.kind in {Bind, Volume} && !readOnly ==> OnWritable(cs[i], path, engine))
  {
    hide Clean, DestMap, Location, EngineMounts, MountOn, WellPlaced, Climb, Serving, AreSecrets, Backing, SameData,
         OnWritable;
    TrimLocation(path);
    CleanStaysBelow(TrimRight(path));
    BackingIsTheMount(cs[i].mounts, path);
    assert AsksFor(cs[i], Backing(path, DestMap(cs[i].mounts)).value, readOnly);
    SameDataExactly(cs, i, path, readOnly, existing, managed, secrets);
  }

  // ---- The tree below a path ----

  /** The engine has at and below the rewritten path all that the client has there. */
  ghost predicate SameTree(c: Client, path: string, engine: seq<MountDef>) {
    forall sub: Place :: SameBelow(c, path, sub, engine)
  }

  ghost predicate SameBelow(c: Client, path: string, sub: Place, engine: seq<MountDef>) {
    && DataOn(Defs(c.mounts), Location(path) + sub).Some?
    && DataOn(engine, Location(VOLUMES + c.model + path) + sub) == DataOn(Defs(c.mounts), Location(path) + sub)
  }

  /** Every mount of the client at or below the path can be shared and is asked for. */
  ghost predicate SharedBelow(c: Client, path: string) {
    forall d :: d in Defs(c.mounts) && Location(path) <= Location(d.target) ==> Shared(c, d, false)
  }

  /** A directory is archived with what is below it: the engine has the same tree there if and
      only if the mount that the kernel finds for the path, and each mount below it, can be
      shared and is itself asked for. */
  lemma SameTreeExactly(cs: seq<Client>, i: nat, path: string, readOnly: bool,
                        existing: seq<MountPoint>, managed: seq<MountDef>, secrets: seq<MountDef>)
    requires ProperClients(cs) && Serving(managed, cs) && AreSecrets(secrets) && WellPlaced(existing)
    requires Rewrites(cs, i, path, readOnly) && Climb(path) == 0
    ensures SameTree(cs[i], path, EngineMounts(existing, managed, secrets)) <==>
            Reachable(cs[i], path, false) && SharedBelow(cs[i], path)
  {
    hide Clean, DestMap, Location, EngineMounts, MountOn, WellPlaced, Climb, Serving, AreSecrets, ReachableOn,
         SameBelow, Shared;
    var c, engine := cs[i], EngineMounts(existing, managed, secrets);
    EnginePlace(c, path);
    if SameTree(c, path, engine) {
      assert SameBelow(c, path, [], engine);
      BelowIsReachable(cs, i, path, [], existing, managed, secrets);
      assert Location(path) + [] == Location(path);
      forall d | d in Defs(c.mounts) && Location(path) <= Location(d.target) ensures Shared(c, d, false) {
        var sub := Location(d.target)[|Location(path)|..];
        assert SameBelow(c, path, sub, engine);
        assert Location(path) + sub == Location(d.target);
        BelowIsReachable(cs, i, path, sub, existing, managed, secrets);
        AtItsTarget(c, d);
      }
    }
    if Reachable(c, path, false) && SharedBelow(c, path) {
      forall sub: Place ensures SameBelow(c, path, sub, engine) {
        ReachableBelow(c, path, sub);
        BelowIsReachable(cs, i, path, sub, existing, managed, secrets);
      }
    }
  }

  lemma BelowIsReachable(cs: seq<Client>, i: nat, path: string, sub: Place,
                         existing: seq<MountPoint>, managed: seq<MountDef>, secrets: seq<MountDef>)
    requires ProperClients(cs) && Serving(managed, cs) && AreSecrets(secrets) && WellPlaced(existing) && i < |cs|
    requires Location(VOLUMES + cs[i].model + path) == Below(cs[i].model, Location(path))
    ensures SameBelow(cs[i], path, sub, EngineMounts(existing, managed, secrets)) <==>
            ReachableOn(cs[i], Location(path) + sub, false)
  {
    hide Location, EngineMounts, DataOn, ReachableOn, ProperClients, Serving, AreSecrets, WellPlaced, OnWritableAt;
    SamePlaceExactly(cs, i, Location(path) + sub, existing, managed, secrets);
    assert Below(cs[i].model, Location(path)) + sub == Below(cs[i].model, Location(path) + sub);
  }

  /** A mount is what is found at its own target. */
  lemma AtItsTarget(c: Client, d: MountDef)
    requires WellPlaced(c.mounts) && d in Defs(c.mounts)
    ensures ReachableOn(c, Location(d.target), false) ==> Shared(c, d, false)
  {
    hide Clean, DestMap, Location, MountOn, Shared;
    var e := MountOn(Defs(c.mounts), Location(d.target)).value;
    MountedIsDestination(c.mounts, d);
    MountedIsDestination(c.mounts, e);
    assert Location(e.target) == Location(d.target);
    CleanInjective(e.target, d.target);
  }

  /** Below the path a place is on a mount below it, or still on the mount of the path. */
  lemma ReachableBelow(c: Client, path: string, sub: Place)
    requires WellPlaced(c.mounts) && Reachable(c, path, false) && SharedBelow(c, path)
    ensures ReachableOn(c, Location(path) + sub, false)
  {
    hide Clean, DestMap, Location, MountOn, Shared;
    var at := Location(path);
    var d := MountOn(Defs(c.mounts), at).value;
    assert Location(d.target) <= at + sub;
    var e := MountOn(Defs(c.mounts), at + sub).value;
    ComparePrefixes(Location(e.target), at, sub);
    if |Location(e.target)| < |at| {
      MountedIsDestination(c.mounts, d);
      MountedIsDestination(c.mounts, e);
      assert |Location(e.target)| == |Location(d.target)|;
      assert Location(e.target) == at[..|Location(e.target)|] == Location(d.target);
      CleanInjective(e.target, d.target);
    }
  }

  lemma ComparePrefixes(e: Place, at: Place, sub: Place)
    requires e <= at + sub
    ensures if |e| < |at| then e <= at else at <= e
  {
    if |e| < |at| {
      assert (at + sub)[..|e|] == at[..|e|];
    } else {
      assert (at + sub)[..|e|][..|at|] == at;
    }
  }
}
