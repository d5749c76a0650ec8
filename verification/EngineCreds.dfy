// internal/pipeline/reconcile.go:239-307: the credentials that models refer to are looked up
// in their containers and become variables, or secret files, of the engine.
module EngineCreds {
  import opened Wrappers
  import opened Text
  import opened Docker
  import opened Command
  import opened EngineSpec
  import opened Volumes
  import opened Collecting
  import opened Locations
  import opened PathMeaning
  import opened Labels
  import opened Credentials
  import Expansion
  import Escape

  /** What inspecting a client container shows. */
  datatype Inspected = Inspected(env: seq<string>, mounts: seq<MountPoint>)

  datatype EngineAdditions = EngineAdditions(envVars: seq<string>, mounts: seq<MountDef>, exports: seq<SecretExport>)

  /** The value of the first entry for a variable. */
  function LookedUp(env: seq<string>, name: string): Option<string> {
    if env == [] then None
    else if name + "=" <= env[0] then Some(env[0][|name| + 1..])
    else LookedUp(env[1..], name)
  }

  method LookupEnv(env: seq<string>, name: string) returns (val: Option<string>)
    ensures val == LookedUp(env, name)
  {
    var prefix := name + "=";
    for i := 0 to |env|
      invariant LookedUp(env, name) == LookedUp(env[i..], name)
    {
      if prefix <= env[i] {
        return Some(env[i][|prefix|..]);
      }
      assert env[i..][1..] == env[i + 1..];
    }
    return None;
  }

  /** Some entry is name=value, and no entry before it has that variable. */
  ghost predicate FirstEntry(env: seq<string>, name: string, value: string) {
    exists i :: 0 <= i < |env| && FirstAt(env, i, name, value)
  }

  ghost predicate FirstAt(env: seq<string>, i: nat, name: string, value: string)
    requires i < |env|
  {
    env[i] == name + "=" + value && forall j :: 0 <= j < i ==> !(name + "=" <= env[j])
  }

  /** A variable is looked up as what stands behind the '=' of its first entry. */
  lemma {:induction false} LookedUpExactly(env: seq<string>, name: string, value: string)
    ensures LookedUp(env, name) == Some(value) <==> FirstEntry(env, name, value)
  {
    if env != [] {
      var rest := env[1..];
      LookedUpExactly(rest, name, value);
      if name + "=" <= env[0] {
        assert env[0] == name + "=" + env[0][|name| + 1..];
        assert env[0] == name + "=" + value ==> env[0][|name| + 1..] == value;
        if LookedUp(env, name) == Some(value) { assert FirstAt(env, 0, name, value); }
      } else {
        assert forall i :: 0 < i < |env| ==> env[i] == rest[i - 1];
        if i :| 0 <= i < |rest| && FirstAt(rest, i, name, value) { assert FirstAt(env, i + 1, name, value); }
        if i :| 0 <= i < |env| && FirstAt(env, i, name, value) {
          assert name + "=" <= name + "=" + value;
          assert FirstAt(rest, i - 1, name, value);
        }
      }
    }
  }

  function SecretTarget(c: ResolvedCred): string { SECRET_PREFIX + c.name }

  /** The mount behind a secret file, if it has a source on the host. */
  function SecretMount(c: ResolvedCred, mounts: seq<MountPoint>): Option<MountDef> {
    var m := DestMap(mounts);
    match Backing(c.ref, m)
    case None => None
    case Some(dst) =>
      if dst !in m || MountSource(m[dst]) == "" then None
      else Some(MountDef(Bind, MountSource(m[dst]), SecretTarget(c), true))
  }

  function EnvEntry(c: ResolvedCred, env: seq<string>): Option<string> {
    if LookedUp(env, c.ref).None? then None else Some(c.name + "=" + LookedUp(env, c.ref).value)
  }

  function WithCred(a: EngineAdditions, c: ResolvedCred, inspects: map<string, Inspected>): EngineAdditions {
    if c.container !in inspects then a
    else
      var info := inspects[c.container];
      match c.kind
      case Env => if EnvEntry(c, info.env).None? then a else a.(envVars := a.envVars + [EnvEntry(c, info.env).value])
      case File =>
        if SecretMount(c, info.mounts).None? || SecretTarget(c) in Targets(a.mounts) then a
        else a.(mounts := a.mounts + [SecretMount(c, info.mounts).value],
                exports := a.exports + [SecretExport(c.name, SecretTarget(c))])
  }

  function Additions(creds: seq<ResolvedCred>, inspects: map<string, Inspected>): EngineAdditions {
    if creds == [] then EngineAdditions([], [], [])
    else WithCred(Additions(creds[..|creds| - 1], inspects), creds[|creds| - 1], inspects)
  }

  /** Each container's first answer, if it gave one: it is not inspected again. */
  function Seen(creds: seq<ResolvedCred>, answers: seq<Option<Inspected>>): map<string, Inspected>
    requires |answers| == |creds|
  {
    if creds == [] then map[]
    else
      var n := |creds| - 1;
      var before := Seen(creds[..n], answers[..n]);
      if creds[n].container in before || answers[n].None? then before
          else before[creds[n].container := answers[n].value]
  }

  /** The credentials whose container had answered when they came up; the others are skipped. */
  function Answered(creds: seq<ResolvedCred>, answers: seq<Option<Inspected>>): (r: seq<ResolvedCred>)
    requires |answers| == |creds|
    ensures forall c :: c in r ==> c in creds && c.container in Seen(creds, answers)
  {
    if creds == [] then []
    else
      var n := |creds| - 1;
      assert creds == creds[..n] + [creds[n]];
      Answered(creds[..n], answers[..n]) + (if creds[n].container in Seen(creds, answers) then [creds[n]] else [])
  }

  /** A container that is seen later does not matter to the credentials before. */
  lemma {:induction false} SeenLater(creds: seq<ResolvedCred>, m: map<string, Inspected>, k: string, info: Inspected)
    requires k !in m && forall c :: c in creds ==> c.container in m
    ensures Additions(creds, m[k := info]) == Additions(creds, m)
  {
    if creds != [] {
      var n := |creds| - 1;
      assert creds[n] in creds && forall c :: c in creds[..n] ==> c in creds;
      SeenLater(creds[..n], m, k, info);
    }
  }

  lemma AdditionsStep(creds: seq<ResolvedCred>, answers: seq<Option<Inspected>>, i: nat)
    requires |answers| == |creds| && i < |creds|
    ensures var before, now := Seen(creds[..i], answers[..i]), Seen(creds[..i + 1], answers[..i + 1]);
            && now == (if creds[i].container in before || answers[i].None? then before
                  else before[creds[i].container := answers[i].value])
            && var a := Additions(Answered(creds[..i], answers[..i]), before);
               Additions(Answered(creds[..i + 1], answers[..i + 1]), now) ==
               if creds[i].container in now then WithCred(a, creds[i], now) else a
  {
    hide WithCred;
    var cs, es := creds[..i + 1], answers[..i + 1];
    assert cs[..i] == creds[..i] && es[..i] == answers[..i];
    var before, now := Seen(creds[..i], answers[..i]), Seen(cs, es);
    var was := Answered(creds[..i], answers[..i]);
    if now != before { SeenLater(was, before, creds[i].container, answers[i].value); }
    if creds[i].container in now {
      assert Answered(cs, es) == was + [creds[i]];
      assert (was + [creds[i]])[..|was|] == was;
    } else {
      assert Answered(cs, es) == was + [] == was;
    }
  }

  /** answers has what the daemon says, if it is asked, when each credential comes up. */
  method ResolveCreds(creds: seq<ResolvedCred>, answers: seq<Option<Inspected>>) returns (out: EngineAdditions)
    requires |answers| == |creds|
    ensures out == Additions(Answered(creds, answers), Seen(creds, answers))
  {
    out := EngineAdditions([], [], []);
    var inspects: map<string, Inspected> := map[];
    var seenTarget: set<string> := {};
    for i := 0 to |creds|
      invariant inspects == Seen(creds[..i], answers[..i])
      invariant out == Additions(Answered(creds[..i], answers[..i]), inspects)
      invariant seenTarget == Targets(out.mounts)
    {
      var c := creds[i];
      AdditionsStep(creds, answers, i);
      if c.container !in inspects {
        if answers[i].None? {
          continue;
        }
        inspects := inspects[c.container := answers[i].value];
      }
      out, seenTarget := ResolveOne(c, inspects, out, seenTarget);
    }
    assert creds[..|creds|] == creds && answers[..|creds|] == answers;
  }

  /** One credential whose container has answered. */
  method ResolveOne(c: ResolvedCred, inspects: map<string, Inspected>, before: EngineAdditions, seen: set<string>)
    returns (out: EngineAdditions, seenTarget: set<string>)
    requires c.container in inspects && seen == Targets(before.mounts)
    ensures out == WithCred(before, c, inspects) && seenTarget == Targets(out.mounts)
  {
    out, seenTarget := before, seen;
    var info := inspects[c.container];
    match c.kind {
      case Env =>
        var val := LookupEnv(info.env, c.ref);
        if val.Some? {
          out := out.(envVars := out.envVars + [c.name + "=" + val.value]);
        }
      case File =>
        var m := BuildDestMap(info.mounts);
        var dst := FindMountForPath(c.ref, m);
        if dst.None? || dst.value !in m || MountSource(m[dst.value]) == "" {
          return;
        }
        var target := SECRET_PREFIX + c.name;
        if target in seenTarget {
          return;
        }
        seenTarget := seenTarget + {target};
        var def := MountDef(Bind, MountSource(m[dst.value]), target, true);
        assert Targets(out.mounts + [def]) == Targets(out.mounts) + {target};
        out := out.(mounts := out.mounts + [def], exports := out.exports + [SecretExport(c.name, target)]);
    }
  }

  // ---- what the engine gets ----

  /** Each export reads a mount of its own, read-only, under the secrets directory. */
  ghost predicate Paired(a: EngineAdditions) {
    && |a.mounts| == |a.exports| && DistinctTargets(a.mounts)
    && forall i :: 0 <= i < |a.mounts| ==>
         a.mounts[i].readOnly && a.mounts[i].kind == Bind
             && a.mounts[i].target == a.exports[i].path == SECRET_PREFIX + a.exports[i].name
  }

  lemma {:induction false} AdditionsArePaired(creds: seq<ResolvedCred>, inspects: map<string, Inspected>)
    ensures Paired(Additions(creds, inspects))
  {
    if creds != [] {
      var before, c := creds[..|creds| - 1], creds[|creds| - 1];
      AdditionsArePaired(before, inspects);
      PairedStill(Additions(before, inspects), c, inspects);
    }
  }

  lemma PairedStill(a: EngineAdditions, c: ResolvedCred, inspects: map<string, Inspected>)
    requires Paired(a)
    ensures Paired(WithCred(a, c, inspects))
  {
    hide DestMap, Backing, LookedUp;
    assert forall i :: 0 <= i < |a.mounts| ==> a.mounts[i].target in Targets(a.mounts);
  }

  /** What is mounted for a secret is the source that backs its path in some container that
      asked for it under that name. */
  lemma {:induction false} SecretIsSomeones(creds: seq<ResolvedCred>, inspects: map<string, Inspected>, d: MountDef)
    returns (i: nat)
    requires d in Additions(creds, inspects).mounts
    ensures i < |creds| && creds[i].kind == File && creds[i].container in inspects
    ensures SecretMount(creds[i], inspects[creds[i].container].mounts) == Some(d)
  {
    var before, c := creds[..|creds| - 1], creds[|creds| - 1];
    if d in Additions(before, inspects).mounts {
      i := SecretIsSomeones(before, inspects, d);
    } else {
      i := |creds| - 1;
    }
  }

  /** A secret that can be mounted is, or another of its name was. */
  lemma {:induction false} SecretIsMounted(creds: seq<ResolvedCred>, inspects: map<string, Inspected>, i: nat)
    requires i < |creds| && creds[i].kind == File && creds[i].container in inspects
    requires SecretMount(creds[i], inspects[creds[i].container].mounts).Some?
    ensures SecretTarget(creds[i]) in Targets(Additions(creds, inspects).mounts)
    ensures SecretExport(creds[i].name, SecretTarget(creds[i])) in Additions(creds, inspects).exports
    decreases |creds|
  {
    var before, last := creds[..|creds| - 1], |creds| - 1;
    AdditionsArePaired(before, inspects);
    if i < last {
      SecretIsMounted(before, inspects, i);
      TargetsGrow(Additions(before, inspects), creds[last], inspects);
    } else {
      LastIsMounted(Additions(before, inspects), creds[last], inspects);
    }
  }

  lemma TargetsGrow(a: EngineAdditions, c: ResolvedCred, inspects: map<string, Inspected>)
    ensures Targets(a.mounts) <= Targets(WithCred(a, c, inspects).mounts)
    ensures forall e :: e in a.exports ==> e in WithCred(a, c, inspects).exports
  {
    hide DestMap, Backing, LookedUp;
  }

  lemma LastIsMounted(a: EngineAdditions, c: ResolvedCred, inspects: map<string, Inspected>)
    requires Paired(a) && c.kind == File && c.container in inspects
    requires SecretMount(c, inspects[c.container].mounts).Some?
    ensures SecretTarget(c) in Targets(WithCred(a, c, inspects).mounts)
    ensures SecretExport(c.name, SecretTarget(c)) in WithCred(a, c, inspects).exports
  {
    hide DestMap, Backing, LookedUp;
    if SecretTarget(c) in Targets(a.mounts) {
      var i :| 0 <= i < |a.mounts| && a.mounts[i].target == SecretTarget(c);
      SamePrefix(SECRET_PREFIX, a.exports[i].name, c.name);
      assert a.exports[i] == SecretExport(c.name, SecretTarget(c));
    }
  }

  lemma SamePrefix(p: string, a: string, b: string)
    requires p + a == p + b
    ensures a == b
  {
    assert (p + a)[|p|..] == a && (p + b)[|p|..] == b;
  }

  lemma CleanSecret(name: string)
    requires Named(name)
    ensures Clean(SECRET_PREFIX + name)
  {
    hide Split;
    var dir := "/gobackup-secrets";
    SplitPlain(dir[1..], '/');
    assert Named(dir[1..]) && Clean(dir);
    FileBelow(dir, name);
    assert dir + "/" + name == SECRET_PREFIX + name;
  }

  /** In the engine the exported path is the root of that mount. */
  lemma SecretIsRoot(existing: seq<MountPoint>, managed: seq<MountDef>, a: EngineAdditions, d: MountDef)
    requires WellPlaced(existing) && AreVolumes(managed) && AreSecrets(a.mounts)
    requires Paired(a) && d in a.mounts
    ensures DataAt(EngineMounts(existing, managed, a.mounts), d.target) == Some(Data(Bind, d.source, []))
  {
    hide EngineMounts, Location, WellPlaced, Clean;
    var all := EngineMounts(existing, managed, a.mounts);
    EngineHasManaged(existing, managed, a.mounts, d);
    var found := MountAt(all, d.target);
    SameOrDeeper(found.value, d);
    EngineIsClean(existing, managed, a.mounts, found.value);
    CleanInjective(found.value.target, d.target);
    OnlySecretsBelow(existing, managed, a.mounts, found.value);
    FirstIs(a.mounts, found.value);
    FirstIs(a.mounts, d);
    assert Location(d.target)[|Location(d.target)|..] == [];
    var i :| 0 <= i < |a.mounts| && a.mounts[i] == d;
  }

  lemma SameOrDeeper(e: MountDef, d: MountDef)
    requires Location(e.target) <= Location(d.target) && |Location(e.target)| >= |Location(d.target)|
    ensures Location(e.target) == Location(d.target)
  {
    hide Location;
  }

  lemma OnlySecretsBelow(existing: seq<MountPoint>, managed: seq<MountDef>, secrets: seq<MountDef>, d: MountDef)
    requires d in EngineMounts(existing, managed, secrets) && SECRET_PREFIX <= d.target
    requires AreVolumes(managed)
    ensures d in secrets
  {
    hide Clean;
    var kept := Only(false, Defs(existing));
    OnlyMembers(false, Defs(existing), d);
    assert multiset(kept)[d] == 0;
    PrefixesApart(d.target);
  }

  /** The client finds the path at the root of a bind mount of this source. */
  ghost predicate BoundAt(mounts: seq<MountPoint>, path: string, source: string) {
    var d := MountAt(Defs(mounts), path);
    d.Some? && d.value.kind == Bind && d.value.source == source && Location(d.value.target) == Location(path)
  }

  /** The exported path names what the client's path named exactly when the client has a bind
      mount of that source at that very place: of a mount above it, the engine would get the
      directory. For a clean path that is the mount that discovery found. */
  lemma SecretIsTheClientsExactly(c: ResolvedCred, mounts: seq<MountPoint>, existing: seq<MountPoint>,
                                  managed: seq<MountDef>, a: EngineAdditions)
    requires WellPlaced(mounts) && SecretMount(c, mounts).Some?
    requires WellPlaced(existing) && AreVolumes(managed) && AreSecrets(a.mounts)
    requires Paired(a) && SecretMount(c, mounts).value in a.mounts
    ensures var same := DataAt(EngineMounts(existing, managed, a.mounts), SecretTarget(c)) ==
            DataAt(Defs(mounts), c.ref);
            var m, dst := DestMap(mounts), Backing(c.ref, DestMap(mounts));
            && dst.Some? && dst.value in m
            && (same <==> BoundAt(mounts, c.ref, MountSource(m[dst.value])))
            && (CleanEnough(c.ref) ==> (same <==> m[dst.value].kind == Bind && TrimRight(c.ref) == dst.value))
  {
    hide EngineMounts, MountOn, TrimRight, DestMap, Backing, WellPlaced, Paired, AreSecrets, AreVolumes, Location,
         Clean;
    var d := SecretMount(c, mounts).value;
    SecretIsRoot(existing, managed, a, d);
    RootOnly(mounts, c.ref, d.source);
    if CleanEnough(c.ref) { BoundAtBacking(c, mounts); }
  }

  lemma RootOnly(mounts: seq<MountPoint>, path: string, source: string)
    ensures DataAt(Defs(mounts), path) == Some(Data(Bind, source, [])) <==> BoundAt(mounts, path, source)
  {
    hide MountOn, Location;
    var d := MountAt(Defs(mounts), path);
    if d.Some? {
      assert Location(path)[|Location(d.value.target)|..] == [] <==> Location(d.value.target) == Location(path);
    }
  }

  lemma BoundAtBacking(c: ResolvedCred, mounts: seq<MountPoint>)
    requires WellPlaced(mounts) && CleanEnough(c.ref) && Backing(c.ref, DestMap(mounts)).Some?
    ensures var m, dst := DestMap(mounts), Backing(c.ref, DestMap(mounts)).value;
            dst in m
            && (BoundAt(mounts, c.ref, MountSource(m[dst])) <==> m[dst].kind == Bind && TrimRight(c.ref) == dst)
  {
    hide MountOn, TrimRight, DestMap, Backing, WellPlaced, Location, Clean;
    var m, dst := DestMap(mounts), Backing(c.ref, DestMap(mounts)).value;
    BackingIsTheMount(mounts, c.ref);
    BackingInMap(c.ref, m);
    DestinationIsMounted(mounts, dst);
    TrimLocation(c.ref);
    if Location(dst) == Location(c.ref) { CleanInjective(dst, TrimRight(c.ref)); }
  }

  // ---- the environment ----

  /** The environment made of entries; a later entry for a variable wins. */
  function EnvOf(entries: seq<string>): Expansion.Env {
    if entries == [] then map[]
    else
      var e := entries[|entries| - 1];
      var k := EnvKey(e);
      EnvOf(entries[..|entries| - 1])[k := if |k| < |e| then e[|k| + 1..] else ""]
  }

  lemma {:induction false} OnlyEntry(entries: seq<string>, e: string)
    requires e in entries && |EnvKey(e)| < |e|
    requires forall f :: f in entries && EnvKey(f) == EnvKey(e) ==> f == e
    ensures EnvKey(e) in EnvOf(entries) && EnvOf(entries)[EnvKey(e)] == e[|EnvKey(e)| + 1..]
  {
    var n := |entries| - 1;
    if entries[n] != e {
      OnlyEntry(entries[..n], e);
    }
  }

  const SENTINEL_ENTRY := "GB_DOLLAR=$"

  lemma {:induction false} KeyOf(name: string, val: string)
    requires '=' !in name
    ensures EnvKey(name + "=" + val) == name
  {
    var e := name + "=" + val;
    if name != "" {
      assert name[0] in name && e[1..] == name[1..] + "=" + val;
      KeyOf(name[1..], val);
      assert [name[0]] + name[1..] == name;
    }
  }

  /** Variables made for credentials are shell names, and none is the sentinel. */
  ghost predicate MadeForModels(creds: seq<ResolvedCred>) {
    forall c :: c in creds ==> exists model: string, path: seq<string> :: path != [] && c.name == CredVar(model, path)
  }

  lemma MadeNames(c: ResolvedCred, model: string, path: seq<string>)
    requires path != [] && c.name == CredVar(model, path)
    ensures c.name != Escape.SENTINEL_VAR && IsVarName(c.name) && '=' !in c.name && Named(c.name)
  {
    PlaceholderIsAReference(model, path);
    VarBytes(model, path);
    assert forall b :: Expansion.IsNameByte(b) ==> b != '=' && b != '/' && b != '.';
  }

  lemma AllMadeNames(creds: seq<ResolvedCred>)
    requires MadeForModels(creds)
    ensures forall c :: c in creds ==>
              c.name != Escape.SENTINEL_VAR && IsVarName(c.name) && '=' !in c.name && Named(c.name)
  {
    forall c | c in creds
      ensures c.name != Escape.SENTINEL_VAR && IsVarName(c.name) && '=' !in c.name && Named(c.name)
    {
      var model: string, path: seq<string> :| path != [] && c.name == CredVar(model, path);
      MadeNames(c, model, path);
    }
  }

  /** The secrets directory holds one file for each name, next to each other. */
  lemma SecretsAreClean(creds: seq<ResolvedCred>, inspects: map<string, Inspected>)
    requires MadeForModels(creds)
    ensures AreSecrets(Additions(creds, inspects).mounts)
  {
    hide DestMap, Backing, Clean, Additions;
    var a := Additions(creds, inspects);
    AllMadeNames(creds);
    AdditionsArePaired(creds, inspects);
    AdditionsAreOf(creds, inspects);
    forall d | d in a.mounts ensures SECRET_PREFIX <= d.target && Clean(d.target) {
      var i :| 0 <= i < |a.mounts| && a.mounts[i] == d;
      assert a.exports[i] in a.exports;
      CleanSecret(a.exports[i].name);
    }
  }

  /** Where each addition comes from. */
  lemma {:induction false} AdditionsAreOf(creds: seq<ResolvedCred>, inspects: map<string, Inspected>)
    ensures forall x :: x in Additions(creds, inspects).exports ==> exists c :: c in creds && x.name == c.name
    ensures forall e :: e in Additions(creds, inspects).envVars ==>
                          exists c :: c in creds && c.container in inspects
                              && EnvEntry(c, inspects[c.container].env) == Some(e)
  {
    if creds != [] {
      hide DestMap, Backing, LookedUp, SecretMount, EnvEntry;
      AdditionsAreOf(creds[..|creds| - 1], inspects);
      assert creds[|creds| - 1] in creds && forall c :: c in creds[..|creds| - 1] ==> c in creds;
    }
  }

  /** Every export has a name the shell takes, as the wrapper requires. */
  lemma ExportsAreNamed(creds: seq<ResolvedCred>, inspects: map<string, Inspected>)
    requires MadeForModels(creds)
    ensures forall x :: x in Additions(creds, inspects).exports ==> IsVarName(x.name)
  {
    AllMadeNames(creds);
    AdditionsAreOf(creds, inspects);
  }

  /** What the supervisor adds to the engine's environment in one pass. */
  function AddedEnv(escaped: bool, a: EngineAdditions): seq<string> {
    (if escaped then [SENTINEL_ENTRY] else []) + a.envVars
  }

  lemma AddedKey(creds: seq<ResolvedCred>, inspects: map<string, Inspected>, f: string)
    requires MadeForModels(creds) && f in Additions(creds, inspects).envVars
    ensures EnvKey(f) != Escape.SENTINEL_VAR
    ensures exists c :: && c in creds && c.container in inspects && EnvEntry(c, inspects[c.container].env) == Some(f)
                        && EnvKey(f) == c.name
  {
    AllMadeNames(creds);
    AdditionsAreOf(creds, inspects);
    var c :| c in creds && c.container in inspects && EnvEntry(c, inspects[c.container].env) == Some(f);
    KeyOf(c.name, LookedUp(inspects[c.container].env, c.ref).value);
  }

  /** An entry that is added and is the only one added for its variable decides it. */
  lemma AddedDecides(base: seq<string>, added: seq<string>, e: string)
    requires e in added && |EnvKey(e)| < |e|
    requires forall f :: f in added && EnvKey(f) == EnvKey(e) ==> f == e
    ensures EnvKey(e) in EnvOf(MergedEnv(base, added))
    ensures EnvOf(MergedEnv(base, added))[EnvKey(e)] == e[|EnvKey(e)| + 1..]
  {
    hide MergedEnv, EnvOf, EnvKey;
    var merged := MergedEnv(base, added);
    forall f ensures f in merged <==> f in added || (f in base && EnvKey(f) !in EnvKeys(added)) {
      MergedEnvMeaning(base, added, f);
    }
    assert EnvKey(e) in EnvKeys(added);
    OnlyEntry(merged, e);
  }

  /** When something was escaped the engine expands the sentinel to a dollar, whatever its
      environment was before and whatever the credentials are. */
  lemma {:induction false} SentinelIsSet(base: seq<string>, creds: seq<ResolvedCred>, inspects: map<string, Inspected>)
    requires MadeForModels(creds)
    ensures Escape.HasSentinel(EnvOf(MergedEnv(base, AddedEnv(true, Additions(creds, inspects)))))
  {
    hide MergedEnv, EnvOf, EnvKey, Additions;
    var added := AddedEnv(true, Additions(creds, inspects));
    var e := SENTINEL_ENTRY;
    assert e == "GB_DOLLAR" + "=" + "$" && e[10..] == "$";
    KeyOf("GB_DOLLAR", "$");
    forall f | f in added && EnvKey(f) == EnvKey(e) ensures f == e {
      if f in Additions(creds, inspects).envVars { AddedKey(creds, inspects, f); }
    }
    AddedDecides(base, added, e);
  }

  lemma {:induction false} EnvEntryIsAdded(creds: seq<ResolvedCred>, inspects: map<string, Inspected>, i: nat)
    requires i < |creds| && creds[i].kind == Env && creds[i].container in inspects
    requires EnvEntry(creds[i], inspects[creds[i].container].env).Some?
    ensures EnvEntry(creds[i], inspects[creds[i].container].env).value in Additions(creds, inspects).envVars
    decreases |creds|
  {
    hide DestMap, Backing, LookedUp, SecretMount, EnvEntry;
    var last := |creds| - 1;
    if i < last { EnvEntryIsAdded(creds[..last], inspects, i); }
  }

  /** A credential of a variable of the client has that value in the engine, if no other
      credential was given the same variable. */
  lemma ClientValueArrives(base: seq<string>, escaped: bool, creds: seq<ResolvedCred>,
                           inspects: map<string, Inspected>, i: nat, val: string)
    requires MadeForModels(creds) && i < |creds| && creds[i].kind == Env && creds[i].container in inspects
    requires FirstEntry(inspects[creds[i].container].env, creds[i].ref, val)
    requires forall j :: 0 <= j < |creds| && creds[j].name == creds[i].name ==> j == i
    ensures Expansion.Getenv(EnvOf(MergedEnv(base, AddedEnv(escaped, Additions(creds, inspects)))), creds[i].name) ==
            val
  {
    hide MergedEnv, EnvOf, EnvKey, Additions, LookedUp, FirstEntry;
    var c, added := creds[i], AddedEnv(escaped, Additions(creds, inspects));
    LookedUpExactly(inspects[c.container].env, c.ref, val);
    var e := c.name + "=" + val;
    AllMadeNames(creds);
    KeyOf(c.name, val);
    KeyOf("GB_DOLLAR", "$");
    assert SENTINEL_ENTRY == "GB_DOLLAR" + "=" + "$";
    EnvEntryIsAdded(creds, inspects, i);
    forall f | f in added && EnvKey(f) == EnvKey(e) ensures f == e {
      if f in Additions(creds, inspects).envVars { AddedKey(creds, inspects, f); }
    }
    AddedDecides(base, added, e);
    assert e[|c.name| + 1..] == val;
  }

  /** The entries that are added, spelled out: each is a credential's variable with the value of the
      client's, for the credentials of that kind whose client has the variable. */
  lemma EnvVarsExactly(creds: seq<ResolvedCred>, inspects: map<string, Inspected>, e: string)
    ensures e in Additions(creds, inspects).envVars <==> exists i, val ::
              && 0 <= i < |creds| && creds[i].kind == Env && creds[i].container in inspects
              && FirstEntry(inspects[creds[i].container].env, creds[i].ref, val) && e == creds[i].name + "=" + val
  {
    hide Additions, LookedUp, FirstEntry;
    if e in Additions(creds, inspects).envVars {
      var i := AddedFrom(creds, inspects, e);
      var val := LookedUp(inspects[creds[i].container].env, creds[i].ref).value;
      LookedUpExactly(inspects[creds[i].container].env, creds[i].ref, val);
    }
    if i, val :| 0 <= i < |creds| && creds[i].kind == Env && creds[i].container in inspects
                 && FirstEntry(inspects[creds[i].container].env, creds[i].ref, val) && e == creds[i].name + "=" + val {
      LookedUpExactly(inspects[creds[i].container].env, creds[i].ref, val);
      EnvEntryIsAdded(creds, inspects, i);
    }
  }

  lemma {:induction false} AddedFrom(creds: seq<ResolvedCred>, inspects: map<string, Inspected>, e: string)
    returns (i: nat)
    requires e in Additions(creds, inspects).envVars
    ensures i < |creds| && creds[i].kind == Env && creds[i].container in inspects
    ensures EnvEntry(creds[i], inspects[creds[i].container].env) == Some(e)
  {
    hide DestMap, Backing, LookedUp, SecretMount, EnvEntry;
    var n := |creds| - 1;
    if e in Additions(creds[..n], inspects).envVars {
      i := AddedFrom(creds[..n], inspects, e);
    } else {
      i := n;
    }
  }

  // ---- which containers answered ----

  /** A container is known by its first answer among those to the credentials that name it. */
  lemma {:induction false} SeenExactly(creds: seq<ResolvedCred>, answers: seq<Option<Inspected>>, k: string,
                                       info: Inspected)
    requires |answers| == |creds|
    ensures (k in Seen(creds, answers) && Seen(creds, answers)[k] == info) <==>
            exists i :: 0 <= i < |creds| && FirstAnswer(creds, answers, i, k, info)
  {
    hide FirstAnswer;
    if creds != [] {
      var n := |creds| - 1;
      SeenExactly(creds[..n], answers[..n], k, info);
      forall i | 0 <= i < n
        ensures FirstAnswer(creds, answers, i, k, info) <==> FirstAnswer(creds[..n], answers[..n], i, k, info)
      {
        FirstOfPrefix(creds, answers, i, n, k, info);
      }
      FirstIsLast(creds, answers, k, info);
      SeenSomehow(creds[..n], answers[..n], k);
    }
  }

  ghost predicate FirstAnswer(creds: seq<ResolvedCred>, answers: seq<Option<Inspected>>, i: nat, k: string,
                              info: Inspected)
    requires i < |creds| == |answers|
  {
    && creds[i].container == k && answers[i] == Some(info)
    && forall j :: 0 <= j < i && creds[j].container == k ==> answers[j].None?
  }

  lemma FirstOfPrefix(creds: seq<ResolvedCred>, answers: seq<Option<Inspected>>, i: nat, n: nat, k: string,
                      info: Inspected)
    requires i < n <= |creds| == |answers|
    ensures FirstAnswer(creds, answers, i, k, info) <==> FirstAnswer(creds[..n], answers[..n], i, k, info)
  {
    assert forall j :: 0 <= j < n ==> creds[..n][j] == creds[j] && answers[..n][j] == answers[j];
  }

  lemma {:induction false} SeenSomehow(creds: seq<ResolvedCred>, answers: seq<Option<Inspected>>, k: string)
    requires |answers| == |creds|
    ensures k in Seen(creds, answers) <==> exists j :: 0 <= j < |creds| && creds[j].container == k && answers[j].Some?
  {
    if creds != [] {
      var n := |creds| - 1;
      SeenSomehow(creds[..n], answers[..n], k);
      assert forall j :: 0 <= j < n ==> creds[..n][j] == creds[j] && answers[..n][j] == answers[j];
    }
  }

  lemma FirstIsLast(creds: seq<ResolvedCred>, answers: seq<Option<Inspected>>, k: string, info: Inspected)
    requires |answers| == |creds| > 0
    ensures var n := |creds| - 1;
            FirstAnswer(creds, answers, n, k, info) <==>
            creds[n].container == k && answers[n] == Some(info) && k !in Seen(creds[..n], answers[..n])
  {
    hide Seen;
    var n := |creds| - 1;
    SeenSomehow(creds[..n], answers[..n], k);
    assert forall j :: 0 <= j < n ==> creds[..n][j] == creds[j] && answers[..n][j] == answers[j];
  }

  /** A credential is looked at exactly if its container has answered to it or to one before it. */
  ghost predicate HasAnswered(creds: seq<ResolvedCred>, answers: seq<Option<Inspected>>, i: nat)
    requires i < |creds| == |answers|
  {
    exists j :: 0 <= j <= i && creds[j].container == creds[i].container && answers[j].Some?
  }

  lemma {:induction false} AnsweredExactly(creds: seq<ResolvedCred>, answers: seq<Option<Inspected>>, c: ResolvedCred)
    requires |answers| == |creds|
    ensures c in Answered(creds, answers) <==>
            exists i :: 0 <= i < |creds| && creds[i] == c && HasAnswered(creds, answers, i)
  {
    hide Seen, HasAnswered;
    if creds != [] {
      var n := |creds| - 1;
      AnsweredExactly(creds[..n], answers[..n], c);
      AnsweredLast(creds, answers);
      forall i | 0 <= i < n ensures HasAnswered(creds, answers, i) <==> HasAnswered(creds[..n], answers[..n], i) {
        AnsweredOfPrefix(creds, answers, i, n);
      }
      assert forall i :: 0 <= i < n ==> creds[..n][i] == creds[i];
    }
  }

  lemma AnsweredOfPrefix(creds: seq<ResolvedCred>, answers: seq<Option<Inspected>>, i: nat, n: nat)
    requires i < n <= |creds| == |answers|
    ensures HasAnswered(creds, answers, i) <==> HasAnswered(creds[..n], answers[..n], i)
  {
    assert forall j :: 0 <= j < n ==> creds[..n][j] == creds[j] && answers[..n][j] == answers[j];
  }

  lemma AnsweredLast(creds: seq<ResolvedCred>, answers: seq<Option<Inspected>>)
    requires |answers| == |creds| > 0
    ensures var n := |creds| - 1; creds[n].container in Seen(creds, answers) <==> HasAnswered(creds, answers, n)
  {
    hide Seen;
    SeenSomehow(creds, answers, creds[|creds| - 1].container);
  }
}
