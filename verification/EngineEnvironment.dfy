// The variables that gobackup itself sees: the container's, and the secrets that the start
// command exports (internal/pipeline/manage.go:193-215, internal/pipeline/reconcile.go:189-206).
module EngineEnvironment {
  import opened Wrappers
  import opened Docker
  import opened Command
  import opened EngineSpec
  import opened Volumes
  import opened Collecting
  import opened Locations
  import opened PathMeaning
  import opened Labels
  import opened Credentials
  import opened EngineCreds
  import opened Wrapper
  import Expansion
  import Escape
  import Shell

  /** The environment that a container with this one gives its process, after the exports. */
  function StartedEnv(base: seq<string>, escaped: bool, a: EngineAdditions, files: Files): Expansion.Env {
    Exported(EnvOf(MergedEnv(base, AddedEnv(escaped, a))), a.exports, files)
  }

  lemma ExportNames(creds: seq<ResolvedCred>, inspects: map<string, Inspected>)
    requires MadeForModels(creds)
    ensures forall x :: x in Additions(creds, inspects).exports ==> IsShellName(x.name) && x.name != Escape.SENTINEL_VAR
    ensures forall x :: x in Additions(creds, inspects).exports ==> exists c :: c in creds && x.name == c.name
  {
    hide Additions, CredVar;
    AdditionsAreOf(creds, inspects);
    AllMadeNames(creds);
    forall c | c in creds ensures IsShellName(c.name) {
      var model: string, path: seq<string> :| path != [] && c.name == CredVar(model, path);
      VarBytes(model, path);
      assert c.name[0] == c.name[..3][0];
    }
  }

  /** The command of the engine is its base command, or it runs that in this environment; with
      secrets and no base command it starts nothing. */
  lemma EngineStarts(base: seq<string>, escaped: bool, command: seq<string>, creds: seq<ResolvedCred>,
                     inspects: map<string, Inspected>, files: Files)
    requires MadeForModels(creds)
    ensures var a := Additions(creds, inspects);
            var cmd, before := Wrapped(command, a.exports), EnvOf(MergedEnv(base, AddedEnv(escaped, a)));
            if a.exports == [] then cmd == command && StartedEnv(base, escaped, a, files) == before
            else && |cmd| == 3 && cmd[..2] == ["/bin/sh", "-c"] && Shell.Commands(cmd[2]).Some?
                 && var p := Runs(Shell.Commands(cmd[2]).value, before, files);
                    && (p.Some? <==> command != [])
                    && (p.Some? ==> p.value == Process(command, StartedEnv(base, escaped, a, files)))
  {
    hide MergedEnv, EnvOf, Additions, Runs;
    ExportNames(creds, inspects);
    var a := Additions(creds, inspects);
    if a.exports != [] {
      WrapperRuns(command, a.exports, EnvOf(MergedEnv(base, AddedEnv(escaped, a))), files);
    }
  }

  /** No export touches the sentinel. */
  lemma SentinelStays(base: seq<string>, creds: seq<ResolvedCred>, inspects: map<string, Inspected>, files: Files)
    requires MadeForModels(creds)
    ensures Escape.HasSentinel(StartedEnv(base, true, Additions(creds, inspects), files))
  {
    hide MergedEnv, EnvOf, Additions, Exported;
    var a := Additions(creds, inspects);
    SentinelIsSet(base, creds, inspects);
    ExportNames(creds, inspects);
    NotExported(EnvOf(MergedEnv(base, AddedEnv(true, a))), a.exports, files, Escape.SENTINEL_VAR);
  }

  lemma {:induction false} OnlyFilesAreExported(creds: seq<ResolvedCred>, inspects: map<string, Inspected>,
                                                x: SecretExport)
    returns (i: nat)
    requires x in Additions(creds, inspects).exports
    ensures i < |creds| && creds[i].kind == File && creds[i].name == x.name
  {
    hide DestMap, Backing, LookedUp;
    var before, c := creds[..|creds| - 1], creds[|creds| - 1];
    if x in Additions(before, inspects).exports {
      i := OnlyFilesAreExported(before, inspects, x);
    } else {
      i := |creds| - 1;
    }
  }

  /** A credential of a client's variable keeps its value, if no other has its variable. */
  lemma ValueStays(base: seq<string>, escaped: bool, creds: seq<ResolvedCred>, inspects: map<string, Inspected>,
                   files: Files, i: nat, val: string)
    requires MadeForModels(creds) && i < |creds| && creds[i].kind == Env && creds[i].container in inspects
    requires FirstEntry(inspects[creds[i].container].env, creds[i].ref, val)
    requires forall j :: 0 <= j < |creds| && creds[j].name == creds[i].name ==> j == i
    ensures Expansion.Getenv(StartedEnv(base, escaped, Additions(creds, inspects), files), creds[i].name) == val
  {
    hide MergedEnv, EnvOf, Additions, Exported, FirstEntry;
    var a, name := Additions(creds, inspects), creds[i].name;
    ClientValueArrives(base, escaped, creds, inspects, i, val);
    forall x | x in a.exports ensures x.name != name {
      var j := OnlyFilesAreExported(creds, inspects, x);
    }
    NotExported(EnvOf(MergedEnv(base, AddedEnv(escaped, a))), a.exports, files, name);
  }

  /** A secret that is mounted is in its variable, without the newlines at its end. */
  lemma SecretArrives(base: seq<string>, escaped: bool, creds: seq<ResolvedCred>, inspects: map<string, Inspected>,
                      files: Files, i: nat)
    requires i < |creds| && creds[i].kind == File && creds[i].container in inspects
    requires SecretMount(creds[i], inspects[creds[i].container].mounts).Some?
    ensures Expansion.Getenv(StartedEnv(base, escaped, Additions(creds, inspects), files), creds[i].name) ==
            Stripped(files(SecretTarget(creds[i])))
  {
    hide MergedEnv, EnvOf, Additions, Exported, SecretMount, Stripped;
    var a := Additions(creds, inspects);
    SecretIsMounted(creds, inspects, i);
    AdditionsArePaired(creds, inspects);
    var e := SecretExport(creds[i].name, SecretTarget(creds[i]));
    forall f | f in a.exports && f.name == e.name ensures f == e {
      var k :| 0 <= k < |a.exports| && a.exports[k] == f;
      assert a.exports[k].path == SECRET_PREFIX + a.exports[k].name;
    }
    ExportedOnce(EnvOf(MergedEnv(base, AddedEnv(escaped, a))), a.exports, files, e);
  }

  // ---- The client's secret ----

  /** What data holds, as text. */
  type Contents = Data -> string

  /** The files of a container with these mounts; what it does not share is of no interest. */
  function FilesOf(ds: seq<MountDef>, contents: Contents): Files {
    (path: string) => match DataAt(ds, path) case None => "" case Some(d) => contents(d)
  }

  /** The only secret of its name is the one that is mounted. */
  lemma OnlyMounted(creds: seq<ResolvedCred>, inspects: map<string, Inspected>, i: nat)
    requires i < |creds| && creds[i].kind == File && creds[i].container in inspects
    requires SecretMount(creds[i], inspects[creds[i].container].mounts).Some?
    requires forall j :: 0 <= j < |creds| && creds[j].kind == File && creds[j].name == creds[i].name ==> j == i
    ensures SecretMount(creds[i], inspects[creds[i].container].mounts).value in Additions(creds, inspects).mounts
  {
    hide Additions, DestMap, Backing;
    SecretIsMounted(creds, inspects, i);
    var d :| d in Additions(creds, inspects).mounts && d.target == SecretTarget(creds[i]);
    var j := SecretIsSomeones(creds, inspects, d);
    SamePrefix(SECRET_PREFIX, creds[j].name, creds[i].name);
  }

  /** The variable of a secret holds the text of the client's file, if the client has a bind
      mount of the source at that very place (see EngineCreds.SecretIsTheClientsExactly). */
  lemma ClientSecretArrives(base: seq<string>, escaped: bool, creds: seq<ResolvedCred>,
                            inspects: map<string, Inspected>,
                            existing: seq<MountPoint>, managed: seq<MountDef>, contents: Contents, i: nat)
    requires MadeForModels(creds) && WellPlaced(existing) && AreVolumes(managed)
    requires i < |creds| && creds[i].kind == File && creds[i].container in inspects
    requires var mounts := inspects[creds[i].container].mounts;
             && WellPlaced(mounts) && SecretMount(creds[i], mounts).Some?
             && BoundAt(mounts, creds[i].ref, SecretMount(creds[i], mounts).value.source)
    requires forall j :: 0 <= j < |creds| && creds[j].kind == File && creds[j].name == creds[i].name ==> j == i
    ensures var c, a := creds[i], Additions(creds, inspects);
            var mounts := inspects[c.container].mounts;
            var files := FilesOf(EngineMounts(existing, managed, a.mounts), contents);
            && DataAt(Defs(mounts), c.ref).Some?
            && Expansion.Getenv(StartedEnv(base, escaped, a, files), c.name) ==
                  Stripped(FilesOf(Defs(mounts), contents)(c.ref))
  {
    hide StartedEnv, Additions, SecretMount, BoundAt, WellPlaced, AreVolumes, AreSecrets, EngineMounts, DataOn,
         Stripped, MadeForModels;
    var c, a := creds[i], Additions(creds, inspects);
    var mounts := inspects[c.container].mounts;
    var d := SecretMount(c, mounts).value;
    SecretArrives(base, escaped, creds, inspects, FilesOf(EngineMounts(existing, managed, a.mounts), contents), i);
    OnlyMounted(creds, inspects, i);
    AdditionsArePaired(creds, inspects);
    SecretsAreClean(creds, inspects);
    SecretIsRoot(existing, managed, a, d);
    RootOnly(mounts, c.ref, d.source);
    MountedAtTarget(c, mounts);
  }

  lemma MountedAtTarget(c: ResolvedCred, mounts: seq<MountPoint>)
    ensures SecretMount(c, mounts).Some? ==> SecretMount(c, mounts).value.target == SecretTarget(c)
  {
  }
}
