// What a pass gives the engine, from the credentials and volumes that it found to the container
// (internal/pipeline/reconcile.go:188-222).
module EnginePass {
  import opened Wrappers
  import opened Docker
  import opened EngineSpec
  import opened Volumes
  import opened Collecting
  import opened PathMeaning
  import opened Positions
  import opened Credentials
  import opened EngineCreds
  import opened Replacement
  import opened Safety
  import opened Delivery
  import Locations
  import Pipeline

  /** All that a pass adds to the engine. */
  function PassExtras(managed: seq<MountDef>, escaped: bool, a: EngineAdditions): Extras {
    Extras(managed + a.mounts, AddedEnv(escaped, a), a.exports)
  }

  method CollectExtras(managed: seq<MountDef>, escaped: bool, creds: seq<ResolvedCred>,
                       answers: seq<Option<Inspected>>)
    returns (x: Extras)
    requires |answers| == |creds|
    ensures x == PassExtras(managed, escaped, Additions(Answered(creds, answers), Seen(creds, answers)))
  {
    hide Additions, Answered, Seen;
    x := Extras(managed, [], []);
    if escaped {
      x := x.(envVars := x.envVars + [SENTINEL_ENTRY]);
    }
    NothingAsked();
    if |creds| > 0 {
      var ec := ResolveCreds(creds, answers);
      x := Extras(x.mounts + ec.mounts, x.envVars + ec.envVars, ec.exports);
    }
  }

  lemma NothingAsked()
    ensures Additions(Answered([], []), Seen([], [])) == EngineAdditions([], [], [])
  {
  }

  /** A credential of a client's variable has its value among the container's variables. */
  ghost predicate HasCredentials(c: Container, creds: seq<ResolvedCred>, inspects: map<string, Inspected>) {
    forall i, val :: 0 <= i < |creds| && HasValue(creds[i], inspects, val) ==> creds[i].name + "=" + val in c.env
  }

  /** The credential is for a variable, which the client has with this value. */
  ghost predicate HasValue(c: ResolvedCred, inspects: map<string, Inspected>, val: string) {
    c.kind.Env? && c.container in inspects && FirstEntry(inspects[c.container].env, c.ref, val)
  }

  /** A pass that succeeds, whatever went wrong on its way, leaves an engine with every credential's value
      as the clients have it now, with the sentinel if anything was escaped, and in the supervised
      directories with exactly the volumes and the secrets of this pass. */
  lemma PassGivesTheEngine(w: World, ps: Pass, l: Lineage, cs: seq<Client>, managed: seq<MountDef>, escaped: bool,
                           creds: seq<ResolvedCred>, inspects: map<string, Inspected>)
    requires Inv(w, l) && Compatible(ps.cfg, l) && Reconcile(w, ps).result.Some?
    requires (forall d :: d in managed ==> Wants(cs, d)) && MadeForModels(creds)
    requires ps.extras == PassExtras(managed, escaped, Additions(creds, inspects)) && Adds(ps.extras)
    ensures var o := Reconcile(w, ps);
            && IsEngine(o.world, o.result.value)
            && var c := o.world.containers[o.result.value];
               && HasCredentials(c, creds, inspects) && (escaped ==> "GB_DOLLAR=$" in c.env)
               && (Apart(c, ps.extras.mounts) ==> forall d: MountDef :: Supervised(d.target) ==>
                     (d in managed + Additions(creds, inspects).mounts <==>
                      exists mp :: mp in c.mounts && Shows(mp, d)))
  {
    hide Inv, Reconcile, Wants, MadeForModels, Compatible, Additions, Apart, RunsWrapped, Shows, FirstEntry;
    Pipeline.PassMountsAreManaged(cs, managed, creds, inspects);
    PassDelivers(w, ps, l);
    var c := Reconcile(w, ps).world.containers[Reconcile(w, ps).result.value];
    forall i, val | 0 <= i < |creds| && HasValue(creds[i], inspects, val)
      ensures creds[i].name + "=" + val in c.env
    {
      EnvVarsExactly(creds, inspects, creds[i].name + "=" + val);
    }
    assert SENTINEL_ENTRY == "GB_DOLLAR=$";
    if Apart(c, ps.extras.mounts) {
      forall d: MountDef | Supervised(d.target)
        ensures d in ps.extras.mounts <==> exists mp :: mp in c.mounts && Shows(mp, d)
      {
        MountsAreShown(c, ps.extras.mounts, d);
      }
    }
  }

  /** No variable is added but the sentinel, if anything was escaped, and the credentials'. */
  lemma VariablesExactly(managed: seq<MountDef>, escaped: bool, creds: seq<ResolvedCred>,
                         inspects: map<string, Inspected>, e: string)
    ensures e in PassExtras(managed, escaped, Additions(creds, inspects)).envVars <==>
            || (escaped && e == "GB_DOLLAR=$")
            || exists i, val :: 0 <= i < |creds| && HasValue(creds[i], inspects, val) && e == creds[i].name + "=" + val
  {
    hide Additions, FirstEntry;
    assert SENTINEL_ENTRY == "GB_DOLLAR=$";
    EnvVarsExactly(creds, inspects, e);
    if i, val :| 0 <= i < |creds| && creds[i].kind.Env? && creds[i].container in inspects
                 && FirstEntry(inspects[creds[i].container].env, creds[i].ref, val) && e == creds[i].name + "=" + val {
      assert HasValue(creds[i], inspects, val);
    }
  }

  /** A secret is mounted from what the client has mounted innermost around its path, if that has a
      source; to a place of its own, read-only. */
  lemma SecretExactly(c: ResolvedCred, mps: seq<MountPoint>, d: MountDef)
    requires WellPlaced(mps)
    ensures SecretMount(c, mps) == Some(d) <==> exists mp ::
              Innermost(mps, mp, c.ref) && (mp.name != "" || mp.source != "")
              && d == MountDef(Bind, if mp.name == "" then mp.source else mp.name, "/gobackup-secrets/" + c.name, true)
  {
    hide DestMap, Backing, Innermost, TrimRight, Locations.Clean;
    FoundExactly(mps, c.ref);
    DestMapOf(mps);
    forall mp | Innermost(mps, mp, c.ref)
      ensures Backing(c.ref, DestMap(mps)) == Some(mp.destination)
      ensures mp.destination in DestMap(mps) && DestMap(mps)[mp.destination] == mp
    {
      OneInnermost(mps, mp, c.ref);
      InnermostIsThere(mps, mp, c.ref);
      CleanIsTrimmed(mp.destination);
    }
    if Backing(c.ref, DestMap(mps)).Some? {
      var mp :| Innermost(mps, mp, c.ref) && TrimRight(mp.destination) == Backing(c.ref, DestMap(mps)).value;
    }
  }

  lemma InnermostIsThere(mps: seq<MountPoint>, mp: MountPoint, path: string)
    requires WellPlaced(mps) && Innermost(mps, mp, path)
    ensures mp in mps && Locations.Clean(mp.destination)
  {
    hide Locations.Clean;
  }
}
