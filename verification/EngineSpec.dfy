// The desired engine container and the test whether the existing one must be replaced
// (internal/pipeline/manage.go).
module EngineSpec {
  import opened Wrappers
  import opened Text
  import opened Command
  import opened Docker

  /** What the supervisor adds to the engine. */
  datatype Extras = Extras(mounts: seq<MountDef>, envVars: seq<string>, exports: seq<SecretExport>) {
    predicate Empty() {
      mounts == [] && envVars == [] && exports == []
    }
  }

  const NO_EXTRAS := Extras([], [], [])

  // ---- Mounts ----

  const ARCHIVE_PREFIX := "/volumes/"
  const SECRET_PREFIX := "/gobackup-secrets/"

  predicate IsManaged(dest: string) {
    ARCHIVE_PREFIX <= dest || SECRET_PREFIX <= dest
  }

  function Def(mp: MountPoint): MountDef {
    MountDef(mp.kind, if mp.name != "" then mp.name else mp.source, mp.destination, !mp.rw)
  }

  function Defs(mps: seq<MountPoint>): (ds: seq<MountDef>)
    ensures |ds| == |mps|
    ensures forall i :: 0 <= i < |mps| ==> ds[i] == Def(mps[i])
  {
    if mps == [] then [] else [Def(mps[0])] + Defs(mps[1..])
  }

  /** The mounts under a managed prefix, or those that are not, in order. */
  function Only(managed: bool, ds: seq<MountDef>): seq<MountDef> {
    if ds == [] then []
    else (if IsManaged(ds[0].target) == managed then [ds[0]] else []) + Only(managed, ds[1..])
  }

  /** The desired mounts: what is not managed is kept, what is managed is replaced. */
  function Merged(existing: seq<MountPoint>, managed: seq<MountDef>): seq<MountDef> {
    Only(false, Defs(existing)) + managed
  }

  lemma {:induction false} OnlySnoc(managed: bool, ds: seq<MountDef>, d: MountDef)
    ensures Only(managed, ds + [d]) == Only(managed, ds) + (if IsManaged(d.target) == managed then [d] else [])
  {
    hide IsManaged;
    if ds == [] {
      assert ds + [d] == [d];
    } else {
      assert (ds + [d])[1..] == ds[1..] + [d];
      OnlySnoc(managed, ds[1..], d);
    }
  }

  method MergeMounts(existing: seq<MountPoint>, managed: seq<MountDef>) returns (out: seq<MountDef>)
    ensures out == Merged(existing, managed)
  {
    ghost var ds := Defs(existing);
    out := [];
    for i := 0 to |existing|
      invariant out == Only(false, ds[..i])
    {
      var d := Def(existing[i]);
      OnlySnoc(false, ds[..i], d);
      assert ds[..i + 1] == ds[..i] + [d];
      if IsManaged(existing[i].destination) {
        continue;
      }
      out := out + [d];
    }
    assert ds[..|existing|] == ds;
    out := out + managed;
  }

  function MountKey(d: MountDef): string {
    d.kind.Name() + "|" + d.source + "|" + d.target + "|" + Flag(d.readOnly)
  }

  function Keys(ds: seq<MountDef>): set<string> {
    set d | d in ds :: MountKey(d)
  }

  /** mountsEqual, as the code decides it: as many mounts, and each key is wanted. */
  predicate SameMounts(current: seq<MountPoint>, desired: seq<MountDef>) {
    |current| == |desired| && forall i :: 0 <= i < |current| ==> MountKey(Def(current[i])) in Keys(desired)
  }

  method MountsEqual(current: seq<MountPoint>, desired: seq<MountDef>) returns (same: bool)
    ensures same <==> SameMounts(current, desired)
  {
    if |current| != |desired| {
      return false;
    }
    var want: set<string> := {};
    for j := 0 to |desired|
      invariant want == Keys(desired[..j])
    {
      KeysSnoc(desired, j);
      want := want + {MountKey(desired[j])};
    }
    assert desired[..|desired|] == desired;
    for i := 0 to |current|
      invariant forall k :: 0 <= k < i ==> MountKey(Def(current[k])) in want
    {
      if MountKey(Def(current[i])) !in want {
        return false;
      }
    }
    return true;
  }

  lemma KeysSnoc(ds: seq<MountDef>, n: nat)
    requires n < |ds|
    ensures Keys(ds[..n + 1]) == Keys(ds[..n]) + {MountKey(ds[n])}
  {
    assert ds[..n + 1] == ds[..n] + [ds[n]];
  }

  ghost predicate DistinctTargets(ds: seq<MountDef>) {
    forall i, j :: 0 <= i < j < |ds| ==> ds[i].target != ds[j].target
  }

  function Flag(readOnly: bool): string {
    if readOnly then "true" else "false"
  }

  lemma TargetAndFlag(t: string, r: bool, t': string, r': bool)
    requires t + ("|" + Flag(r)) == t' + ("|" + Flag(r'))
    ensures t == t' && r == r'
  {
    var s, s' := t + ("|" + Flag(r)), t' + ("|" + Flag(r'));
    var n := |s| - 5;
    assert s[n] == if r then '|' else 'f';
    assert s'[n] == if r' then '|' else 'f';
    assert s[..|t|] == t && s'[..|t'|] == t';
  }

  /** The part u belongs to the source of one mount and to the target of the other. */
  ghost predicate BarTwice(d: MountDef, e: MountDef, u: string) {
    Straddles(d.source, d.target, e.source, e.target, '|', u)
  }

  lemma KindInjective(k: MountType, x: string, m: MountType, y: string)
    ensures k.Name() + ['|'] + x == m.Name() + ['|'] + y <==> k == m && x == y
  {
    var s, s' := k.Name() + ['|'] + x, m.Name() + ['|'] + y;
    assert '|' !in k.Name() && '|' !in m.Name();
    assert k != m ==> k.Name()[0] != m.Name()[0];
    assert s[0] == k.Name()[0] && s'[0] == m.Name()[0];
    assert s[|k.Name()| + 1..] == x && s'[|m.Name()| + 1..] == y;
  }

  lemma KeyShape(d: MountDef)
    ensures MountKey(d) == d.kind.Name() + ['|'] + (d.source + ['|'] + d.target + ("|" + Flag(d.readOnly)))
  {
    var f := "|" + Flag(d.readOnly);
    assert d.kind.Name() + "|" + d.source + "|" + d.target + "|" + Flag(d.readOnly) == d.kind.Name() + "|" + d.source
           + "|" + d.target + f;
    assert d.kind.Name() + "|" + d.source + "|" + d.target + f == d.kind.Name() + ['|']
           + (d.source + ['|'] + d.target + f);
  }

  /** Two mounts share a key exactly if they differ in nothing, or only in source and target
      and a part of the text belongs to the source of one and to the target of the other. */
  lemma MountKeyCollidesExactly(d: MountDef, e: MountDef)
    ensures MountKey(d) == MountKey(e) <==>
            && d.kind == e.kind && d.readOnly == e.readOnly
            && (d == e || (exists u :: BarTwice(d, e, u)) || (exists u :: BarTwice(e, d, u)))
  {
    hide Flag;
    KeyShape(d);
    KeyShape(e);
    var x, y := d.source + ['|'] + d.target, e.source + ['|'] + e.target;
    KindInjective(d.kind, x + ("|" + Flag(d.readOnly)), e.kind, y + ("|" + Flag(e.readOnly)));
    if x + ("|" + Flag(d.readOnly)) == y + ("|" + Flag(e.readOnly)) { TargetAndFlag(x, d.readOnly, y, e.readOnly); }
    JoinedAlikeExactly(d.source, d.target, e.source, e.target, '|');
    assert forall u :: BarTwice(d, e, u) <==> Straddles(d.source, d.target, e.source, e.target, '|', u);
    assert forall u :: BarTwice(e, d, u) <==> Straddles(e.source, e.target, d.source, d.target, '|', u);
  }

  /** No mount of one list is taken for another one of the other. */
  ghost predicate KeysTellApart(ds: seq<MountDef>, es: seq<MountDef>) {
    forall d, e :: d in ds && e in es && MountKey(d) == MountKey(e) ==> d == e
  }

  /** It is enough that no source holds the separator, or that no target does. */
  lemma BarFreeTellsApart(ds: seq<MountDef>, es: seq<MountDef>)
    requires (forall d :: d in ds + es ==> '|' !in d.source) || (forall d :: d in ds + es ==> '|' !in d.target)
    ensures KeysTellApart(ds, es)
  {
    hide MountKey;
    forall d, e | d in ds && e in es && MountKey(d) == MountKey(e) ensures d == e {
      MountKeyCollidesExactly(d, e);
      assert d in ds + es && e in ds + es;
      forall u ensures !BarTwice(d, e, u) && !BarTwice(e, d, u) { NoBarTwice(d, e, u); NoBarTwice(e, d, u); }
    }
  }

  lemma NoBarTwice(d: MountDef, e: MountDef, u: string)
    ensures '|' !in e.source || '|' !in d.target ==> !BarTwice(d, e, u)
  {
    if BarTwice(d, e, u) {
      assert e.source[|d.source|] == '|' && d.target[|u|] == '|';
    }
  }

  lemma {:induction false} Pigeonhole<T>(a: seq<T>, b: seq<T>)
    requires |a| == |b|
    requires forall i, j :: 0 <= i < j < |a| ==> a[i] != a[j]
    requires forall x :: x in a ==> x in b
    ensures multiset(a) == multiset(b)
    decreases |a|
  {
    if a != [] {
      assert a[0] in b;
      var k :| 0 <= k < |b| && b[k] == a[0];
      var rest := b[..k] + b[k + 1..];
      forall x | x in a[1..] ensures x in rest {
        assert x in a && x != a[0];
        var m :| 0 <= m < |b| && b[m] == x;
        assert x == if m < k then rest[m] else rest[m - 1];
      }
      Pigeonhole(a[1..], rest);
      assert a == [a[0]] + a[1..];
      assert b == b[..k] + [a[0]] + b[k + 1..];
      assert multiset(b) == multiset(b[..k]) + multiset{a[0]} + multiset(b[k + 1..]);
      assert multiset(rest) == multiset(b[..k]) + multiset(b[k + 1..]);
    }
  }

  /** Docker gives a container no two mounts with one target; then mountsEqual is exactly
      equality of the mounts, in any order, unless a mount is taken for another. */
  lemma MountsEqualIsExact(current: seq<MountPoint>, desired: seq<MountDef>)
    requires DistinctTargets(Defs(current)) && KeysTellApart(Defs(current), desired)
    ensures SameMounts(current, desired) <==> multiset(Defs(current)) == multiset(desired)
  {
    hide SameMounts, KeysTellApart, DistinctTargets;
    if SameMounts(current, desired) { SameAreEqual(current, desired); }
    if multiset(Defs(current)) == multiset(desired) { EqualAreSame(current, desired); }
  }

  lemma SameAreEqual(current: seq<MountPoint>, desired: seq<MountDef>)
    requires DistinctTargets(Defs(current)) && KeysTellApart(Defs(current), desired) && SameMounts(current, desired)
    ensures multiset(Defs(current)) == multiset(desired)
  {
    hide MountKey;
    var ds := Defs(current);
    forall d | d in ds ensures d in desired {
      var i :| 0 <= i < |ds| && ds[i] == d;
      var e :| e in desired && MountKey(e) == MountKey(Def(current[i]));
      assert d == e;
    }
    Pigeonhole(ds, desired);
  }

  lemma EqualAreSame(current: seq<MountPoint>, desired: seq<MountDef>)
    requires multiset(Defs(current)) == multiset(desired)
    ensures SameMounts(current, desired)
  {
    hide MountKey;
    assert |current| == |multiset(Defs(current))| == |desired|;
    forall i | 0 <= i < |current| ensures MountKey(Def(current[i])) in Keys(desired) {
      assert Defs(current)[i] in multiset(desired);
    }
  }

  // ---- Environment ----

  function EnvKey(e: string): string {
    if e == "" || e[0] == '=' then "" else [e[0]] + EnvKey(e[1..])
  }

  function EnvKeys(es: seq<string>): set<string> {
    set e | e in es :: EnvKey(e)
  }

  /** The entries of base whose variable is not in keys. */
  function Without(base: seq<string>, keys: set<string>): seq<string> {
    if base == [] then []
    else (if EnvKey(base[0]) in keys then [] else [base[0]]) + Without(base[1..], keys)
  }

  function MergedEnv(base: seq<string>, creds: seq<string>): seq<string> {
    Without(base, EnvKeys(creds)) + creds
  }

  lemma {:induction false} WithoutSnoc(base: seq<string>, e: string, keys: set<string>)
    ensures Without(base + [e], keys) == Without(base, keys) + (if EnvKey(e) in keys then [] else [e])
  {
    if base == [] {
      assert base + [e] == [e];
    } else {
      assert (base + [e])[1..] == base[1..] + [e];
      WithoutSnoc(base[1..], e, keys);
    }
  }

  lemma {:induction false} WithoutNothing(base: seq<string>)
    ensures Without(base, {}) == base
  {
    if base != [] { WithoutNothing(base[1..]); }
  }

  method MergeEnv(base: seq<string>, creds: seq<string>) returns (out: seq<string>)
    ensures out == MergedEnv(base, creds)
  {
    if |creds| == 0 {
      WithoutNothing(base);
      assert EnvKeys(creds) == {};
      return base;
    }
    var credKey: set<string> := {};
    for i := 0 to |creds|
      invariant credKey == EnvKeys(creds[..i])
    {
      assert creds[..i + 1] == creds[..i] + [creds[i]];
      credKey := credKey + {EnvKey(creds[i])};
    }
    assert creds[..|creds|] == creds;
    out := [];
    for i := 0 to |base|
      invariant out == Without(base[..i], credKey)
    {
      WithoutSnoc(base[..i], base[i], credKey);
      assert base[..i + 1] == base[..i] + [base[i]];
      if EnvKey(base[i]) !in credKey {
        out := out + [base[i]];
      }
    }
    assert base[..|base|] == base;
    out := out + creds;
  }

  /** Every credential is set, a variable it sets has no other value, and the other
      variables are untouched. */
  lemma {:induction false} MergedEnvMeaning(base: seq<string>, creds: seq<string>, e: string)
    ensures e in MergedEnv(base, creds) <==> e in creds || (e in base && EnvKey(e) !in EnvKeys(creds))
  {
    if base != [] {
      MergedEnvMeaning(base[1..], creds, e);
    }
  }

  // ---- Spec ----

  function BaseCommand(cfg: Config, existing: Container): seq<string> {
    if cfg.command.Some? then cfg.command.value
    else if existing.labels.baseCommand != [] then existing.labels.baseCommand
    else existing.command
  }

  /** The spec of the replacement of container old. */
  function Built(cfg: Config, oldId: Id, existing: Container, extras: Extras): Spec {
    var base := BaseCommand(cfg, existing);
    Spec(existing.name,
         if cfg.image != "" then cfg.image else existing.image,
         Wrapped(base, extras.exports),
         MergedEnv(if cfg.env != [] then cfg.env else existing.env, extras.envVars),
         Labels(true, oldId, base, existing.labels.other + cfg.labels),
         Merged(existing.mounts, extras.mounts),
         if cfg.networks != {} then cfg.networks else existing.networks)
  }

  method BuildGobackupSpec(cfg: Config, oldId: Id, existing: Container, extras: Extras) returns (spec: Spec)
    ensures spec == Built(cfg, oldId, existing, extras)
  {
    var image := existing.image;
    if cfg.image != "" {
      image := cfg.image;
    }
    var base := BaseCommand(cfg, existing);
    var command := WrapCommandWithSecrets(base, extras.exports);
    var baseEnv := existing.env;
    if |cfg.env| > 0 {
      baseEnv := cfg.env;
    }
    var env := MergeEnv(baseEnv, extras.envVars);
    var networks := existing.networks;
    if cfg.networks != {} {
      networks := cfg.networks;
    }
    var mounts := MergeMounts(existing.mounts, extras.mounts);
    spec := Spec(existing.name, image, command, env, Labels(true, oldId, base, existing.labels.other + cfg.labels),
        mounts, networks);
  }

  predicate NeedsRecreate(existing: Container, spec: Spec, credVars: seq<string>) {
    || !SameMounts(existing.mounts, spec.mounts)
    || existing.command != spec.command
    || exists i :: 0 <= i < |credVars| && credVars[i] !in existing.env
  }

  method CheckRecreate(existing: Container, spec: Spec, credVars: seq<string>) returns (needed: bool)
    ensures needed <==> NeedsRecreate(existing, spec, credVars)
  {
    var same := MountsEqual(existing.mounts, spec.mounts);
    if !same {
      return true;
    }
    if existing.command != spec.command {
      return true;
    }
    for i := 0 to |credVars|
      invariant forall k :: 0 <= k < i ==> credVars[k] in existing.env
    {
      if credVars[i] !in existing.env {
        return true;
      }
    }
    return false;
  }

  // ---- One replacement is enough ----

  /** What inspect shows of a container created from a spec. Mounts come in any order,
      and the image may add variables, labels, networks, volumes outside the managed
      prefixes, and a command where the spec has none. */
  predicate Echoes(c: Container, s: Spec) {
    && c.name == s.name && c.image == s.image
    && (s.command != [] ==> c.command == s.command)
    && (forall e :: e in s.env ==> e in c.env)
    && c.labels.component == s.labels.component
    && c.labels.successorOf == s.labels.successorOf
    && c.labels.baseCommand == s.labels.baseCommand
    && (forall k :: k in s.labels.other ==> k in c.labels.other && c.labels.other[k] == s.labels.other[k])
    && multiset(s.mounts) <= multiset(Defs(c.mounts))
    && multiset(Only(true, Defs(c.mounts))) == multiset(Only(true, s.mounts))
    && s.networks <= c.networks
  }

  ghost predicate AllManaged(ds: seq<MountDef>) {
    forall d :: d in ds ==> IsManaged(d.target)
  }

  lemma {:induction false} OnlyConcat(managed: bool, a: seq<MountDef>, b: seq<MountDef>)
    ensures Only(managed, a + b) == Only(managed, a) + Only(managed, b)
  {
    hide IsManaged;
    if a == [] {
      assert a + b == b;
    } else {
      assert (a + b)[1..] == a[1..] + b;
      OnlyConcat(managed, a[1..], b);
    }
  }

  lemma {:induction false} OnlyAll(managed: bool, ds: seq<MountDef>)
    requires forall d :: d in ds ==> IsManaged(d.target) == managed
    ensures Only(managed, ds) == ds && Only(!managed, ds) == []
  {
    if ds != [] {
      assert ds[0] in ds;
      assert forall d :: d in ds[1..] ==> d in ds;
      OnlyAll(managed, ds[1..]);
    }
  }

  lemma {:induction false} OnlyMembers(managed: bool, ds: seq<MountDef>, d: MountDef)
    ensures multiset(Only(managed, ds))[d] == if IsManaged(d.target) == managed then multiset(ds)[d] else 0
  {
    if ds != [] {
      OnlyMembers(managed, ds[1..], d);
      assert ds == [ds[0]] + ds[1..];
    }
  }

  /** The mounts a container keeps and the mounts it is given make up the whole. */
  lemma OnlyPartition(ds: seq<MountDef>)
    ensures multiset(ds) == multiset(Only(false, ds)) + multiset(Only(true, ds))
  {
    forall d ensures multiset(ds)[d] == (multiset(Only(false, ds)) + multiset(Only(true, ds)))[d] {
      OnlyMembers(false, ds, d);
      OnlyMembers(true, ds, d);
    }
  }

  lemma OnlyOfMerged(existing: seq<MountPoint>, managed: seq<MountDef>)
    requires AllManaged(managed)
    ensures Only(true, Merged(existing, managed)) == managed
    ensures Only(false, Merged(existing, managed)) == Only(false, Defs(existing))
  {
    var kept := Only(false, Defs(existing));
    forall d | d in kept ensures !IsManaged(d.target) {
      OnlyMembers(false, Defs(existing), d);
      assert d in multiset(kept);
    }
    OnlyAll(false, kept);
    OnlyAll(true, managed);
    OnlyConcat(true, kept, managed);
    OnlyConcat(false, kept, managed);
  }

  /** Once the managed mounts are there, merging them again asks for the same mounts. */
  lemma {:induction false} MountsSettle(existing: seq<MountPoint>, c: seq<MountPoint>, managed: seq<MountDef>)
    requires AllManaged(managed)
    requires multiset(Only(true, Defs(c))) == multiset(Only(true, Merged(existing, managed)))
    ensures multiset(Merged(c, managed)) == multiset(Defs(c))
    ensures SameMounts(c, Merged(c, managed))
  {
    OnlyOfMerged(existing, managed);
    OnlyPartition(Defs(c));
    var desired := Merged(c, managed);
    assert multiset(desired) == multiset(Only(false, Defs(c))) + multiset(managed);
    assert |c| == |multiset(Defs(c))| == |multiset(desired)| == |desired|;
    forall i | 0 <= i < |c| ensures MountKey(Def(c[i])) in Keys(desired) {
      assert Defs(c)[i] in multiset(desired);
    }
  }

  /** When the command of the replacement c of a container with that base command is
      asked for again unchanged: unless there is no command to wrap. */
  predicate CommandSettles(cfg: Config, base: seq<string>, exports: seq<SecretExport>, c: Container) {
    if base != [] then true
    else if exports == [] then cfg.command.None? || c.command == []
    else cfg.command.Some?
  }

  lemma CommandSettlesExactly(cfg: Config, existing: Container, exports: seq<SecretExport>, c: Container)
    requires var base := BaseCommand(cfg, existing);
             c.labels.baseCommand == base && (Wrapped(base, exports) != [] ==> c.command == Wrapped(base, exports))
    ensures CommandSettles(cfg, BaseCommand(cfg, existing), exports, c) <==>
            c.command == Wrapped(BaseCommand(cfg, c), exports)
  {
    var base := BaseCommand(cfg, existing);
    if base == [] && exports != [] && cfg.command.None? {
      var once := Wrapped(base, exports);
      assert BaseCommand(cfg, c) == once;
      assert once[2] == Script([], exports);
      assert |Script(once, exports)| > |Script([], exports)|;
      assert Wrapped(once, exports)[2] != once[2];
    }
  }

  /** The replacement made from the built spec needs no replacement itself, under the
      same settings and the same additions, if and only if its command settles. */
  lemma OneReplacementIsEnough(cfg: Config, oldId: Id, existing: Container, extras: Extras, c: Container, id: Id)
    requires AllManaged(extras.mounts)
    requires Echoes(c, Built(cfg, oldId, existing, extras))
    ensures NeedsRecreate(c, Built(cfg, id, c, extras), extras.envVars) <==>
            !CommandSettles(cfg, BaseCommand(cfg, existing), extras.exports, c)
  {
    MountsSettle(existing.mounts, c.mounts, extras.mounts);
    CommandSettlesExactly(cfg, existing, extras.exports, c);
    forall i | 0 <= i < |extras.envVars| ensures extras.envVars[i] in c.env {
      MergedEnvMeaning(if cfg.env != [] then cfg.env else existing.env, extras.envVars, extras.envVars[i]);
    }
  }

  /** The same secrets exported in another order, as when labels come in another order, make
      another command, and the engine is replaced for it. */
  lemma ReorderedExportsReplace(cfg: Config, oldId: Id, existing: Container, extras: Extras, next: Extras,
                                c: Container, id: Id)
    requires Echoes(c, Built(cfg, oldId, existing, extras)) && BaseCommand(cfg, existing) != []
    requires extras.exports != [] && next.exports != [] && extras.exports != next.exports
    requires forall e :: e in extras.exports + next.exports ==> IsVarName(e.name)
    ensures NeedsRecreate(c, Built(cfg, id, c, next), next.envVars)
  {
    var base := BaseCommand(cfg, existing);
    hide Script, Merged, MergedEnv, SameMounts;
    assert BaseCommand(cfg, c) == base;
    if Script(base, extras.exports) == Script(base, next.exports) {
      WrappedInjective(base, extras.exports, base, next.exports);
    }
    assert Wrapped(base, extras.exports)[2] != Wrapped(base, next.exports)[2];
  }
}
