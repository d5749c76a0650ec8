// The paths that gobackup reads from the written file: an include is a []string and was not
// escaped, a database path is a string and was (internal/pipeline/volumes.go:125-128, 227-229).
module ReadPaths {
  import opened Wrappers
  import opened Text
  import opened Docker
  import opened EngineSpec
  import opened Volumes
  import opened Collecting
  import opened Locations
  import opened PathMeaning
  import opened Expansion
  import opened Escape
  import opened FileText

  /** What is on file for a path, with text t behind it, is read as a path that names in the
      engine what p named in the client. */
  ghost predicate ReadsClientData(c: Client, p: string, file: string, t: string, env: Env, engine: seq<MountDef>) {
    && DataAt(Defs(c.mounts), p).Some?
    && exists r :: ReadAs(file, r, t, env) && DataAt(engine, r) == DataAt(Defs(c.mounts), p)
  }

  /** The same of all that is at and below the path. */
  ghost predicate ReadsClientTree(c: Client, p: string, file: string, t: string, env: Env, engine: seq<MountDef>) {
    exists r :: ReadAs(file, r, t, env) && TreeIs(c, p, r, engine)
  }

  ghost predicate TreeIs(c: Client, p: string, r: string, engine: seq<MountDef>) {
    forall sub: Place :: PlaceIs(c, p, r, sub, engine)
  }

  ghost predicate PlaceIs(c: Client, p: string, r: string, sub: Place, engine: seq<MountDef>) {
    && DataOn(Defs(c.mounts), Location(p) + sub).Some?
    && DataOn(engine, Location(r) + sub) == DataOn(Defs(c.mounts), Location(p) + sub)
  }

  lemma {:induction false} RewrittenFrom(m: map<string, MountPoint>, model: string, paths: seq<string>, q: string)
    returns (p: string)
    requires q in Rewritten(m, model, paths)
    ensures p in paths && Backing(p, m).Some? && q == VOLUMES + model + p
  {
    if Backing(paths[0], m).Some? && q == VOLUMES + model + paths[0] {
      p := paths[0];
    } else {
      p := RewrittenFrom(m, model, paths[1..], q);
    }
  }

  lemma TreeIsSameTree(c: Client, p: string, engine: seq<MountDef>)
    ensures TreeIs(c, p, VOLUMES + c.model + p, engine) <==> SameTree(c, p, engine)
  {
    hide Location, DataOn;
    forall sub: Place ensures PlaceIs(c, p, VOLUMES + c.model + p, sub, engine) <==> SameBelow(c, p, sub, engine) {}
  }

  /** A file can be read as one text only. */
  lemma ReadOnce(file: string, a: string, b: string, t: string, env: Env)
    requires ReadAs(file, a, t, env) && ReadAs(file, b, t, env)
    ensures a == b
  {
    var x, y := a + Expand(t, env), b + Expand(t, env);
    assert |a| == |b| && x[..|a|] == a && y[..|b|] == b;
  }

  /** The include q comes from p; if it reads as it is written and p is clean, it reads all of p's
      tree if and only if the mounts of that tree can be shared and are asked for. */
  ghost predicate IncludeOf(c: Client, p: string, q: string, t: string, engine: seq<MountDef>) {
    && p in c.includes && q == VOLUMES + c.model + p
    && (Literal(q) && !Harmful(q) && CleanEnough(p) ==>
          && ((forall env: Env :: ReadsClientData(c, p, q, t, env, engine)) <==> Reachable(c, p, false))
          && ((forall env: Env :: ReadsClientTree(c, p, q, t, env, engine)) <==>
              Reachable(c, p, false) && SharedBelow(c, p)))
  }

  /** Every include that is written for a model with some include on a mount: gobackup reads it
      as it is written, in every environment, exactly when each '$' in it is literally meant
      and does no harm; then a clean include names what it named in the client, and the tree
      below it is the client's exactly when each mount in that tree is asked for. */
  lemma WrittenIncludesKeepTheirData(cs: seq<Client>, i: nat, q: string, t: string,
                                     existing: seq<MountPoint>, managed: seq<MountDef>, secrets: seq<MountDef>)
    requires ProperClients(cs) && Serving(managed, cs) && AreSecrets(secrets) && WellPlaced(existing)
    requires i < |cs| && Closes(t)
    requires Rewritten(DestMap(cs[i].mounts), cs[i].model, cs[i].includes) != [] && q in RewriteClient(cs[i]).includes
    ensures (forall env :: ReadAs(q, q, t, env)) <==> Literal(q) && !Harmful(q)
    ensures exists p :: IncludeOf(cs[i], p, q, t, EngineMounts(existing, managed, secrets))
  {
    hide Harmful, Expand, DestMap, Backing, DataOn, EngineMounts, ProperClients, Serving, AreSecrets, WellPlaced,
         CleanEnough, Literal, Closes, Reachable, SharedBelow, ReadsClientData, ReadsClientTree, ReadAs;
    var c, engine := cs[i], EngineMounts(existing, managed, secrets);
    ReadAsWrittenExactly(q, t);
    var p := RewrittenFrom(DestMap(c.mounts), c.model, c.includes, q);
    assert p in SetOf(c.includes) && Rewrites(cs, i, p, true);
    if Literal(q) && !Harmful(q) && CleanEnough(p) {
      CleanPathsKeepTheirData(cs, i, p, true, existing, managed, secrets);
      SameDataExactly(cs, i, p, true, existing, managed, secrets);
      SameTreeExactly(cs, i, p, true, existing, managed, secrets);
      ReadAsItself(c, p, t, engine);
    }
    assert IncludeOf(c, p, q, t, engine);
  }

  /** What is always read as it is written reads what the rewritten path names. */
  lemma ReadAsItself(c: Client, p: string, t: string, engine: seq<MountDef>)
    requires var q := VOLUMES + c.model + p; forall env :: ReadAs(q, q, t, env)
    ensures var q := VOLUMES + c.model + p;
            && ((forall env: Env :: ReadsClientData(c, p, q, t, env, engine)) <==> SameData(c, p, engine))
            && ((forall env: Env :: ReadsClientTree(c, p, q, t, env, engine)) <==> SameTree(c, p, engine))
  {
    hide DataOn, Location, ReadAs, TreeIs, SameTree;
    var q := VOLUMES + c.model + p;
    assert ReadAs(q, q, t, PROBE);
    TreeIsSameTree(c, p, engine);
    if ReadsClientData(c, p, q, t, PROBE, engine) {
      var r :| ReadAs(q, r, t, PROBE) && DataAt(engine, r) == DataAt(Defs(c.mounts), p);
      ReadOnce(q, q, r, t, PROBE);
    }
    if ReadsClientTree(c, p, q, t, PROBE, engine) {
      var r :| ReadAs(q, r, t, PROBE) && TreeIs(c, p, r, engine);
      ReadOnce(q, q, r, t, PROBE);
    }
  }

  /** Every sqlite path that is rewritten is escaped: gobackup reads it as it was meant, with
      the sentinel, exactly when each '$' in it is literally meant; then a clean path on a mount
      that can be shared names what it named in the client, and can be written. */
  lemma WrittenDatabasesKeepTheirData(cs: seq<Client>, i: nat, id: string, t: string,
                                      existing: seq<MountPoint>, managed: seq<MountDef>, secrets: seq<MountDef>)
    requires ProperClients(cs) && Serving(managed, cs) && AreSecrets(secrets) && WellPlaced(existing)
    requires i < |cs| && Closes(t)
    requires id in cs[i].dbs && Untransformed(cs[i].dbs[id]) && Backing(cs[i].dbs[id].path, DestMap(cs[i].mounts)).Some?
    ensures var c, p, engine := cs[i], cs[i].dbs[id].path, EngineMounts(existing, managed, secrets);
            var q, d := RewriteClient(c).dbs[id].path, MountAt(Defs(cs[i].mounts), p);
            && q == VOLUMES + c.model + p
            && ((forall env :: HasSentinel(env) ==> ReadAs(Escaped(q), q, t, env)) <==> Literal(q))
            && (Literal(q) && CleanEnough(p) ==>
                  && d.Some?
                  && (d.value.kind in {Bind, Volume} ==>
                        && OnWritable(c, p, engine)
                        && forall env :: HasSentinel(env) ==> ReadsClientData(c, p, Escaped(q), t, env, engine)))
  {
    hide Escaped, Expand, DestMap, Backing, MountOn, EngineMounts, ProperClients, Serving, AreSecrets, WellPlaced,
         CleanEnough, Literal, Closes, OnWritable, ReadAs, Location;
    var c, p := cs[i], cs[i].dbs[id].path;
    var q := RewriteClient(c).dbs[id].path;
    assert q == VOLUMES + c.model + p;
    EscapedIsReadExactly(q, t);
    assert Rewrites(cs, i, p, false);
    if CleanEnough(p) {
      CleanPathsKeepTheirData(cs, i, p, false, existing, managed, secrets);
    }
  }

  // ---- An include that is read as another path ----

  /** An unescaped '$' takes a special byte behind it along. */
  lemma SpecialIsEaten(u: string, b: char, w: string, t: string, env: Env)
    requires '$' !in u && '$' !in w && IsSpecial(b) && [b] !in env
    ensures ReadAs(u + ("$" + ([b] + w)), u + w, t, env)
  {
    hide Expand;
    var rest := "$" + ([b] + w) + t;
    assert u + ("$" + ([b] + w)) + t == u + rest;
    ExpandPlain(u, rest, env);
    assert rest[1..] == [b] + (w + t) && rest[2..] == w + t;
    TakesSpecial(rest, env);
    ExpandPlain(w, t, env);
    assert u + w + Expand(t, env) == u + (w + Expand(t, env));
  }

  lemma TakesSpecial(s: string, env: Env)
    requires |s| > 1 && s[0] == '$' && IsSpecial(s[1]) && [s[1]] !in env
    ensures Expand(s, env) == Expand(s[2..], env)
  {
    assert GetShellName(s[1..]) == ShellName([s[1]], 1);
    assert Expand(s, env) == "" + Expand(s[2..], env);
  }

  lemma BelowMount(mp: MountPoint, f: string)
    requires WellPlaced([mp]) && Named(f)
    ensures var p := mp.destination + "/" + f;
            && Clean(p) && Location(p) == Location(mp.destination) + [f]
            && MountAt(Defs([mp]), p) == Some(Def(mp))
            && Backing(p, DestMap([mp])) == Some(mp.destination)
  {
    hide Split, Clean, DestMap, Backing, MountOn, Longest, Walk;
    var p, ds := mp.destination + "/" + f, Defs([mp]);
    assert Clean([mp][0].destination);
    FileBelow(mp.destination, f);
    assert ds == [Def(mp)] && Def(mp) in ds;
    assert Location(Def(mp).target) <= Location(p);
    var found := MountAt(ds, p);
    assert found == Some(Def(mp));
    CleanIsTrimmed(p);
    BackingIsTheMount([mp], p);
  }

  /** With '$' and a special byte in a file's name, the engine reads another file of the same
      mount than the client named. */
  lemma DollarNamesAnother(model: string, mp: MountPoint, n: string, b: char, w: string, t: string, env: Env,
                           existing: seq<MountPoint>, managed: seq<MountDef>, secrets: seq<MountDef>)
    requires Named(model) && WellPlaced([mp]) && mp.kind in {Bind, Volume}
    requires IsSpecial(b) && [b] !in env && '$' !in VOLUMES + model + mp.destination + "/" + n && '$' !in w
    requires var f := n + ("$" + ([b] + w)); Named(f) && Named(n + w) && f != n + w
    requires var c := Client(model, [mp], [mp.destination + "/" + (n + ("$" + ([b] + w)))], map[]);
             Serving(managed, [c]) && AreSecrets(secrets) && WellPlaced(existing)
    ensures var f, v := n + ("$" + ([b] + w)), VOLUMES + model + mp.destination + "/";
            && ReadAs(v + f, v + (n + w), t, env)
            && DataAt(EngineMounts(existing, managed, secrets), v + (n + w)) ==
                  Some(Data(mp.kind, Def(mp).source, [n + w]))
            && DataAt(Defs([mp]), mp.destination + "/" + f) == Some(Data(mp.kind, Def(mp).source, [f]))
  {
    hide Clean, Location, DestMap, Backing, MountOn, EngineMounts, Serving, AreSecrets, WellPlaced, Expand, Named;
    var f, v := n + ("$" + ([b] + w)), VOLUMES + model + mp.destination + "/";
    var c := Client(model, [mp], [mp.destination + "/" + f], map[]);
    assert v + f == v + n + ("$" + ([b] + w)) && v + (n + w) == v + n + w;
    SpecialIsEaten(v + n, b, w, t, env);
    BelowMount(mp, f);
    BelowMount(mp, n + w);
    var p := mp.destination + "/" + (n + w);
    assert mp.destination + "/" + f in SetOf(c.includes) && AsksFor(c, mp.destination, true);
    assert v + (n + w) == VOLUMES + model + p;
    FileInEngine(c, mp, p, [n + w], existing, managed, secrets);
    assert (Location(mp.destination) + [f])[|Location(mp.destination)|..] == [f];
  }

  lemma FileInEngine(c: Client, mp: MountPoint, p: string, sub: Place,
                     existing: seq<MountPoint>, managed: seq<MountDef>, secrets: seq<MountDef>)
    requires ProperClients([c]) && Serving(managed, [c]) && AreSecrets(secrets) && WellPlaced(existing)
    requires mp.kind in {Bind, Volume} && c.mounts == [mp] && AsksFor(c, mp.destination, true) && Clean(p)
    requires Location(p) == Location(mp.destination) + sub && MountAt(Defs([mp]), p) == Some(Def(mp))
    ensures DataAt(EngineMounts(existing, managed, secrets), VOLUMES + c.model + p) ==
            Some(Data(mp.kind, Def(mp).source, sub))
  {
    hide Clean, Location, DestMap, Backing, MountOn, EngineMounts, Serving, AreSecrets, WellPlaced;
    assert Named([c][0].model);
    CleanUnderModel(c.model, p);
    assert Reachable(c, p, false);
    AskedIsFound([c], 0, Location(p), false, existing, managed, secrets);
    var e := MountOn(EngineMounts(existing, managed, secrets), Below(c.model, Location(p))).value;
    SubIsKept(c.model, Location(p), Def(mp), e);
    assert (Location(mp.destination) + sub)[|Location(mp.destination)|..] == sub;
  }
}
