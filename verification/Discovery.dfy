// Which of the listed containers become sources, and what of their labels
// (internal/pipeline/reconcile.go:311-343).
module Discovery {
  import opened Wrappers
  import opened Trees
  import opened Document
  import opened Paths
  import opened Labels
  import opened Credentials
  import opened Model

  /** A running container, as the daemon lists it. */
  datatype Listed = Listed(id: string, name: string, labels: map<string, string>)

  function LabelOr(labels: map<string, string>, k: string): string {
    if k in labels then labels[k] else ""
  }

  ghost predicate Enabled(labels: map<string, string>, exposed: bool) {
    if "gobackup.enable" in labels then
      || IsOneOf(labels["gobackup.enable"], {"true", "1", "yes", "on", "enable", "enabled"})
      || (exposed && !IsOneOf(labels["gobackup.enable"], {"false", "0", "no", "off", "disable", "disabled"}))
    else exposed
  }

  /** Enabled, with a label for the model other than credentials, and not claimed by another instance. */
  ghost predicate Taken(c: Listed, exposed: bool, instance: string) {
    && Enabled(c.labels, exposed) && (exists k :: k in c.labels && ConfigKey(k))
    && (instance == "" || LabelOr(c.labels, "gobackup.instance") in {"", instance})
  }

  /** The source has the container's names, the references of its labels, and their values. */
  ghost predicate SourceOf(c: Listed, src: Source<MapNode>, sh: Shape) {
    && src.container == c.name && src.containerId == c.id
    && src.name == LabelOr(c.labels, "gobackup.name") && src.profile == LabelOr(c.labels, "gobackup.profile")
    && (forall r :: r in src.credRefs <==> exists k :: k in c.labels && r.ref == c.labels[k] && NamesCred(k, r))
    && NoDup(src.credRefs)
    && ((forall j, k :: !Clash(c.labels, j, k)) ==>
          forall q, v :: At(TreeOf(sh), q) == Some(Leaf(Str(v))) <==> Labelled(c.labels, q, v))
  }

  /** The sources come, in order, from the containers with these numbers, which are those taken. */
  ghost predicate Discovers(containers: seq<Listed>, exposed: bool, instance: string, sources: seq<Source<MapNode>>,
                            shapes: seq<Shape>, ks: seq<nat>) {
    && |sources| == |shapes| == |ks|
    && (forall i, j :: 0 <= i < j < |ks| ==> ks[i] < ks[j])
    && (forall j :: 0 <= j < |ks| ==> ks[j] < |containers| && SourceOf(containers[ks[j]], sources[j], shapes[j]))
    && (forall i :: 0 <= i < |containers| ==> (i in ks <==> Taken(containers[i], exposed, instance)))
  }

  lemma {:induction false} ModelIsEmptyExactly(labels: map<string, string>, exposed: bool, p: Parsed, es: seq<Entry>,
                                               sh: Shape)
    requires ReadSoFar(labels, labels.Keys, exposed, p, es, sh)
    ensures TreeOf(sh).Map? && (TreeOf(sh).kids != map[] <==> exists k :: k in labels && ConfigKey(k))
  {
    hide Classify, ConfigKey, MetaSoFar, Creds, TreeOf;
    var s := Entries(labels, labels.Keys);
    forall k | k in labels ensures Classify(k, labels[k]).Config? <==> ConfigKey(k) { ConfigKeyExactly(k, labels[k]); }
    assert forall e :: e in es ==> e in ToSet(es);
    AssignedIsSome(es);
    if k :| k in labels && ConfigKey(k) { assert Classify(k, labels[k]).entry in s; }
    if es != [] {
      assert es[0] in s;
      var k :| k in labels && Classify(k, labels[k]).Config? && Classify(k, labels[k]).entry == es[0];
    }
  }

  lemma AssignedIsSome(es: seq<Entry>)
    requires forall e :: e in es ==> e.path != []
    ensures Assigned(es).Map? && (Assigned(es).kids != map[] <==> es != [])
  {
    if es != [] {
      var n := |es| - 1;
      assert es[n].path[0] in SetAt(Assigned(es[..n]), es[n].path, Leaf(Str(es[n].value))).kids;
    }
  }

  lemma ParsedSource(c: Listed, exposed: bool, p: Parsed, es: seq<Entry>, sh: Shape)
    requires ReadSoFar(c.labels, c.labels.Keys, exposed, p, es, sh)
    ensures SourceOf(c, Source(c.name, c.id, p.name, p.profile, p.model, p.credRefs), sh)
    ensures p.enabled <==> Enabled(c.labels, exposed)
    ensures p.instance == LabelOr(c.labels, "gobackup.instance")
  {
    hide ReadSoFar, NamesCred, Labelled, Clash, IsOneOf, At;
    MetaAreTheLabels(c.labels, exposed, p, es, sh);
    forall r ensures r in p.credRefs <==> exists k :: k in c.labels && r.ref == c.labels[k] && NamesCred(k, r) {
      CredsAreTheLabels(c.labels, exposed, p, es, sh, r);
    }
    CredsAreTheLabels(c.labels, exposed, p, es, sh, CredRef([], Env, ""));
    if forall j, k :: !Clash(c.labels, j, k) {
      forall q, v ensures At(TreeOf(sh), q) == Some(Leaf(Str(v))) <==> Labelled(c.labels, q, v) {
        ModelIsTheLabels(c.labels, exposed, p, es, sh, q);
      }
    }
  }

  /** One round of the loop. */
  method Consider(c: Listed, exposed: bool, instance: string) returns (src: Option<Source<MapNode>>, ghost sh: Shape)
    ensures src.Some? <==> Taken(c, exposed, instance)
    ensures src.Some? ==> SourceOf(c, src.value, sh) && Refs(src.value.credRefs)
    ensures src.Some? ==> Rep(Obj(src.value.model), sh) && fresh(Foot(sh))
  {
    hide SourceOf, Taken, ReadSoFar, TreeOf, ConfigKey, Enabled;
    var p;
    ghost var es;
    p, es, sh := Parse(c.labels, exposed);
    ParsedSource(c, exposed, p, es, sh);
    ModelIsEmptyExactly(c.labels, exposed, p, es, sh);
    EntriesAre(p.model, sh);
    IsTaken(c, exposed, instance, p, sh);
    if !p.enabled || p.model.entries == map[] {
      return None, sh;
    }
    if instance != "" && p.instance != "" && p.instance != instance {
      return None, sh;
    }
    ParsedRefs(c.labels, exposed, p, es, sh);
    src := Some(Source(c.name, c.id, p.name, p.profile, p.model, p.credRefs));
  }

  method Discover(containers: seq<Listed>, exposed: bool, instance: string)
    returns (sources: seq<Source<MapNode>>, ghost shapes: seq<Shape>, ghost ks: seq<nat>)
    ensures Discovers(containers, exposed, instance, sources, shapes, ks) && AllRefs(sources)
    ensures forall j :: 0 <= j < |sources| ==> Rep(Obj(sources[j].model), shapes[j]) && fresh(Foot(shapes[j]))
  {
    sources, shapes, ks := [], [], [];
    for i := 0 to |containers|
      invariant Discovers(containers[..i], exposed, instance, sources, shapes, ks) && AllRefs(sources)
      invariant forall j :: 0 <= j < |sources| ==> Rep(Obj(sources[j].model), shapes[j]) && fresh(Foot(shapes[j]))
    {
      hide SourceOf, Taken, Discovers;
      var c := containers[i];
      assert containers[..i + 1] == containers[..i] + [c];
      var src;
      ghost var sh;
      src, sh := Consider(c, exposed, instance);
      if src.None? {
        NotTaken(containers[..i], c, exposed, instance, sources, shapes, ks);
      } else {
        OneTaken(containers[..i], c, exposed, instance, sources, shapes, ks, src.value, sh);
        AsManyShapes(containers[..i], exposed, instance, sources, shapes, ks);
        sources, shapes, ks := sources + [src.value], shapes + [sh], ks + [i];
      }
    }
    assert containers[..|containers|] == containers;
  }

  lemma AsManyShapes(containers: seq<Listed>, exposed: bool, instance: string, sources: seq<Source<MapNode>>,
                     shapes: seq<Shape>, ks: seq<nat>)
    requires Discovers(containers, exposed, instance, sources, shapes, ks)
    ensures |sources| == |shapes| == |ks|
  {
    hide SourceOf, Taken;
  }

  lemma EntriesAre(m: MapNode, sh: Shape)
    requires Rep(Obj(m), sh)
    ensures TreeOf(sh).Map? && (m.entries != map[] <==> TreeOf(sh).kids != map[])
  {
    assert m.entries.Keys == TreeOf(sh).kids.Keys;
  }

  lemma IsTaken(c: Listed, exposed: bool, instance: string, p: Parsed, sh: Shape)
    requires p.enabled <==> Enabled(c.labels, exposed)
    requires p.instance == LabelOr(c.labels, "gobackup.instance")
    requires TreeOf(sh).Map? && (TreeOf(sh).kids != map[] <==> exists k :: k in c.labels && ConfigKey(k))
    ensures Taken(c, exposed, instance) <==>
            p.enabled && TreeOf(sh).kids != map[] && (instance == "" || p.instance == "" || p.instance == instance)
  {
    hide Enabled, ConfigKey;
  }

  lemma NotTaken(before: seq<Listed>, c: Listed, exposed: bool, instance: string, sources: seq<Source<MapNode>>,
                 shapes: seq<Shape>, ks: seq<nat>)
    requires Discovers(before, exposed, instance, sources, shapes, ks) && !Taken(c, exposed, instance)
    ensures Discovers(before + [c], exposed, instance, sources, shapes, ks)
  {
    hide SourceOf, Taken;
  }

  lemma OneTaken(before: seq<Listed>, c: Listed, exposed: bool, instance: string, sources: seq<Source<MapNode>>,
                 shapes: seq<Shape>, ks: seq<nat>, src: Source<MapNode>, sh: Shape)
    requires Discovers(before, exposed, instance, sources, shapes, ks) && Taken(c, exposed, instance)
    requires SourceOf(c, src, sh)
    ensures Discovers(before + [c], exposed, instance, sources + [src], shapes + [sh], ks + [|before|])
  {
    hide SourceOf, Taken;
    var all := ks + [|before|];
    forall i | 0 <= i < |before| ensures i in all <==> i in ks {}
    assert all[|ks|] == |before|;
  }
}
