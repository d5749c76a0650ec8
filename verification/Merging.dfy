// internal/render/merge.go: overlaying a container's labels on the profile it inherits, and
// removing what a label opted out of.
module Merging {
  import opened Wrappers
  import opened Trees
  import opened Document

  // ---- what merging means ----

  function Overlay(b: Tree, o: Tree): Tree
    decreases o
  {
    if b.Map? && o.Map? then
      Map(map k | k in b.kids.Keys + o.kids.Keys ::
            if k !in o.kids then b.kids[k]
            else if k !in b.kids then o.kids[k]
            else Overlay(b.kids[k], o.kids[k]))
    else o
  }

  const OPT_OUT := Leaf(Str("!none"))

  function Pruned(t: Tree): Tree {
    if t.Map? then Map(map k | k in t.kids && t.kids[k] != OPT_OUT :: Pruned(t.kids[k])) else t
  }

  /** Somewhere above the end of path, o holds something other than a map. */
  ghost predicate Blocks(o: Tree, path: Path) {
    exists i :: 0 <= i < |path| && StopsAt(o, path[..i])
  }

  ghost predicate StopsAt(o: Tree, path: Path) {
    At(o, path).Some? && !At(o, path).value.Map?
  }

  lemma BlocksStep(o: Tree, path: Path)
    requires path != [] && o.Map? && path[0] in o.kids
    ensures Blocks(o, path) <==> Blocks(o.kids[path[0]], path[1..])
  {
    var kid, rest := o.kids[path[0]], path[1..];
    if Blocks(o, path) {
      var i :| 0 <= i < |path| && StopsAt(o, path[..i]);
      assert path[..i][1..] == rest[..i - 1];
      assert StopsAt(kid, rest[..i - 1]);
    }
    if Blocks(kid, rest) {
      var i :| 0 <= i < |rest| && StopsAt(kid, rest[..i]);
      assert path[..i + 1][1..] == rest[..i];
      assert StopsAt(o, path[..i + 1]);
    }
  }

  /** A label wins where it says something and hides the profile's subtree where it puts a
      value; everything else is the profile's. */
  lemma {:induction false} OverlayAt(b: Tree, o: Tree, path: Path)
    ensures At(Overlay(b, o), path) ==
            if At(o, path).Some? then
              (if At(b, path).Some? then Some(Overlay(At(b, path).value, At(o, path).value)) else At(o, path))
            else if Blocks(o, path) then None
            else At(b, path)
  {
    if path == [] {
    } else if !o.Map? {
      assert StopsAt(o, path[..0]);
    } else if path[0] !in o.kids {
      forall i | 0 <= i < |path| ensures !StopsAt(o, path[..i]) {
        assert i > 0 ==> path[..i][0] == path[0];
      }
    } else {
      BlocksStep(o, path);
      if b.Map? && path[0] in b.kids {
        OverlayAt(b.kids[path[0]], o.kids[path[0]], path[1..]);
      } else {
        if At(o, path).None? && !Blocks(o, path) { NotBlocked(o, path); }
      }
    }
  }

  /** A path that leaves o without meeting a value leaves it at a map. */
  lemma {:induction false} NotBlocked(o: Tree, path: Path)
    requires At(o, path).None? && !Blocks(o, path)
    ensures o.Map?
  {
    if !o.Map? { assert StopsAt(o, path[..0]); }
  }

  lemma {:induction false} PrunedAt(t: Tree, path: Path)
    ensures At(Pruned(t), path) ==
            match At(t, path)
            case None => None
            case Some(u) => if path != [] && u == OPT_OUT then None else Some(Pruned(u))
  {
    if path != [] && t.Map? && path[0] in t.kids {
      PrunedAt(t.kids[path[0]], path[1..]);
    }
  }

  /** o says something about path: there, or by putting a value above it. */
  ghost predicate Hides(o: Tree, path: Path) {
    At(o, path).Some? || Blocks(o, path)
  }

  /** What a model holds after merging and opting out, value by value: the label's value,
      or the profile's where no label hides it, and never the opt-out mark. */
  lemma MergeMeaning(b: Tree, o: Tree, path: Path, v: Tree)
    requires b.Map? && o.Map? && !v.Map?
    ensures At(Pruned(Overlay(b, o)), path) == Some(v) <==>
            v != OPT_OUT && (At(o, path) == Some(v) || (At(b, path) == Some(v) && !Hides(o, path)))
  {
    OverlayAt(b, o, path);
    PrunedAt(Overlay(b, o), path);
  }

  /** Where a label says "!none", nothing is left, however much the profile had there. */
  lemma OptOutRemoves(b: Tree, o: Tree, path: Path, below: Path)
    requires path != [] && At(o, path) == Some(OPT_OUT)
    ensures At(Pruned(Overlay(b, o)), path + below).None?
  {
    OverlayAt(b, o, path);
    PrunedAt(Overlay(b, o), path);
    AtConcat(Pruned(Overlay(b, o)), path, below);
  }

  /** What a label does not touch is inherited whole, up to opt-outs. */
  lemma {:induction false} UntouchedIsInherited(b: Tree, o: Tree, path: Path)
    requires b.Map? && o.Map? && path != [] && !Hides(o, path)
    ensures At(Pruned(Overlay(b, o)), path) == At(Pruned(b), path)
  {
    OverlayAt(b, o, path);
    PrunedAt(Overlay(b, o), path);
    PrunedAt(b, path);
  }

  lemma {:induction false} PrunedTwice(t: Tree)
    ensures Pruned(Pruned(t)) == Pruned(t)
  {
    if t.Map? {
      forall k | k in t.kids ensures Pruned(Pruned(t.kids[k])) == Pruned(t.kids[k]) { PrunedTwice(t.kids[k]); }
      assert Pruned(Pruned(t)).kids == Pruned(t).kids;
    }
  }

  /** Any value to lay labels over that is not a map: they replace it. */
  const NO_MAP := Leaf(Other(""))

  /** Merging the same labels a second time changes nothing. */
  lemma {:induction false} OverlayTwice(b: Tree, o: Tree)
    ensures Overlay(Overlay(b, o), o) == Overlay(b, o)
    decreases o
  {
    if o.Map? {
      forall k | k in o.kids
        ensures Overlay(o.kids[k], o.kids[k]) == o.kids[k]
        ensures b.Map? && k in b.kids ==>
                Overlay(Overlay(b.kids[k], o.kids[k]), o.kids[k]) == Overlay(b.kids[k], o.kids[k])
      {
        OverlayTwice(NO_MAP, o.kids[k]);
        if b.Map? && k in b.kids { OverlayTwice(b.kids[k], o.kids[k]); }
      }
      assert Overlay(Overlay(b, o), o).kids == Overlay(b, o).kids;
    }
  }

  /** Nor does merging them again onto the finished model. */
  lemma {:induction false} RemergeChangesNothing(b: Tree, o: Tree)
    ensures Pruned(Overlay(Pruned(Overlay(b, o)), o)) == Pruned(Overlay(b, o))
    decreases o
  {
    if o.Map? {
      var once := Pruned(Overlay(b, o));
      var twice := Pruned(Overlay(once, o));
      forall k ensures k in once.kids <==> k in twice.kids
               ensures k in once.kids && k in twice.kids ==> once.kids[k] == twice.kids[k]
      {
        RemergedKid(b, o, k);
      }
      assert once.kids == twice.kids;
    }
  }

  lemma {:induction false} RemergedKid(b: Tree, o: Tree, k: string)
    requires o.Map?
    ensures var once := Pruned(Overlay(b, o)); var twice := Pruned(Overlay(once, o));
            (k in once.kids <==> k in twice.kids) && (k in once.kids ==> once.kids[k] == twice.kids[k])
    decreases o, 0
  {
    if k in o.kids {
      RemergeChangesNothing(NO_MAP, o.kids[k]);
      if b.Map? && k in b.kids { RemergeChangesNothing(b.kids[k], o.kids[k]); }
    } else if b.Map? && k in b.kids {
      PrunedTwice(b.kids[k]);
    }
  }

  // ---- deepMerge ----

  /** The kids of b with those of o laid over them, but for the keys of todo. */
  ghost predicate MergedSoFar(b: Shape, o: Shape, kids: map<string, Shape>, todo: set<string>)
    requires b.AtMap? && o.AtMap?
  {
    && kids.Keys == b.kids.Keys + (o.kids.Keys - todo)
    && forall k :: k in kids ==>
         TreeOf(kids[k]) ==
         if k !in o.kids || k in todo then TreeOf(b.kids[k])
         else if k !in b.kids then TreeOf(o.kids[k])
         else Overlay(TreeOf(b.kids[k]), TreeOf(o.kids[k]))
  }

  lemma MergedAll(b: Shape, o: Shape, kids: map<string, Shape>, n: MapNode, foot: set<object>)
    requires b.AtMap? && o.AtMap? && MergedSoFar(b, o, kids, {})
    ensures TreeOf(AtMap(n, kids, foot)) == Overlay(TreeOf(b), TreeOf(o))
  {
    var t, u := TreeOf(AtMap(n, kids, foot)), Overlay(TreeOf(b), TreeOf(o));
    forall k | k in kids ensures t.kids[k] == u.kids[k] {
      assert t.kids[k] == TreeOf(kids[k]);
    }
    assert t.kids == u.kids;
  }

  lemma MergedStep(b: Shape, o: Shape, kids: map<string, Shape>, todo: set<string>, k: string, ksh: Shape)
    requires b.AtMap? && o.AtMap? && k in todo && todo <= o.kids.Keys && MergedSoFar(b, o, kids, todo)
    requires TreeOf(ksh) == if k in kids then Overlay(TreeOf(kids[k]), TreeOf(o.kids[k])) else TreeOf(o.kids[k])
    ensures MergedSoFar(b, o, kids[k := ksh], todo - {k})
  {
  }

  lemma ShapesOf(base: MapNode, overlay: MapNode, b: Shape, o: Shape)
    requires Rep(Obj(base), b) && Rep(Obj(overlay), o)
    ensures b.AtMap? && b.node == base && o.AtMap? && overlay.entries.Keys == o.kids.Keys
    ensures MergedSoFar(b, o, b.kids, o.kids.Keys)
  {
    assert b.kids.Keys + (o.kids.Keys - o.kids.Keys) == b.kids.Keys;
  }

  /** Lays overlay over base in place, copying what it takes. */
  method DeepMerge(base: MapNode, overlay: MapNode, ghost b: Shape, ghost o: Shape) returns (ghost b': Shape)
    requires Rep(Obj(base), b) && Rep(Obj(overlay), o) && Foot(b) !! Foot(o)
    modifies Foot(b)
    ensures Rep(Obj(base), b') && fresh(Foot(b') - Foot(b))
    ensures TreeOf(b') == Overlay(TreeOf(b), TreeOf(o))
    decreases o, 1
  {
    hide Rep, TreeOf, Overlay, MergedSoFar;
    b' := b;
    ShapesOf(base, overlay, b, o);
    var todo := overlay.entries.Keys;
    while todo != {}
      invariant todo <= o.kids.Keys
      invariant b'.AtMap? && b'.node == base && Rep(Obj(base), b') && Rep(Obj(overlay), o)
      invariant fresh(Foot(b') - Foot(b)) && Foot(b') !! Foot(o)
      invariant MergedSoFar(b, o, b'.kids, todo)
      decreases todo
    {
      var k :| k in todo;
      ghost var kids := b'.kids;
      ghost var ksh;
      ksh, b' := MergeKid(base, overlay, k, b', o);
      MergedStep(b, o, kids, todo, k, ksh);
      todo := todo - {k};
    }
    MergedAll(b, o, b'.kids, base, b'.foot);
  }

  lemma NothingToMerge(b: Shape, o: Shape, k: string)
    requires b.AtMap? && o.AtMap? && k in o.kids
    requires k in b.kids ==> !(b.kids[k].AtMap? && o.kids[k].AtMap?)
    ensures k in b.kids ==> Overlay(TreeOf(b.kids[k]), TreeOf(o.kids[k])) == TreeOf(o.kids[k])
  {
  }

  /** One round of the loop: ksh is what is at k then. */
  method MergeKid(base: MapNode, overlay: MapNode, k: string, ghost b: Shape, ghost o: Shape)
    returns (ghost ksh: Shape, ghost b': Shape)
    requires Rep(Obj(base), b) && Rep(Obj(overlay), o) && Foot(b) !! Foot(o)
    requires k in o.kids
    modifies Foot(b)
    ensures b' == AtMap(base, b.kids[k := ksh], b.foot + Foot(ksh))
    ensures Rep(Obj(base), b') && Rep(Obj(overlay), o) && fresh(Foot(b') - Foot(b)) && Foot(b') !! Foot(o)
    ensures TreeOf(ksh) == if k in b.kids then Overlay(TreeOf(b.kids[k]), TreeOf(o.kids[k])) else TreeOf(o.kids[k])
    decreases o, 0
  {
    hide Rep, RepBut, Fits, TreeOf, Overlay;
    KidOf(base, b, k);
    KidOf(overlay, o, k);
    RepWithout(base, b.kids, b.foot, k);
    var ov := overlay.entries[k];
    if k in base.entries && base.entries[k].Obj? && ov.Obj? {
      label before:
      ksh := DeepMerge(base.entries[k].node, ov.node, b.kids[k], o.kids[k]);
      assert unchanged@before(b.foot - KidFoot(b.kids, k));
      StillFits(base, b.kids, b.foot, k, ksh);
      Rejoin(base, b.kids, b.foot, k, ksh);
    } else {
      NothingToMerge(b, o, k);
      ksh := CopyOver(base, overlay, k, b, o);
    }
    b' := AtMap(base, b.kids[k := ksh], b.foot + Foot(ksh));
  }

  /** base[k] = deepCopy(overlay[k]) */
  method CopyOver(base: MapNode, overlay: MapNode, k: string, ghost b: Shape, ghost o: Shape) returns (ghost ksh: Shape)
    requires Rep(Obj(base), b) && Rep(Obj(overlay), o) && Foot(b) !! Foot(o)
    requires k in o.kids
    modifies base
    ensures Rep(Obj(base), AtMap(base, b.kids[k := ksh], b.foot + Foot(ksh)))
    ensures fresh(Foot(ksh)) && TreeOf(ksh) == TreeOf(o.kids[k])
  {
    hide Rep, RepBut, Fits, TreeOf;
    KidOf(base, b, k);
    KidOf(overlay, o, k);
    RepWithout(base, b.kids, b.foot, k);
    var c: Value;
    c, ksh := DeepCopy(overlay.entries[k], o.kids[k]);
    StillFits(base, b.kids, b.foot, k, ksh);
    Put(base, k, c, b.kids, b.foot, ksh);
  }

  // ---- pruneOptOut ----

  /** The kids of sh, those outside todo pruned. */
  ghost predicate PrunedSoFar(sh: Shape, kids: map<string, Shape>, todo: set<string>)
    requires sh.AtMap?
  {
    && todo <= kids.Keys <= sh.kids.Keys
    && (forall k :: k in todo ==> kids[k] == sh.kids[k])
    && (forall k :: k in sh.kids && k !in todo ==> (k in kids <==> TreeOf(sh.kids[k]) != OPT_OUT))
    && (forall k :: k in kids && k !in todo ==> TreeOf(kids[k]) == Pruned(TreeOf(sh.kids[k])))
  }

  lemma PrunedAll(sh: Shape, kids: map<string, Shape>, n: MapNode, foot: set<object>)
    requires sh.AtMap? && PrunedSoFar(sh, kids, {})
    ensures TreeOf(AtMap(n, kids, foot)) == Pruned(TreeOf(sh))
  {
    assert TreeOf(AtMap(n, kids, foot)).kids == Pruned(TreeOf(sh)).kids;
  }

  lemma PrunedStep(sh: Shape, kids: map<string, Shape>, kids': map<string, Shape>, todo: set<string>, k: string)
    requires sh.AtMap? && k in todo && PrunedSoFar(sh, kids, todo)
    requires kids'.Keys == if TreeOf(sh.kids[k]) == OPT_OUT then kids.Keys - {k} else kids.Keys
    requires forall j :: j in kids' && j != k ==> kids'[j] == kids[j]
    requires k in kids' ==> TreeOf(kids'[k]) == Pruned(TreeOf(sh.kids[k]))
    ensures PrunedSoFar(sh, kids', todo - {k})
  {
  }

  method PruneOptOut(m: MapNode, ghost sh: Shape) returns (ghost sh': Shape)
    requires Rep(Obj(m), sh)
    modifies Foot(sh)
    ensures Rep(Obj(m), sh') && Foot(sh') <= Foot(sh)
    ensures TreeOf(sh') == Pruned(TreeOf(sh))
    decreases sh, 1
  {
    sh' := sh;
    var todo := m.entries.Keys;
    while todo != {}
      invariant sh'.AtMap? && Rep(Obj(m), sh') && Foot(sh') <= Foot(sh)
      invariant PrunedSoFar(sh, sh'.kids, todo)
      decreases todo
    {
      var k :| k in todo;
      ghost var kids := sh'.kids;
      sh' := PruneKid(m, k, sh', sh);
      PrunedStep(sh, kids, sh'.kids, todo, k);
      todo := todo - {k};
    }
    PrunedAll(sh, sh'.kids, m, sh'.foot);
  }

  /** One round of the loop. */
  method PruneKid(m: MapNode, k: string, ghost now: Shape, ghost sh: Shape) returns (ghost sh': Shape)
    requires Rep(Obj(m), now) && k in now.kids && now.kids[k] < sh
    modifies Foot(now)
    ensures sh'.AtMap? && Rep(Obj(m), sh') && Foot(sh') <= Foot(now)
    ensures sh'.kids.Keys == if TreeOf(now.kids[k]) == OPT_OUT then now.kids.Keys - {k} else now.kids.Keys
    ensures forall j :: j in sh'.kids && j != k ==> sh'.kids[j] == now.kids[j]
    ensures k in sh'.kids ==> TreeOf(sh'.kids[k]) == Pruned(TreeOf(now.kids[k]))
    decreases sh, 0
  {
    RepWithout(m, now.kids, now.foot, k);
    sh' := now;
    match m.entries[k] {
      case Atom(Str(t)) =>
        if t == "!none" {
          Delete(m, k, now.kids, now.foot);
          sh' := AtMap(m, now.kids - {k}, now.foot);
        }
      case Obj(node) =>
        ghost var ksh := PruneOptOut(node, now.kids[k]);
        Rejoin(m, now.kids, now.foot, k, ksh);
        sh' := AtMap(m, now.kids[k := ksh], now.foot + Foot(ksh));
      case _ =>
    }
  }
}
