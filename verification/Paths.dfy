// Writing and finding a value by its path: setPath (internal/labels/parse.go:132-145), and
// setLeaf and hasLeaf (internal/render/model.go:157-185). setPath and setLeaf are the same.
module Paths {
  import opened Wrappers
  import opened Trees
  import opened Document

  // ---- on values ----

  function Kids(t: Tree): map<string, Tree> { if t.Map? then t.kids else map[] }

  function KidOr(t: Tree, k: string): Tree { if k in Kids(t) then Kids(t)[k] else EMPTY }

  /** v at path, in maps made where there was none. */
  function SetAt(t: Tree, path: Path, v: Tree): Tree
    requires path != []
    decreases |path|
  {
    var kid := if |path| == 1 then v else SetAt(KidOr(t, path[0]), path[1..], v);
    Map(Kids(t)[path[0] := kid])
  }

  /** The value is there, the way to it is maps, and nothing off the way has changed. */
  lemma {:induction false} SetAtMeaning(t: Tree, path: Path, v: Tree, q: Path)
    requires path != []
    ensures path <= q ==> At(SetAt(t, path, v), q) == At(v, q[|path|..])
    ensures q < path ==> At(SetAt(t, path, v), q).Some? && At(SetAt(t, path, v), q).value.Map?
    ensures !(path <= q) && !(q < path) ==> At(SetAt(t, path, v), q) == At(t, q)
    decreases |path|
  {
    if q == [] {
      assert q < path;
    } else if q[0] == path[0] {
      var p', q' := path[1..], q[1..];
      assert path <= q <==> p' <= q';
      assert q < path <==> q' < p';
      if |path| > 1 {
        SetAtMeaning(KidOr(t, path[0]), p', v, q');
        if !(p' <= q') && !(q' < p') { EmptyAt(q'); }
      }
    }
  }

  lemma EmptyAt(q: Path)
    requires q != []
    ensures At(EMPTY, q).None?
  {
  }

  /** Making a missing map on the way first changes nothing in the end. */
  lemma {:induction false} MakeMapFirst(t: Tree, p: Path, path: Path, v: Tree)
    requires [] < p < path
    requires At(t, p).Some? ==> !At(t, p).value.Map?
    ensures SetAt(SetAt(t, p, EMPTY), path, v) == SetAt(t, path, v)
    decreases |p|
  {
    var k := path[0];
    var t' := SetAt(t, p, EMPTY);
    assert p[0] == k;
    if |p| == 1 {
      assert At(t, p) == if t.Map? && k in t.kids then Some(t.kids[k]) else None;
      assert Kids(KidOr(t', k)) == Kids(KidOr(t, k)) == map[];
      SetAtKids(KidOr(t', k), KidOr(t, k), path[1..], v);
    } else {
      assert p[1..] < path[1..];
      MakeMapFirst(KidOr(t, k), p[1..], path[1..], v);
    }
    var kid := SetAt(KidOr(t, k), path[1..], v);
    assert t'.kids[k := kid] == Kids(t)[k := kid];
  }

  lemma SetAtKids(a: Tree, b: Tree, path: Path, v: Tree)
    requires path != [] && Kids(a) == Kids(b)
    ensures SetAt(a, path, v) == SetAt(b, path, v)
  {
  }

  // ---- what is at a path, a map's contents aside ----

  datatype Kind = Absent | Inner | Holds(t: Tree)

  function KindAt(t: Tree, q: Path): Kind {
    match At(t, q)
    case None => Absent
    case Some(u) => if u.Map? then Inner else Holds(u)
  }

  /** A tree is known by what is at its paths. */
  lemma {:induction false} KindsDecide(s: Tree, t: Tree)
    requires forall q :: KindAt(s, q) == KindAt(t, q)
    ensures s == t
  {
    assert KindAt(s, []) == KindAt(t, []);
    if s.Map? {
      forall k ensures k in s.kids <==> k in t.kids {
        assert KindAt(s, [k]) == KindAt(t, [k]);
        assert At(s, [k]) == if k in s.kids then Some(s.kids[k]) else None;
        assert At(t, [k]) == if k in t.kids then Some(t.kids[k]) else None;
      }
      forall k | k in s.kids ensures s.kids[k] == t.kids[k] {
        forall q ensures KindAt(s.kids[k], q) == KindAt(t.kids[k], q) {
          assert ([k] + q)[1..] == q;
          assert KindAt(s, [k] + q) == KindAt(t, [k] + q);
        }
        KindsDecide(s.kids[k], t.kids[k]);
      }
      assert s.kids == t.kids;
    }
  }

  // ---- on the heap ----

  ghost function ShapeAt(sh: Shape, path: Path): Option<Shape> {
    if path == [] then Some(sh)
    else if sh.AtMap? && path[0] in sh.kids then ShapeAt(sh.kids[path[0]], path[1..])
    else None
  }

  lemma {:induction false} TreeAt(sh: Shape, path: Path)
    ensures At(TreeOf(sh), path) == match ShapeAt(sh, path) { case None => None case Some(u) => Some(TreeOf(u)) }
  {
    if path != [] && sh.AtMap? && path[0] in sh.kids {
      TreeAt(sh.kids[path[0]], path[1..]);
    }
  }

  /** The map that path leads to. */
  ghost predicate LeadsTo(sh: Shape, path: Path, n: MapNode) {
    match ShapeAt(sh, path)
    case Some(AtMap(m, _, _)) => m == n
    case _ => false
  }

  /** The shape with vsh as kid k of the map at path. */
  ghost function PutIn(sh: Shape, path: Path, k: string, vsh: Shape): Shape
    requires ShapeAt(sh, path).Some? && ShapeAt(sh, path).value.AtMap?
  {
    if path == [] then AtMap(sh.node, sh.kids[k := vsh], sh.foot + Foot(vsh))
    else AtMap(sh.node, sh.kids[path[0] := PutIn(sh.kids[path[0]], path[1..], k, vsh)], sh.foot + Foot(vsh))
  }

  lemma {:induction false} PutInTree(sh: Shape, path: Path, k: string, vsh: Shape)
    requires ShapeAt(sh, path).Some? && ShapeAt(sh, path).value.AtMap?
    ensures TreeOf(PutIn(sh, path, k, vsh)) == SetAt(TreeOf(sh), path + [k], TreeOf(vsh))
    decreases |path|
  {
    if path == [] {
      WithKid(sh, k, vsh, sh.foot + Foot(vsh));
    } else {
      PutInTree(sh.kids[path[0]], path[1..], k, vsh);
      assert (path + [k])[1..] == path[1..] + [k];
      WithKid(sh, path[0], PutIn(sh.kids[path[0]], path[1..], k, vsh), sh.foot + Foot(vsh));
    }
  }

  lemma WithKid(sh: Shape, k: string, ksh: Shape, foot: set<object>)
    requires sh.AtMap?
    ensures TreeOf(AtMap(sh.node, sh.kids[k := ksh], foot)) == Map(TreeOf(sh).kids[k := TreeOf(ksh)])
  {
    assert TreeOf(AtMap(sh.node, sh.kids[k := ksh], foot)).kids == TreeOf(sh).kids[k := TreeOf(ksh)];
  }

  lemma {:induction false} PutInLeads(sh: Shape, path: Path, k: string, vsh: Shape)
    requires ShapeAt(sh, path).Some? && ShapeAt(sh, path).value.AtMap?
    ensures ShapeAt(PutIn(sh, path, k, vsh), path + [k]) == Some(vsh)
    decreases |path|
  {
    if path != [] {
      PutInLeads(sh.kids[path[0]], path[1..], k, vsh);
      assert (path + [k])[1..] == path[1..] + [k];
    }
  }

  lemma PutInFoot(sh: Shape, path: Path, k: string, vsh: Shape)
    requires ShapeAt(sh, path).Some? && ShapeAt(sh, path).value.AtMap?
    ensures Foot(PutIn(sh, path, k, vsh)) == Foot(sh) + Foot(vsh)
  {
  }

  /** v has the shape sh, or would have if the map n, where path leads, held e. */
  ghost predicate RepAround(v: Value, sh: Shape, path: Path, n: MapNode, e: map<string, Value>)
    reads Foot(sh) - {n}
    decreases |path|
  {
    && sh.AtMap? && v == Obj(sh.node) && sh.node in sh.foot
    && (forall j :: j in sh.kids ==> Foot(sh.kids[j]) <= sh.foot - {sh.node})
    && (forall i, j :: i in sh.kids && j in sh.kids && i != j ==> Foot(sh.kids[i]) !! Foot(sh.kids[j]))
    && if path == [] then
         && sh.node == n && e.Keys == sh.kids.Keys
         && (forall j :: j in sh.kids ==> Rep(e[j], sh.kids[j]))
       else
         && path[0] in sh.kids && n in Foot(sh.kids[path[0]]) && sh.node.entries.Keys == sh.kids.Keys
         && (forall j :: j in sh.kids && j != path[0] ==> Rep(sh.node.entries[j], sh.kids[j]))
         && RepAround(sh.node.entries[path[0]], sh.kids[path[0]], path[1..], n, e)
  }

  lemma {:induction false} TakeOut(v: Value, sh: Shape, path: Path, n: MapNode)
    requires Rep(v, sh) && LeadsTo(sh, path, n)
    ensures n in Foot(sh) && RepAround(v, sh, path, n, n.entries)
    decreases |path|
  {
    if path != [] {
      TakeOut(sh.node.entries[path[0]], sh.kids[path[0]], path[1..], n);
    }
  }

  lemma {:induction false} PutBack(v: Value, sh: Shape, path: Path, n: MapNode)
    requires RepAround(v, sh, path, n, n.entries)
    ensures Rep(v, sh)
    decreases |path|
  {
    if path != [] {
      PutBack(sh.node.entries[path[0]], sh.kids[path[0]], path[1..], n);
    }
  }

  lemma ExchangeHere(sh: Shape, n: MapNode, e: map<string, Value>, k: string, x: Value, xsh: Shape)
    requires RepAround(Obj(n), sh, [], n, e)
    requires Rep(x, xsh) && Foot(xsh) !! Foot(sh)
    ensures RepAround(Obj(n), AtMap(n, sh.kids[k := xsh], sh.foot + Foot(xsh)), [], n, e[k := x])
  {
    hide Rep;
  }

  /** Another value for one key of that map. */
  lemma {:induction false} Exchange(v: Value, sh: Shape, path: Path, n: MapNode, e: map<string, Value>, k: string,
                                    x: Value, xsh: Shape)
    requires RepAround(v, sh, path, n, e) && LeadsTo(sh, path, n)
    requires Rep(x, xsh) && Foot(xsh) !! Foot(sh)
    ensures RepAround(v, PutIn(sh, path, k, xsh), path, n, e[k := x])
    decreases |path|
  {
    hide Rep;
    if path == [] {
      ExchangeHere(sh, n, e, k, x, xsh);
    } else {
      Exchange(sh.node.entries[path[0]], sh.kids[path[0]], path[1..], n, e, k, x, xsh);
      PutInFoot(sh.kids[path[0]], path[1..], k, xsh);
      ExchangeAbove(sh, path, n, e, PutIn(sh.kids[path[0]], path[1..], k, xsh), Foot(xsh), e[k := x]);
    }
  }

  lemma ExchangeAbove(sh: Shape, path: Path, n: MapNode, e: map<string, Value>, kid: Shape, more: set<object>,
                      e': map<string, Value>)
    requires sh.AtMap? && path != [] && RepAround(Obj(sh.node), sh, path, n, e)
    requires Foot(kid) == Foot(sh.kids[path[0]]) + more && more !! sh.foot
    requires RepAround(sh.node.entries[path[0]], kid, path[1..], n, e')
    ensures RepAround(Obj(sh.node), AtMap(sh.node, sh.kids[path[0] := kid], sh.foot + more), path, n, e')
  {
    hide Rep;
  }

  lemma {:induction false} LeadsOn(sh: Shape, path: Path, k: string)
    ensures ShapeAt(sh, path + [k]) ==
            match ShapeAt(sh, path)
            case Some(AtMap(_, kids, _)) => (if k in kids then Some(kids[k]) else None)
            case _ => None
    decreases |path|
  {
    if path != [] {
      assert (path + [k])[1..] == path[1..] + [k];
      if sh.AtMap? && path[0] in sh.kids { LeadsOn(sh.kids[path[0]], path[1..], k); }
    }
  }

  /** The map a path leads to is one of the value's own. */
  lemma {:induction false} MapInside(v: Value, sh: Shape, path: Path, n: MapNode)
    requires Rep(v, sh) && LeadsTo(sh, path, n)
    ensures n in Foot(sh) && Rep(Obj(n), ShapeAt(sh, path).value)
    decreases |path|
  {
    if path != [] {
      MapInside(sh.node.entries[path[0]], sh.kids[path[0]], path[1..], n);
    }
  }

  /** tree[path] = val, through a cursor that makes the maps it misses. */
  method SetPath(tree: MapNode, path: Path, val: string, ghost sh: Shape) returns (ghost sh': Shape)
    requires Rep(Obj(tree), sh) && path != []
    modifies Foot(sh)
    ensures Rep(Obj(tree), sh') && fresh(Foot(sh') - Foot(sh))
    ensures TreeOf(sh') == SetAt(TreeOf(sh), path, Leaf(Str(val)))
  {
    var last := |path| - 1;
    assert path == path[..last] + [path[last]];
    var cur;
    cur, sh' := Descend(tree, path, sh, Leaf(Str(val)));
    sh' := Assign(tree, cur, path[..last], path[last], Atom(Str(val)), AtLeaf(Str(val)), sh');
  }

  lemma LeadsToItself(n: MapNode, sh: Shape)
    requires Rep(Obj(n), sh)
    ensures LeadsTo(sh, [], n) && n in Foot(sh)
  {
  }

  /** The loop: it ends at the map that holds the last key, and what it made on the way
      does not show in the end. */
  method Descend(tree: MapNode, path: Path, ghost sh: Shape, ghost v: Tree) returns (cur: MapNode, ghost sh': Shape)
    requires Rep(Obj(tree), sh) && path != []
    modifies Foot(sh)
    ensures Rep(Obj(tree), sh') && fresh(Foot(sh') - Foot(sh))
    ensures LeadsTo(sh', path[..|path| - 1], cur) && cur in Foot(sh')
    ensures SetAt(TreeOf(sh'), path, v) == SetAt(TreeOf(sh), path, v)
  {
    hide ShapeAt, LeadsTo, SetAt, TreeOf, Rep;
    cur, sh' := tree, sh;
    LeadsToItself(tree, sh);
    assert path[..0] == [];
    for i := 0 to |path| - 1
      invariant Rep(Obj(tree), sh') && fresh(Foot(sh') - Foot(sh))
      invariant LeadsTo(sh', path[..i], cur) && cur in Foot(sh')
      invariant SetAt(TreeOf(sh'), path, v) == SetAt(TreeOf(sh), path, v)
    {
      assert path[..i + 1] == path[..i] + [path[i]];
      cur, sh' := StepInto(tree, cur, path[..i], path[i], sh', path, v);
    }
  }

  /** cur[k] = v, where cur is the map that path leads to. */
  method Assign(tree: MapNode, cur: MapNode, ghost path: Path, k: string, x: Value, ghost xsh: Shape, ghost sh: Shape)
    returns (ghost sh': Shape)
    requires Rep(Obj(tree), sh) && LeadsTo(sh, path, cur)
    requires Rep(x, xsh) && Foot(xsh) !! Foot(sh)
    modifies cur
    ensures sh' == PutIn(sh, path, k, xsh) && Rep(Obj(tree), sh') && Foot(sh') == Foot(sh) + Foot(xsh)
    ensures TreeOf(sh') == SetAt(TreeOf(sh), path + [k], TreeOf(xsh))
  {
    TakeOut(Obj(tree), sh, path, cur);
    Exchange(Obj(tree), sh, path, cur, cur.entries, k, x, xsh);
    cur.entries := cur.entries[k := x];
    PutBack(Obj(tree), PutIn(sh, path, k, xsh), path, cur);
    PutInTree(sh, path, k, xsh);
    PutInFoot(sh, path, k, xsh);
    sh' := PutIn(sh, path, k, xsh);
  }

  /** One step of the cursor. */
  method StepInto(tree: MapNode, cur: MapNode, ghost path: Path, k: string, ghost sh: Shape, ghost full: Path,
                  ghost v: Tree)
    returns (child: MapNode, ghost sh': Shape)
    requires Rep(Obj(tree), sh) && LeadsTo(sh, path, cur) && path + [k] < full
    modifies Foot(sh)
    ensures Rep(Obj(tree), sh') && fresh(Foot(sh') - Foot(sh))
    ensures LeadsTo(sh', path + [k], child) && child in Foot(sh')
    ensures SetAt(TreeOf(sh'), full, v) == SetAt(TreeOf(sh), full, v)
  {
    MapInside(Obj(tree), sh, path, cur);
    LeadsOn(sh, path, k);
    if k in cur.entries && cur.entries[k].Obj? {
      child, sh' := cur.entries[k].node, sh;
      MapInside(Obj(tree), sh, path + [k], child);
    } else {
      child, sh' := MakeChild(tree, cur, path, k, sh);
      TreeAt(sh, path + [k]);
      MakeMapFirst(TreeOf(sh), path + [k], full, v);
    }
  }

  /** child = map[string]any{}; cur[k] = child */
  method MakeChild(tree: MapNode, cur: MapNode, ghost path: Path, k: string, ghost sh: Shape)
    returns (child: MapNode, ghost sh': Shape)
    requires Rep(Obj(tree), sh) && LeadsTo(sh, path, cur)
    modifies cur
    ensures Rep(Obj(tree), sh') && fresh(Foot(sh') - Foot(sh))
    ensures LeadsTo(sh', path + [k], child) && child in Foot(sh')
    ensures TreeOf(sh') == SetAt(TreeOf(sh), path + [k], EMPTY)
  {
    child := new MapNode();
    ghost var empty := AtMap(child, map[], {child});
    sh' := Assign(tree, cur, path, k, Obj(child), empty, sh);
    PutInLeads(sh, path, k, empty);
    assert TreeOf(empty) == EMPTY;
  }

  /** What the cursor's next key says of a path that goes on with rest. */
  lemma Onward(m: MapNode, cur: MapNode, sh: Shape, path: Path, k: string, rest: Path)
    requires Rep(Obj(m), sh) && LeadsTo(sh, path, cur)
    ensures k !in cur.entries ==> At(TreeOf(sh), path + [k] + rest).None?
    ensures k in cur.entries && rest == [] ==> At(TreeOf(sh), path + [k] + rest).Some?
    ensures k in cur.entries && rest != [] && !cur.entries[k].Obj? ==> At(TreeOf(sh), path + [k] + rest).None?
    ensures k in cur.entries && cur.entries[k].Obj? ==> LeadsTo(sh, path + [k], cur.entries[k].node)
  {
    MapInside(Obj(m), sh, path, cur);
    LeadsOn(sh, path, k);
    TreeAt(sh, path + [k]);
    AtConcat(TreeOf(sh), path + [k], rest);
  }

  /** Whether there is anything at path. */
  method HasLeaf(m: MapNode, path: Path, ghost sh: Shape) returns (has: bool)
    requires Rep(Obj(m), sh)
    ensures has <==> path != [] && At(TreeOf(sh), path).Some?
  {
    hide ShapeAt, TreeOf, Rep, LeadsTo, At;
    var cur := m;
    LeadsToItself(m, sh);
    assert path[..0] == [];
    for i := 0 to |path|
      invariant LeadsTo(sh, path[..i], cur)
      invariant i < |path| || path == []
    {
      assert path[..i + 1] == path[..i] + [path[i]];
      assert path == path[..i + 1] + path[i + 1..];
      Onward(m, cur, sh, path[..i], path[i], path[i + 1..]);
      if path[i] !in cur.entries {
        return false;
      }
      if i == |path| - 1 {
        return true;
      }
      if !cur.entries[path[i]].Obj? {
        return false;
      }
      cur := cur.entries[path[i]].node;
    }
    return false;
  }
}
