// The same values as the program has them: maps and lists on the heap, shared and updated
// in place. A shape says which objects make up a value and what tree it is.
module Document {
  import opened Trees

  datatype Value = Atom(s: Scalar) | Obj(node: MapNode) | Arr(list: ListNode)

  /** A map[string]any. */
  class MapNode {
    var entries: map<string, Value>

    constructor ()
      ensures entries == map[]
    {
      entries := map[];
    }
  }

  /** A []any. */
  class ListNode {
    var items: seq<Value>

    constructor ()
      ensures items == []
    {
      items := [];
    }
  }

  /** The objects of a value; foot holds all of them. */
  datatype Shape =
    | AtLeaf(s: Scalar)
    | AtMap(node: MapNode, kids: map<string, Shape>, foot: set<object>)
    | AtList(list: ListNode, items: seq<Shape>, foot: set<object>)

  ghost function Foot(sh: Shape): set<object> {
    if sh.AtLeaf? then {} else sh.foot
  }

  /** v is made of the objects of sh, each in one place only. */
  ghost predicate Rep(v: Value, sh: Shape)
    reads Foot(sh)
    decreases sh
  {
    match sh
    case AtLeaf(s) => v == Atom(s)
    case AtMap(n, kids, foot) =>
      && v == Obj(n) && n in foot && n.entries.Keys == kids.Keys
      && (forall k :: k in kids ==> Foot(kids[k]) <= foot - {n} && Rep(n.entries[k], kids[k]))
      && (forall j, k :: j in kids && k in kids && j != k ==> Foot(kids[j]) !! Foot(kids[k]))
    case AtList(n, items, foot) =>
      && v == Arr(n) && n in foot && |n.items| == |items|
      && (forall i :: 0 <= i < |items| ==> Foot(items[i]) <= foot - {n} && Rep(n.items[i], items[i]))
      && (forall i, j :: 0 <= i < j < |items| ==> Foot(items[i]) !! Foot(items[j]))
  }

  /** The value as a tree. */
  ghost function TreeOf(sh: Shape): Tree {
    match sh
    case AtLeaf(s) => Leaf(s)
    case AtMap(_, kids, _) => Map(map k | k in kids :: TreeOf(kids[k]))
    case AtList(_, items, _) => List(seq(|items|, i requires 0 <= i < |items| => TreeOf(items[i])))
  }

  ghost function KidFoot(kids: map<string, Shape>, k: string): set<object> {
    if k in kids then Foot(kids[k]) else {}
  }

  /** The map n and all its kids but k. */
  ghost predicate RepBut(n: MapNode, kids: map<string, Shape>, foot: set<object>, k: string)
    reads foot - KidFoot(kids, k)
  {
    && n in foot && n !in KidFoot(kids, k)
    && (forall j :: j != k ==> (j in n.entries <==> j in kids))
    && (forall j :: j in kids && j != k ==>
          Foot(kids[j]) <= foot - {n} && Foot(kids[j]) !! KidFoot(kids, k) && Rep(n.entries[j], kids[j]))
    && (forall i, j :: i in kids && j in kids && i != j && i != k && j != k ==> Foot(kids[i]) !! Foot(kids[j]))
  }

  lemma RepWithout(n: MapNode, kids: map<string, Shape>, foot: set<object>, k: string)
    requires Rep(Obj(n), AtMap(n, kids, foot))
    ensures RepBut(n, kids, foot, k)
  {
  }

  /** The kid k, as it is now, and the rest of the map are apart. */
  ghost predicate Fits(n: MapNode, kids: map<string, Shape>, k: string, ksh: Shape) {
    n !in Foot(ksh) && forall j :: j in kids && j != k ==> Foot(kids[j]) !! Foot(ksh)
  }

  lemma KidOf(n: MapNode, sh: Shape, k: string)
    requires Rep(Obj(n), sh)
    ensures sh.AtMap? && sh.node == n && n in sh.foot && (k in n.entries <==> k in sh.kids)
    ensures k in sh.kids ==>
              && Rep(n.entries[k], sh.kids[k]) && Foot(sh.kids[k]) <= sh.foot - {n}
              && (n.entries[k].Obj? <==> sh.kids[k].AtMap?)
  {
  }

  /** What the kid has gained is not the map's. */
  lemma StillFits(n: MapNode, kids: map<string, Shape>, foot: set<object>, k: string, ksh: Shape)
    requires RepBut(n, kids, foot, k) && (Foot(ksh) - KidFoot(kids, k)) !! foot
    ensures Fits(n, kids, k, ksh)
  {
    hide Rep;
  }

  /** The rest of the map and the kid in its place make the map again. */
  lemma Rejoin(n: MapNode, kids: map<string, Shape>, foot: set<object>, k: string, ksh: Shape)
    requires RepBut(n, kids, foot, k) && k in n.entries
    requires Rep(n.entries[k], ksh) && Fits(n, kids, k, ksh)
    ensures Rep(Obj(n), AtMap(n, kids[k := ksh], foot + Foot(ksh)))
  {
    assert n.entries.Keys == kids[k := ksh].Keys;
  }

  /** n[k] = v */
  method Put(n: MapNode, k: string, v: Value, ghost kids: map<string, Shape>, ghost foot: set<object>, ghost ksh: Shape)
    requires RepBut(n, kids, foot, k)
    requires Rep(v, ksh) && Fits(n, kids, k, ksh)
    modifies n
    ensures n.entries == old(n.entries)[k := v]
    ensures Rep(Obj(n), AtMap(n, kids[k := ksh], foot + Foot(ksh)))
  {
    n.entries := n.entries[k := v];
    Rejoin(n, kids, foot, k, ksh);
  }

  /** delete(n, k) */
  method Delete(n: MapNode, k: string, ghost kids: map<string, Shape>, ghost foot: set<object>)
    requires RepBut(n, kids, foot, k)
    modifies n
    ensures n.entries == old(n.entries) - {k}
    ensures Rep(Obj(n), AtMap(n, kids - {k}, foot))
  {
    n.entries := n.entries - {k};
    assert n.entries.Keys == (kids - {k}).Keys;
  }

  lemma SameTrees(a: map<string, Shape>, b: map<string, Shape>, n: MapNode, f: set<object>, m: MapNode, g: set<object>)
    requires a.Keys == b.Keys
    requires forall k :: k in a ==> TreeOf(a[k]) == TreeOf(b[k])
    ensures TreeOf(AtMap(n, a, f)) == TreeOf(AtMap(m, b, g))
  {
  }

  ghost function ItemFoot(items: seq<Shape>, i: nat): set<object> {
    if i < |items| then Foot(items[i]) else {}
  }

  /** The list n and all its items but number i. */
  ghost predicate RepButAt(n: ListNode, items: seq<Shape>, foot: set<object>, i: nat)
    reads foot - ItemFoot(items, i)
  {
    && n in foot && n !in ItemFoot(items, i) && |n.items| == |items| && i < |items|
    && (forall j :: 0 <= j < |items| && j != i ==>
          Foot(items[j]) <= foot - {n} && Foot(items[j]) !! ItemFoot(items, i) && Rep(n.items[j], items[j]))
    && (forall j, k :: 0 <= j < k < |items| && j != i && k != i ==> Foot(items[j]) !! Foot(items[k]))
  }

  lemma RepWithoutItem(n: ListNode, items: seq<Shape>, foot: set<object>, i: nat)
    requires Rep(Arr(n), AtList(n, items, foot)) && i < |items|
    ensures RepButAt(n, items, foot, i)
  {
  }

  ghost predicate FitsAt(n: ListNode, items: seq<Shape>, i: nat, ish: Shape) {
    n !in Foot(ish) && forall j :: 0 <= j < |items| && j != i ==> Foot(items[j]) !! Foot(ish)
  }

  lemma RejoinItem(n: ListNode, items: seq<Shape>, foot: set<object>, i: nat, ish: Shape)
    requires RepButAt(n, items, foot, i)
    requires Rep(n.items[i], ish) && FitsAt(n, items, i, ish)
    ensures Rep(Arr(n), AtList(n, items[i := ish], foot + Foot(ish)))
  {
  }

  /** n[i] = v */
  method PutItem(n: ListNode, i: nat, v: Value, ghost items: seq<Shape>, ghost foot: set<object>, ghost ish: Shape)
    requires RepButAt(n, items, foot, i)
    requires Rep(v, ish) && FitsAt(n, items, i, ish)
    modifies n
    ensures n.items == old(n.items)[i := v]
    ensures Rep(Arr(n), AtList(n, items[i := ish], foot + Foot(ish)))
  {
    n.items := n.items[i := v];
    RejoinItem(n, items, foot, i, ish);
  }

  // ---- a loop over the keys of a map, or the items of a list, that rewrites each ----

  /** The kids of sh, each outside todo rewritten by f. */
  ghost predicate Mapped(sh: Shape, kids: map<string, Shape>, todo: set<string>, f: (string, Tree) -> Tree)
    requires sh.AtMap?
  {
    && kids.Keys == sh.kids.Keys
    && forall k :: k in kids ==> if k in todo then kids[k] == sh.kids[k]
          else TreeOf(kids[k]) == f(k, TreeOf(sh.kids[k]))
  }

  lemma MappedStep(sh: Shape, kids: map<string, Shape>, todo: set<string>, f: (string, Tree) -> Tree, k: string,
                   ksh: Shape)
    requires sh.AtMap? && k in sh.kids && k in todo && Mapped(sh, kids, todo, f)
    requires TreeOf(ksh) == f(k, TreeOf(sh.kids[k]))
    ensures Mapped(sh, kids[k := ksh], todo - {k}, f)
  {
  }

  lemma MappedAll(sh: Shape, kids: map<string, Shape>, f: (string, Tree) -> Tree, n: MapNode, foot: set<object>)
    requires sh.AtMap? && Mapped(sh, kids, {}, f)
    ensures var t := TreeOf(sh); TreeOf(AtMap(n, kids, foot)) == Map(map k | k in t.kids :: f(k, t.kids[k]))
  {
  }

  /** A tree with the same rewritten kids is the one that the loop has made. */
  lemma MappedIs(sh: Shape, kids: map<string, Shape>, f: (string, Tree) -> Tree, n: MapNode, foot: set<object>, u: Tree)
    requires sh.AtMap? && Mapped(sh, kids, {}, f)
    requires u.Map? && u.kids.Keys == sh.kids.Keys
    requires forall k :: k in sh.kids ==> u.kids[k] == f(k, TreeOf(sh.kids[k]))
    ensures TreeOf(AtMap(n, kids, foot)) == u
  {
    assert TreeOf(AtMap(n, kids, foot)).kids == u.kids;
  }

  lemma KidsOfMap(n: MapNode, sh: Shape, f: (string, Tree) -> Tree)
    requires Rep(Obj(n), sh)
    ensures sh.AtMap? && sh.node == n && n.entries.Keys == sh.kids.Keys
    ensures Mapped(sh, sh.kids, sh.kids.Keys, f)
  {
  }

  /** The items of sh, the first n rewritten by f. */
  ghost predicate MappedTo(sh: Shape, items: seq<Shape>, n: nat, f: Tree -> Tree)
    requires sh.AtList?
  {
    && |items| == |sh.items| && n <= |items|
    && (forall i :: 0 <= i < n ==> TreeOf(items[i]) == f(TreeOf(sh.items[i])))
    && (forall i :: n <= i < |items| ==> items[i] == sh.items[i])
  }

  lemma MappedToIs(sh: Shape, items: seq<Shape>, f: Tree -> Tree, n: ListNode, foot: set<object>, u: Tree)
    requires sh.AtList? && MappedTo(sh, items, |items|, f)
    requires u.List? && |u.items| == |sh.items|
    requires forall i :: 0 <= i < |sh.items| ==> u.items[i] == f(TreeOf(sh.items[i]))
    ensures TreeOf(AtList(n, items, foot)) == u
  {
    assert TreeOf(AtList(n, items, foot)).items == u.items;
  }

  lemma ItemsOfList(n: ListNode, sh: Shape, f: Tree -> Tree)
    requires Rep(Arr(n), sh)
    ensures sh.AtList? && sh.list == n && |n.items| == |sh.items|
    ensures MappedTo(sh, sh.items, 0, f)
  {
  }

  // ---- deepCopy ----

  /** A copy that shares no object with anything. */
  method DeepCopy(v: Value, ghost sh: Shape) returns (c: Value, ghost sh': Shape)
    requires Rep(v, sh)
    ensures Rep(c, sh') && TreeOf(sh') == TreeOf(sh)
    ensures fresh(Foot(sh'))
    ensures v.Obj? ==> c.Obj?
    decreases sh, 2
  {
    match v {
      case Atom(s) => c, sh' := v, sh;
      case Obj(node) => c, sh' := CopyMap(node, sh);
      case Arr(list) => c, sh' := CopyList(list, sh);
    }
  }

  method CopyMap(node: MapNode, ghost sh: Shape) returns (c: Value, ghost sh': Shape)
    requires Rep(Obj(node), sh)
    ensures Rep(c, sh') && TreeOf(sh') == TreeOf(sh)
    ensures fresh(Foot(sh')) && c.Obj?
    decreases sh, 1
  {
    var m := new MapNode();
    sh' := AtMap(m, map[], {m});
    var todo := node.entries.Keys;
    while todo != {}
      invariant todo <= sh.kids.Keys && sh'.AtMap? && fresh(Foot(sh'))
      invariant Rep(Obj(m), sh') && Rep(Obj(node), sh)
      invariant CopiedSoFar(sh, sh'.kids, todo)
      decreases todo
    {
      var k :| k in todo;
      ghost var ksh := CopyKid(node, k, sh, m, sh'.kids, sh'.foot);
      CopiedStep(sh, sh'.kids, todo, k, ksh);
      sh' := AtMap(m, sh'.kids[k := ksh], sh'.foot + Foot(ksh));
      todo := todo - {k};
    }
    SameTrees(sh.kids, sh'.kids, node, sh.foot, m, sh'.foot);
    c := Obj(m);
  }

  ghost predicate CopiedSoFar(sh: Shape, kids: map<string, Shape>, todo: set<string>)
    requires sh.AtMap?
  {
    kids.Keys == sh.kids.Keys - todo && forall k :: k in kids ==> TreeOf(kids[k]) == TreeOf(sh.kids[k])
  }

  lemma CopiedStep(sh: Shape, kids: map<string, Shape>, todo: set<string>, k: string, ksh: Shape)
    requires sh.AtMap? && k in todo && todo <= sh.kids.Keys && CopiedSoFar(sh, kids, todo)
    requires TreeOf(ksh) == TreeOf(sh.kids[k])
    ensures CopiedSoFar(sh, kids[k := ksh], todo - {k})
  {
  }

  /** m[k] = deepCopy(node[k]) */
  method CopyKid(node: MapNode, k: string, ghost sh: Shape, m: MapNode, ghost kids: map<string, Shape>,
                 ghost foot: set<object>)
    returns (ghost ksh: Shape)
    requires Rep(Obj(node), sh) && k in sh.kids
    requires Rep(Obj(m), AtMap(m, kids, foot)) && foot !! Foot(sh)
    modifies m
    ensures Rep(Obj(m), AtMap(m, kids[k := ksh], foot + Foot(ksh))) && Rep(Obj(node), sh)
    ensures fresh(Foot(ksh)) && TreeOf(ksh) == TreeOf(sh.kids[k])
    decreases sh, 0
  {
    var c: Value;
    c, ksh := DeepCopy(node.entries[k], sh.kids[k]);
    RepWithout(m, kids, foot, k);
    Put(m, k, c, kids, foot, ksh);
  }

  method CopyList(list: ListNode, ghost sh: Shape) returns (c: Value, ghost sh': Shape)
    requires Rep(Arr(list), sh)
    ensures Rep(c, sh') && TreeOf(sh') == TreeOf(sh)
    ensures fresh(Foot(sh'))
    decreases sh, 1
  {
    var s := new ListNode();
    sh' := AtList(s, [], {s});
    for i := 0 to |list.items|
      invariant sh'.AtList? && fresh(Foot(sh')) && |sh'.items| == i
      invariant Rep(Arr(s), sh') && Rep(Arr(list), sh)
      invariant forall j :: 0 <= j < i ==> TreeOf(sh'.items[j]) == TreeOf(sh.items[j])
    {
      ghost var ish := CopyItem(list, i, sh, s, sh'.items, sh'.foot);
      sh' := AtList(s, sh'.items + [ish], sh'.foot + Foot(ish));
    }
    c := Arr(s);
    assert TreeOf(sh').items == TreeOf(sh).items;
  }

  /** s[i] = deepCopy(list[i]) */
  method CopyItem(list: ListNode, i: nat, ghost sh: Shape, s: ListNode, ghost items: seq<Shape>,
                  ghost foot: set<object>)
    returns (ghost ish: Shape)
    requires Rep(Arr(list), sh) && i < |list.items|
    requires Rep(Arr(s), AtList(s, items, foot)) && foot !! Foot(sh)
    modifies s
    ensures Rep(Arr(s), AtList(s, items + [ish], foot + Foot(ish))) && Rep(Arr(list), sh)
    ensures fresh(Foot(ish)) && TreeOf(ish) == TreeOf(sh.items[i])
    decreases sh, 0
  {
    var item: Value;
    item, ish := DeepCopy(list.items[i], sh.items[i]);
    s.items := s.items + [item];
  }
}
