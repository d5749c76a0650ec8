// internal/render/merge.go:60-100: the template pass over every string of a model. What a
// template evaluates to, or that it fails, is a parameter.
module Templates {
  import opened Wrappers
  import opened Text
  import opened Trees
  import opened Document

  type Template = string -> Option<string>

  /** A string without an action is not a template. */
  function Evaluated(s: string, f: Template): Option<string> {
    if exists i | 0 <= i <= |s| :: "{{" <= s[i..] then f(s) else Some(s)
  }

  /** One of the strings cannot be evaluated. */
  predicate Fails(t: Tree, f: Template) {
    match t
    case Leaf(Str(s)) => Evaluated(s, f).None?
    case Leaf(_) => false
    case Map(kids) => exists k | k in kids :: Fails(kids[k], f)
    case List(items) => exists i | 0 <= i < |items| :: Fails(items[i], f)
  }

  function Expanded(t: Tree, f: Template): Tree {
    match t
    case Leaf(Str(s)) => Leaf(Str(if Evaluated(s, f).Some? then Evaluated(s, f).value else s))
    case Leaf(_) => t
    case Map(kids) => Map(map k | k in kids :: Expanded(kids[k], f))
    case List(items) => List(seq(|items|, i requires 0 <= i < |items| => Expanded(items[i], f)))
  }

  /** Evaluation keeps the tree's form: a text at a path becomes what it evaluates to. */
  lemma {:induction false} ExpandedAt(t: Tree, f: Template, path: Path)
    ensures At(Expanded(t, f), path) == match At(t, path) { case None => None case Some(u) => Some(Expanded(u, f)) }
    decreases |path|
  {
    if path != [] && t.Map? && path[0] in t.kids {
      ExpandedAt(t.kids[path[0]], f, path[1..]);
    }
  }

  // ---- in place ----

  method ExpandTemplates(v: Value, f: Template, ghost sh: Shape) returns (r: Option<Value>, ghost sh': Shape)
    requires Rep(v, sh)
    modifies Foot(sh)
    ensures r.None? <==> Fails(TreeOf(sh), f)
    ensures r.Some? ==> Rep(r.value, sh') && Foot(sh') <= Foot(sh) && TreeOf(sh') == Expanded(TreeOf(sh), f)
    ensures r.Some? && !v.Atom? ==> r.value == v
    decreases sh, 3
  {
    sh' := sh;
    match v {
      case Atom(Str(s)) =>
        var e := Evaluated(s, f);
        r := None;
        if e.Some? {
          r, sh' := Some(Atom(Str(e.value))), AtLeaf(Str(e.value));
        }
      case Atom(_) => r := Some(v);
      case Obj(node) =>
        var ok;
        ok, sh' := ExpandMap(node, f, sh);
        r := if ok then Some(v) else None;
      case Arr(list) =>
        var ok;
        ok, sh' := ExpandList(list, f, sh);
        r := if ok then Some(v) else None;
    }
  }

  ghost function KidsOf(f: Template): (string, Tree) -> Tree { (k, t) => Expanded(t, f) }

  ghost function ItemsOf(f: Template): Tree -> Tree { t => Expanded(t, f) }

  ghost predicate NoneFails(sh: Shape, todo: set<string>, f: Template)
    requires sh.AtMap?
  {
    forall k :: k in sh.kids && k !in todo ==> !Fails(TreeOf(sh.kids[k]), f)
  }

  lemma OneFails(sh: Shape, k: string, f: Template)
    requires sh.AtMap? && k in sh.kids && Fails(TreeOf(sh.kids[k]), f)
    ensures Fails(TreeOf(sh), f)
  {
    var kids := TreeOf(sh).kids;
    assert k in kids && Fails(kids[k], f);
  }

  lemma ExpandedStep(sh: Shape, kids: map<string, Shape>, todo: set<string>, f: Template, k: string, ksh: Shape)
    requires sh.AtMap? && k in sh.kids && k in todo && Mapped(sh, kids, todo, KidsOf(f)) && NoneFails(sh, todo, f)
    requires TreeOf(ksh) == Expanded(TreeOf(sh.kids[k]), f) && !Fails(TreeOf(sh.kids[k]), f)
    ensures Mapped(sh, kids[k := ksh], todo - {k}, KidsOf(f)) && NoneFails(sh, todo - {k}, f)
  {
    MappedStep(sh, kids, todo, KidsOf(f), k, ksh);
  }

  lemma ExpandedMap(sh: Shape, kids: map<string, Shape>, f: Template, n: MapNode, foot: set<object>)
    requires sh.AtMap? && Mapped(sh, kids, {}, KidsOf(f)) && NoneFails(sh, {}, f)
    ensures TreeOf(AtMap(n, kids, foot)) == Expanded(TreeOf(sh), f) && !Fails(TreeOf(sh), f)
  {
    MappedIs(sh, kids, KidsOf(f), n, foot, Expanded(TreeOf(sh), f));
  }

  method ExpandMap(node: MapNode, f: Template, ghost sh: Shape) returns (ok: bool, ghost sh': Shape)
    requires Rep(Obj(node), sh)
    modifies Foot(sh)
    ensures ok <==> !Fails(TreeOf(sh), f)
    ensures ok ==> Rep(Obj(node), sh') && Foot(sh') <= Foot(sh) && TreeOf(sh') == Expanded(TreeOf(sh), f)
    decreases sh, 2
  {
    sh' := sh;
    var todo := node.entries.Keys;
    while todo != {}
      invariant todo <= sh.kids.Keys && sh'.AtMap?
      invariant Rep(Obj(node), sh') && Foot(sh') <= Foot(sh)
      invariant Mapped(sh, sh'.kids, todo, KidsOf(f)) && NoneFails(sh, todo, f)
      decreases todo
    {
      var k :| k in todo;
      ghost var kids := sh'.kids;
      ghost var ksh;
      ok, ksh, sh' := ExpandKid(node, k, f, sh', sh);
      if !ok {
        OneFails(sh, k, f);
        return;
      }
      ExpandedStep(sh, kids, todo, f, k, ksh);
      todo := todo - {k};
    }
    ExpandedMap(sh, sh'.kids, f, node, sh'.foot);
    ok := true;
  }

  method ExpandKid(node: MapNode, k: string, f: Template, ghost now: Shape, ghost sh: Shape)
    returns (ok: bool, ghost ksh: Shape, ghost sh': Shape)
    requires Rep(Obj(node), now) && k in now.kids && now.kids[k] < sh
    modifies Foot(now)
    ensures ok <==> !Fails(TreeOf(now.kids[k]), f)
    ensures ok ==> sh' == AtMap(node, now.kids[k := ksh], now.foot + Foot(ksh)) && Rep(Obj(node), sh')
    ensures ok ==> Foot(sh') <= Foot(now) && TreeOf(ksh) == Expanded(TreeOf(now.kids[k]), f)
    decreases sh, 1
  {
    RepWithout(node, now.kids, now.foot, k);
    var nv: Option<Value>;
    nv, ksh := ExpandTemplates(node.entries[k], f, now.kids[k]);
    sh' := now;
    ok := nv.Some?;
    if ok {
      Put(node, k, nv.value, now.kids, now.foot, ksh);
      sh' := AtMap(node, now.kids[k := ksh], now.foot + Foot(ksh));
    }
  }

  ghost predicate NoItemFails(sh: Shape, n: nat, f: Template)
    requires sh.AtList? && n <= |sh.items|
  {
    forall i :: 0 <= i < n ==> !Fails(TreeOf(sh.items[i]), f)
  }

  lemma OneItemFails(sh: Shape, i: nat, f: Template)
    requires sh.AtList? && i < |sh.items| && Fails(TreeOf(sh.items[i]), f)
    ensures Fails(TreeOf(sh), f)
  {
    var items := TreeOf(sh).items;
    assert i < |items| && Fails(items[i], f);
  }

  lemma ExpandedList(sh: Shape, items: seq<Shape>, f: Template, n: ListNode, foot: set<object>)
    requires sh.AtList? && MappedTo(sh, items, |items|, ItemsOf(f)) && NoItemFails(sh, |sh.items|, f)
    ensures TreeOf(AtList(n, items, foot)) == Expanded(TreeOf(sh), f) && !Fails(TreeOf(sh), f)
  {
    MappedToIs(sh, items, ItemsOf(f), n, foot, Expanded(TreeOf(sh), f));
  }

  method ExpandList(list: ListNode, f: Template, ghost sh: Shape) returns (ok: bool, ghost sh': Shape)
    requires Rep(Arr(list), sh)
    modifies Foot(sh)
    ensures ok <==> !Fails(TreeOf(sh), f)
    ensures ok ==> Rep(Arr(list), sh') && Foot(sh') <= Foot(sh) && TreeOf(sh') == Expanded(TreeOf(sh), f)
    decreases sh, 2
  {
    sh' := sh;
    var i := 0;
    while i < |list.items|
      invariant sh'.AtList? && i <= |sh.items|
      invariant Rep(Arr(list), sh') && Foot(sh') <= Foot(sh)
      invariant MappedTo(sh, sh'.items, i, ItemsOf(f)) && NoItemFails(sh, i, f)
      decreases |sh.items| - i
    {
      ghost var ish;
      ok, ish, sh' := ExpandItem(list, i, f, sh', sh);
      if !ok {
        OneItemFails(sh, i, f);
        return;
      }
      i := i + 1;
    }
    ExpandedList(sh, sh'.items, f, list, sh'.foot);
    ok := true;
  }

  method ExpandItem(list: ListNode, i: nat, f: Template, ghost now: Shape, ghost sh: Shape)
    returns (ok: bool, ghost ish: Shape, ghost sh': Shape)
    requires Rep(Arr(list), now) && i < |now.items| && now.items[i] < sh
    modifies Foot(now)
    ensures ok <==> !Fails(TreeOf(now.items[i]), f)
    ensures ok ==> sh' == AtList(list, now.items[i := ish], now.foot + Foot(ish)) && Rep(Arr(list), sh')
    ensures ok ==> Foot(sh') <= Foot(now) && TreeOf(ish) == Expanded(TreeOf(now.items[i]), f)
    decreases sh, 1
  {
    RepWithoutItem(list, now.items, now.foot, i);
    var nv: Option<Value>;
    nv, ish := ExpandTemplates(list.items[i], f, now.items[i]);
    sh' := now;
    ok := nv.Some?;
    if ok {
      PutItem(list, i, nv.value, now.items, now.foot, ish);
      sh' := AtList(list, now.items[i := ish], now.foot + Foot(ish));
    }
  }
}
