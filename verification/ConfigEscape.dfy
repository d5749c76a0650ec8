// internal/render/escape.go, the part that walks a config document: every string in its maps
// and lists is escaped in place, nothing else is touched.
module ConfigEscape {
  import opened Wrappers
  import opened Trees
  import opened Document
  import opened Escape
  import opened Expansion
  import Coerce
  import Text

  function EscapedTree(t: Tree): Tree {
    match t
    case Leaf(Str(s)) => Leaf(Str(Escaped(s)))
    case Leaf(_) => t
    case Map(kids) => Map(map k | k in kids :: EscapedTree(kids[k]))
    case List(items) => List(seq(|items|, i requires 0 <= i < |items| => EscapedTree(items[i])))
  }

  /** A way down through maps and lists. */
  datatype Step = Key(k: string) | Index(i: nat)

  function Child(t: Tree, s: Step): Option<Tree> {
    if t.Map? && s.Key? && s.k in t.kids then Some(t.kids[s.k])
    else if t.List? && s.Index? && s.i < |t.items| then Some(t.items[s.i])
    else None
  }

  function Find(t: Tree, steps: seq<Step>): Option<Tree>
    decreases |steps|
  {
    if steps == [] then Some(t)
    else if Child(t, steps[0]).None? then None
    else Find(Child(t, steps[0]).value, steps[1..])
  }

  /** There is a string with a bare '$' here. */
  ghost predicate BareHere(t: Tree, steps: seq<Step>) {
    match Find(t, steps)
    case Some(Leaf(Str(s))) => Bare(s)
    case _ => false
  }

  predicate HasBare(t: Tree) {
    match t
    case Leaf(Str(s)) => Bare(s)
    case Leaf(_) => false
    case Map(kids) => exists k | k in kids :: HasBare(kids[k])
    case List(items) => exists i | 0 <= i < |items| :: HasBare(items[i])
  }

  lemma {:induction false} HasBareIsSomewhere(t: Tree)
    ensures HasBare(t) <==> exists steps: seq<Step> :: BareHere(t, steps)
  {
    match t {
      case Leaf(_) =>
        if HasBare(t) { assert BareHere(t, []); }
      case Map(kids) =>
        forall k | k in kids ensures HasBare(kids[k]) ==> exists steps: seq<Step> :: BareHere(t, steps) {
          HasBareIsSomewhere(kids[k]);
          if HasBare(kids[k]) {
            var steps :| BareHere(kids[k], steps);
            assert ([Key(k)] + steps)[1..] == steps;
            assert BareHere(t, [Key(k)] + steps);
          }
        }
        forall steps: seq<Step> | BareHere(t, steps) ensures HasBare(t) {
          HasBareIsSomewhere(kids[steps[0].k]);
          assert BareHere(kids[steps[0].k], steps[1..]);
        }
      case List(items) =>
        forall i | 0 <= i < |items| ensures HasBare(items[i]) ==> exists steps: seq<Step> :: BareHere(t, steps) {
          HasBareIsSomewhere(items[i]);
          if HasBare(items[i]) {
            var steps :| BareHere(items[i], steps);
            assert ([Index(i)] + steps)[1..] == steps;
            assert BareHere(t, [Index(i)] + steps);
          }
        }
        forall steps: seq<Step> | BareHere(t, steps) ensures HasBare(t) {
          HasBareIsSomewhere(items[steps[0].i]);
          assert BareHere(items[steps[0].i], steps[1..]);
        }
    }
  }

  /** Escaping keeps every position: its map keys, its list length, its kind of value; a
      string becomes its escaped text and any other scalar stays. */
  lemma {:induction false} EscapedFind(t: Tree, steps: seq<Step>)
    ensures Find(EscapedTree(t), steps) ==
            match Find(t, steps)
            case None => None
            case Some(u) => Some(EscapedTree(u))
    decreases |steps|
  {
    if steps != [] && Child(t, steps[0]).Some? {
      EscapedFind(Child(t, steps[0]).value, steps[1..]);
    }
  }

  /** No bare '$' is left, so a second pass finds nothing. */
  lemma NoBareLeft(t: Tree)
    ensures !HasBare(EscapedTree(t))
  {
    forall steps ensures !BareHere(EscapedTree(t), steps) {
      EscapedFind(t, steps);
      match Find(t, steps) {
        case Some(Leaf(Str(s))) => EscapedHasNoBare(s);
        case _ =>
      }
    }
    HasBareIsSomewhere(EscapedTree(t));
  }

  lemma {:induction false} ChangedIffBare(t: Tree)
    ensures EscapedTree(t) != t <==> HasBare(t)
  {
    match t {
      case Leaf(Str(s)) => BareIffChanged(s);
      case Leaf(_) =>
      case Map(kids) =>
        forall k | k in kids ensures EscapedTree(kids[k]) != kids[k] <==> HasBare(kids[k]) { ChangedIffBare(kids[k]); }
        if EscapedTree(t).kids == kids {
          assert forall k | k in kids :: EscapedTree(t).kids[k] == EscapedTree(kids[k]);
        } else {
          var k :| k in kids && EscapedTree(t).kids[k] != kids[k];
        }
      case List(items) =>
        var e := EscapedTree(t).items;
        forall i | 0 <= i < |items| ensures e[i] != items[i] <==> HasBare(items[i]) { ChangedIffBare(items[i]); }
        if e != items {
          var i :| 0 <= i < |items| && e[i] != items[i];
        }
    }
  }

  lemma EscapeConfigTwice(t: Tree)
    ensures EscapedTree(EscapedTree(t)) == EscapedTree(t)
  {
    NoBareLeft(t);
    ChangedIffBare(EscapedTree(t));
  }

  // ---- escapeValue and EscapeConfig ----

  method EscapeValue(v: Value, ghost sh: Shape) returns (r: Value, changed: bool, ghost sh': Shape)
    requires Rep(v, sh)
    modifies Foot(sh)
    ensures Rep(r, sh') && Foot(sh') <= Foot(sh)
    ensures TreeOf(sh') == EscapedTree(TreeOf(sh))
    ensures changed <==> HasBare(TreeOf(sh))
    ensures !v.Atom? || !changed ==> r == v
    decreases sh, 3
  {
    match v {
      case Atom(Str(s)) =>
        var e := EscapeBareDollars(s);
        BareIffChanged(s);
        r, changed, sh' := Atom(Str(e)), e != s, AtLeaf(Str(e));
      case Atom(_) =>
        r, changed, sh' := v, false, sh;
      case Obj(node) =>
        r := v;
        changed, sh' := EscapeMap(node, sh);
      case Arr(list) =>
        r := v;
        changed, sh' := EscapeList(list, sh);
    }
  }

  ghost const ESCAPE_KID := (k: string, t: Tree) => EscapedTree(t)
  ghost const ESCAPE_ITEM := (t: Tree) => EscapedTree(t)

  /** One of the kids outside todo has a bare '$'. */
  ghost predicate BareAmong(sh: Shape, todo: set<string>)
    requires sh.AtMap?
  {
    exists k :: k in sh.kids && k !in todo && HasBare(TreeOf(sh.kids[k]))
  }

  lemma BareAmongAll(sh: Shape)
    requires sh.AtMap?
    ensures BareAmong(sh, {}) <==> HasBare(TreeOf(sh))
  {
    var kids := TreeOf(sh).kids;
    forall k | k in sh.kids && HasBare(TreeOf(sh.kids[k])) ensures HasBare(TreeOf(sh)) {
      assert k in kids && HasBare(kids[k]);
    }
  }

  lemma BareAmongStep(sh: Shape, todo: set<string>, k: string)
    requires sh.AtMap? && k in sh.kids && k in todo
    ensures BareAmong(sh, todo - {k}) <==> BareAmong(sh, todo) || HasBare(TreeOf(sh.kids[k]))
  {
  }

  lemma EscapedMap(sh: Shape, kids: map<string, Shape>, n: MapNode, foot: set<object>)
    requires sh.AtMap? && Mapped(sh, kids, {}, ESCAPE_KID)
    ensures TreeOf(AtMap(n, kids, foot)) == EscapedTree(TreeOf(sh))
  {
    MappedIs(sh, kids, ESCAPE_KID, n, foot, EscapedTree(TreeOf(sh)));
  }

  method EscapeMap(node: MapNode, ghost sh: Shape) returns (changed: bool, ghost sh': Shape)
    requires Rep(Obj(node), sh)
    modifies Foot(sh)
    ensures Rep(Obj(node), sh') && Foot(sh') <= Foot(sh)
    ensures TreeOf(sh') == EscapedTree(TreeOf(sh))
    ensures changed <==> HasBare(TreeOf(sh))
    decreases sh, 2
  {
    hide Rep, TreeOf, EscapedTree, HasBare;
    changed, sh' := false, sh;
    KidsOfMap(node, sh, ESCAPE_KID);
    var todo := node.entries.Keys;
    while todo != {}
      invariant todo <= sh.kids.Keys && sh'.AtMap? && sh'.node == node
      invariant Rep(Obj(node), sh') && Foot(sh') <= Foot(sh)
      invariant Mapped(sh, sh'.kids, todo, ESCAPE_KID)
      invariant changed <==> BareAmong(sh, todo)
      decreases todo
    {
      var k :| k in todo;
      ghost var ksh;
      var c: bool;
      c, ksh := EscapeKid(node, k, sh', sh);
      MappedStep(sh, sh'.kids, todo, ESCAPE_KID, k, ksh);
      sh' := AtMap(node, sh'.kids[k := ksh], sh'.foot + Foot(ksh));
      BareAmongStep(sh, todo, k);
      changed := changed || c;
      todo := todo - {k};
    }
    EscapedMap(sh, sh'.kids, node, sh'.foot);
    BareAmongAll(sh);
  }

  method EscapeKid(node: MapNode, k: string, ghost now: Shape, ghost sh: Shape)
    returns (changed: bool, ghost ksh: Shape)
    requires Rep(Obj(node), now) && k in now.kids && now.kids[k] < sh
    modifies Foot(now)
    ensures Rep(Obj(node), AtMap(node, now.kids[k := ksh], now.foot + Foot(ksh))) && Foot(ksh) <= Foot(now)
    ensures TreeOf(ksh) == EscapedTree(TreeOf(now.kids[k]))
    ensures changed <==> HasBare(TreeOf(now.kids[k]))
    decreases sh, 1
  {
    RepWithout(node, now.kids, now.foot, k);
    var nv: Value;
    nv, changed, ksh := EscapeValue(node.entries[k], now.kids[k]);
    if changed {
      Put(node, k, nv, now.kids, now.foot, ksh);
    } else {
      Rejoin(node, now.kids, now.foot, k, ksh);
    }
  }

  /** One of the first n items has a bare '$'. */
  ghost predicate BareBefore(sh: Shape, n: nat)
    requires sh.AtList? && n <= |sh.items|
  {
    exists j :: 0 <= j < n && HasBare(TreeOf(sh.items[j]))
  }

  lemma BareBeforeStep(sh: Shape, n: nat)
    requires sh.AtList? && n < |sh.items|
    ensures BareBefore(sh, n + 1) <==> BareBefore(sh, n) || HasBare(TreeOf(sh.items[n]))
  {
  }

  lemma BareBeforeAll(sh: Shape)
    requires sh.AtList?
    ensures BareBefore(sh, |sh.items|) <==> HasBare(TreeOf(sh))
  {
    var items := TreeOf(sh).items;
    assert forall j | 0 <= j < |sh.items| :: items[j] == TreeOf(sh.items[j]);
  }

  lemma EscapedList(sh: Shape, items: seq<Shape>, n: ListNode, foot: set<object>)
    requires sh.AtList? && MappedTo(sh, items, |items|, ESCAPE_ITEM)
    ensures TreeOf(AtList(n, items, foot)) == EscapedTree(TreeOf(sh))
  {
    MappedToIs(sh, items, ESCAPE_ITEM, n, foot, EscapedTree(TreeOf(sh)));
  }

  method EscapeList(list: ListNode, ghost sh: Shape) returns (changed: bool, ghost sh': Shape)
    requires Rep(Arr(list), sh)
    modifies Foot(sh)
    ensures Rep(Arr(list), sh') && Foot(sh') <= Foot(sh)
    ensures TreeOf(sh') == EscapedTree(TreeOf(sh))
    ensures changed <==> HasBare(TreeOf(sh))
    decreases sh, 2
  {
    hide Rep, TreeOf, EscapedTree, HasBare;
    changed, sh' := false, sh;
    ItemsOfList(list, sh, ESCAPE_ITEM);
    var i := 0;
    while i < |list.items|
      invariant sh'.AtList? && sh'.list == list && i <= |sh.items| == |list.items|
      invariant Rep(Arr(list), sh') && Foot(sh') <= Foot(sh)
      invariant MappedTo(sh, sh'.items, i, ESCAPE_ITEM)
      invariant changed <==> BareBefore(sh, i)
      decreases |sh.items| - i
    {
      ghost var ish;
      var c: bool;
      c, ish := EscapeItem(list, i, sh', sh);
      BareBeforeStep(sh, i);
      sh' := AtList(list, sh'.items[i := ish], sh'.foot + Foot(ish));
      changed := changed || c;
      i := i + 1;
    }
    EscapedList(sh, sh'.items, list, sh'.foot);
    BareBeforeAll(sh);
  }

  method EscapeItem(list: ListNode, i: nat, ghost now: Shape, ghost sh: Shape) returns (changed: bool, ghost ish: Shape)
    requires Rep(Arr(list), now) && i < |now.items| && now.items[i] < sh
    modifies Foot(now)
    ensures Rep(Arr(list), AtList(list, now.items[i := ish], now.foot + Foot(ish))) && Foot(ish) <= Foot(now)
    ensures TreeOf(ish) == EscapedTree(TreeOf(now.items[i]))
    ensures changed <==> HasBare(TreeOf(now.items[i]))
    decreases sh, 1
  {
    RepWithoutItem(list, now.items, now.foot, i);
    var nv: Value;
    nv, changed, ish := EscapeValue(list.items[i], now.items[i]);
    if changed {
      PutItem(list, i, nv, now.items, now.foot, ish);
    } else {
      RejoinItem(list, now.items, now.foot, i, ish);
    }
  }

  /** Escapes a whole document; true exactly when there was something to escape. */
  method EscapeConfig(cfg: MapNode, ghost sh: Shape) returns (changed: bool, ghost sh': Shape)
    requires Rep(Obj(cfg), sh)
    modifies Foot(sh)
    ensures Rep(Obj(cfg), sh') && Foot(sh') <= Foot(sh) && TreeOf(sh') == EscapedTree(TreeOf(sh))
    ensures changed <==> exists steps: seq<Step> :: BareHere(TreeOf(sh), steps)
  {
    HasBareIsSomewhere(TreeOf(sh));
    var r;
    r, changed, sh' := EscapeValue(Obj(cfg), sh);
  }

  // ---- BareDollarPaths ----

  /** The text of a position: keys behind dots, indices in brackets. */
  function Dotted(steps: seq<Step>): string {
    if steps == [] then "" else var n := |steps| - 1; Under(Dotted(steps[..n]), steps[n])
  }

  function Under(prefix: string, s: Step): string {
    match s
    case Key(k) => if prefix != "" then prefix + "." + k else k
    case Index(i) => prefix + "[" + Coerce.Digits(i) + "]"
  }

  ghost function AllDotted(at: seq<seq<Step>>): seq<string> {
    seq(|at|, i requires 0 <= i < |at| => Dotted(at[i]))
  }

  ghost predicate Once(at: seq<seq<Step>>) {
    forall i, j :: 0 <= i < j < |at| ==> at[i] != at[j]
  }

  lemma DottedUnder(prefix: seq<Step>, s: Step)
    ensures Dotted(prefix + [s]) == Under(Dotted(prefix), s)
  {
    assert (prefix + [s])[..|prefix|] == prefix;
  }

  /** The positions below t, each behind prefix, that have a bare '$'. */
  ghost predicate ListsBare(out: seq<seq<Step>>, prefix: seq<Step>, t: Tree) {
    && (forall p :: p in out ==> prefix <= p && BareHere(t, p[|prefix|..]))
    && (forall steps :: BareHere(t, steps) ==> prefix + steps in out)
  }

  /** The sorted texts of the positions with a bare '$', one for each. Two positions may have one
      text. */
  method BareDollarPaths(cfg: MapNode, ghost sh: Shape) returns (out: seq<string>, ghost at: seq<seq<Step>>)
    requires Rep(Obj(cfg), sh)
    ensures Once(at) && forall steps :: steps in at <==> BareHere(TreeOf(sh), steps)
    ensures multiset(out) == multiset(AllDotted(at)) && Text.Sorted(out)
  {
    hide Rep, TreeOf, BareHere, Text.Sorted;
    out, at := CollectBareDollarPaths("", Obj(cfg), [], sh);
    forall steps: seq<Step> ensures steps in at <==> BareHere(TreeOf(sh), steps) {
      assert [] + steps == steps && steps[0..] == steps;
    }
    out := Text.Sort(out);
  }

  /** The same, for the positions that begin with one of the given steps. */
  ghost predicate ListsBelow(out: seq<seq<Step>>, prefix: seq<Step>, t: Tree, first: set<Step>) {
    && (forall p :: p in out ==> prefix < p && p[|prefix|] in first && BareHere(t, p[|prefix|..]))
    && (forall steps :: BareHere(t, steps) && steps != [] && steps[0] in first ==> prefix + steps in out)
  }

  lemma Apart(out: seq<seq<Step>>, below: seq<seq<Step>>, prefix: seq<Step>, first: set<Step>, s: Step)
    requires forall p :: p in out ==> prefix < p && p[|prefix|] in first
    requires forall p :: p in below ==> prefix + [s] <= p
    requires s !in first
    ensures Once(out) && Once(below) ==> Once(out + below)
  {
    forall p | p in below ensures p !in out {
      assert p[|prefix|] == (prefix + [s])[|prefix|] == s;
    }
    var all := out + below;
    if Once(out) && Once(below) {
      forall i, j | 0 <= i < j < |all| ensures all[i] != all[j] {
        if i < |out| <= j { assert all[i] in out && all[j] in below; }
      }
    }
  }

  lemma ListsOneMore(out: seq<seq<Step>>, below: seq<seq<Step>>, prefix: seq<Step>, t: Tree, first: set<Step>,
                     s: Step, kid: Tree)
    requires ListsBelow(out, prefix, t, first) && ListsBare(below, prefix + [s], kid)
    requires forall rest :: Find(t, [s] + rest) == Find(kid, rest)
    ensures ListsBelow(out + below, prefix, t, first + {s})
    ensures s !in first && Once(out) && Once(below) ==> Once(out + below)
  {
    if s !in first { Apart(out, below, prefix, first, s); }
    forall p | p in below ensures prefix < p && p[|prefix|] == s && BareHere(t, p[|prefix|..]) {
      assert p[|prefix|..] == [s] + p[|prefix + [s]|..];
    }
    forall steps: seq<Step> | BareHere(t, steps) && steps != [] && steps[0] == s ensures prefix + steps in below {
      assert steps == [s] + steps[1..] && BareHere(kid, steps[1..]);
      assert prefix + steps == prefix + [s] + steps[1..];
    }
  }

  lemma ListsAll(out: seq<seq<Step>>, prefix: seq<Step>, t: Tree, first: set<Step>)
    requires ListsBelow(out, prefix, t, first) && !t.Leaf?
    requires forall steps :: BareHere(t, steps) && steps != [] ==> steps[0] in first
    ensures ListsBare(out, prefix, t)
  {
  }

  lemma ListsNothing(prefix: seq<Step>, t: Tree)
    ensures ListsBelow([], prefix, t, {})
  {
  }

  lemma BareBelowMap(t: Tree, first: set<Step>)
    requires t.Map? && forall k :: k in t.kids ==> Key(k) in first
    ensures forall steps :: BareHere(t, steps) && steps != [] ==> steps[0] in first
  {
  }

  lemma FindBelow(t: Tree, s: Step, rest: seq<Step>)
    requires Child(t, s).Some?
    ensures Find(t, [s] + rest) == Find(Child(t, s).value, rest)
  {
    assert ([s] + rest)[1..] == rest;
  }

  method CollectBareDollarPaths(prefix: string, v: Value, ghost above: seq<Step>, ghost sh: Shape)
    returns (out: seq<string>, ghost at: seq<seq<Step>>)
    requires Rep(v, sh) && prefix == Dotted(above)
    ensures ListsBare(at, above, TreeOf(sh)) && Once(at) && out == AllDotted(at)
    decreases sh, 1
  {
    match v {
      case Atom(Str(s)) =>
        var bare := HasBareDollar(s);
        out, at := if bare then [prefix] else [], if bare then [above] else [];
        assert forall steps: seq<Step> :: steps == [] ==> above + steps == above;
      case Atom(_) => out, at := [], [];
      case Obj(node) => out, at := CollectInMap(prefix, node, above, sh);
      case Arr(list) => out, at := CollectInList(prefix, list, above, sh);
    }
  }

  lemma MoreDotted(at: seq<seq<Step>>, more: seq<seq<Step>>)
    ensures AllDotted(at + more) == AllDotted(at) + AllDotted(more)
  {
  }

  lemma NothingDotted()
    ensures AllDotted([]) == []
  {
  }

  method CollectInMap(prefix: string, node: MapNode, ghost above: seq<Step>, ghost sh: Shape)
    returns (out: seq<string>, ghost at: seq<seq<Step>>)
    requires Rep(Obj(node), sh) && prefix == Dotted(above)
    ensures ListsBare(at, above, TreeOf(sh)) && Once(at) && out == AllDotted(at)
    decreases sh, 0
  {
    hide Find, ListsBelow, ListsBare, BareHere, Dotted, AllDotted, TreeOf;
    out, at := [], [];
    NothingDotted();
    ghost var t, first: set<Step> := TreeOf(sh), {};
    KidsAreFound(node, sh);
    var todo := node.entries.Keys;
    ListsNothing(above, t);
    while todo != {}
      invariant todo <= sh.kids.Keys
      invariant forall k :: k in sh.kids ==> (Key(k) in first <==> k !in todo)
      invariant ListsBelow(at, above, t, first) && Once(at) && out == AllDotted(at)
      decreases todo
    {
      hide Once;
      var k :| k in todo;
      DottedUnder(above, Key(k));
      KidOf(node, sh, k);
      var below;
      ghost var more;
      below, more := CollectBareDollarPaths(if prefix != "" then prefix + "." + k else k, node.entries[k],
                                            above + [Key(k)], sh.kids[k]);
      ListsOneMore(at, more, above, t, first, Key(k), TreeOf(sh.kids[k]));
      MoreDotted(at, more);
      out, at, first, todo := out + below, at + more, first + {Key(k)}, todo - {k};
    }
    BareBelowMap(t, first);
    ListsAll(at, above, t, first);
  }

  lemma KidsAreFound(node: MapNode, sh: Shape)
    requires Rep(Obj(node), sh)
    ensures sh.AtMap? && node.entries.Keys == sh.kids.Keys && TreeOf(sh).Map? && TreeOf(sh).kids.Keys == sh.kids.Keys
    ensures forall k, rest :: k in sh.kids ==> Find(TreeOf(sh), [Key(k)] + rest) == Find(TreeOf(sh.kids[k]), rest)
  {
    forall k, rest | k in sh.kids ensures Find(TreeOf(sh), [Key(k)] + rest) == Find(TreeOf(sh.kids[k]), rest) {
      FindBelow(TreeOf(sh), Key(k), rest);
    }
  }

  method CollectInList(prefix: string, list: ListNode, ghost above: seq<Step>, ghost sh: Shape)
    returns (out: seq<string>, ghost at: seq<seq<Step>>)
    requires Rep(Arr(list), sh) && prefix == Dotted(above)
    ensures ListsBare(at, above, TreeOf(sh)) && Once(at) && out == AllDotted(at)
    decreases sh, 0
  {
    hide Find, ListsBelow, ListsBare, BareHere, Dotted, AllDotted, TreeOf;
    out, at := [], [];
    NothingDotted();
    ghost var t, first: set<Step> := TreeOf(sh), {};
    ItemsAreFound(list, sh);
    ListsNothing(above, t);
    for i := 0 to |list.items|
      invariant forall j :: 0 <= j < |sh.items| ==> (Index(j) in first <==> j < i)
      invariant ListsBelow(at, above, t, first) && Once(at) && out == AllDotted(at)
    {
      hide Once;
      DottedUnder(above, Index(i));
      var below;
      ghost var more;
      below, more := CollectBareDollarPaths(prefix + "[" + Coerce.Digits(i) + "]", list.items[i],
                                            above + [Index(i)], sh.items[i]);
      ListsOneMore(at, more, above, t, first, Index(i), TreeOf(sh.items[i]));
      MoreDotted(at, more);
      out, at, first := out + below, at + more, first + {Index(i)};
    }
    BareBelowList(t, first);
    ListsAll(at, above, t, first);
  }

  lemma ItemsAreFound(list: ListNode, sh: Shape)
    requires Rep(Arr(list), sh)
    ensures sh.AtList? && |list.items| == |sh.items| && TreeOf(sh).List? && |TreeOf(sh).items| == |sh.items|
    ensures forall i :: 0 <= i < |sh.items| ==> Rep(list.items[i], sh.items[i])
    ensures forall i, rest :: 0 <= i < |sh.items| ==>
              Find(TreeOf(sh), [Index(i)] + rest) == Find(TreeOf(sh.items[i]), rest)
  {
    forall i, rest | 0 <= i < |sh.items|
      ensures Find(TreeOf(sh), [Index(i)] + rest) == Find(TreeOf(sh.items[i]), rest)
    {
      FindBelow(TreeOf(sh), Index(i), rest);
    }
  }

  lemma BareBelowList(t: Tree, first: set<Step>)
    requires t.List? && forall j :: 0 <= j < |t.items| ==> Index(j) in first
    ensures forall steps :: BareHere(t, steps) && steps != [] ==> steps[0] in first
  {
  }
}
