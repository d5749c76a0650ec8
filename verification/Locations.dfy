// Where a path leads in a container, and on which of its mounts: what the kernel does with a
// path, as opposed to what volume discovery does with its text. Symbolic links are left out.
module Locations {
  import opened Wrappers
  import opened Text
  import opened Docker

  /** A place in a file tree, as the names on the way from its root. */
  type Place = seq<string>

  // ---- Resolving a path ----

  function Stepped(at: Place, name: string): Place {
    if name == "" || name == "." then at
    else if name == ".." then (if at == [] then [] else at[..|at| - 1])
    else at + [name]
  }

  function Walk(names: seq<string>, at: Place): Place {
    if names == [] then at else Walk(names[1..], Stepped(at, names[0]))
  }

  function Location(path: string): Place {
    Walk(Split(path, '/'), [])
  }

  /** How many levels above its start a walk leads, if it starts this deep. */
  function Overshoot(names: seq<string>, depth: nat): nat {
    if names == [] then 0
    else if names[0] == "" || names[0] == "." then Overshoot(names[1..], depth)
    else if names[0] != ".." then Overshoot(names[1..], depth + 1)
    else if depth > 0 then Overshoot(names[1..], depth - 1)
    else 1 + Overshoot(names[1..], 0)
  }

  function Climb(path: string): nat {
    Overshoot(Split(path, '/'), 0)
  }

  function Min(a: nat, b: nat): nat { if a < b then a else b }

  /** The last name of base goes when a step climbs out of at. */
  function Kept(base: Place, at: Place, name: string): Place {
    if name == ".." && at == [] && base != [] then base[..|base| - 1] else base
  }

  lemma StepFrom(base: Place, at: Place, name: string)
    ensures Stepped(base + at, name) == Kept(base, at, name) + Stepped(at, name)
  {
    if name == ".." && at != [] {
      assert (base + at)[..|base + at| - 1] == base + at[..|at| - 1];
    } else if name == ".." {
      assert base + at == base;
    }
  }

  lemma KeptLess(base: Place, at: Place, name: string, n: nat)
    ensures var more := if name == ".." && at == [] then 1 else 0;
            var kept := Kept(base, at, name);
            kept[..|kept| - Min(|kept|, n)] == base[..|base| - Min(|base|, more + n)]
  {
  }

  lemma OvershootStep(names: seq<string>, at: Place)
    requires names != []
    ensures Overshoot(names, |at|) ==
            (if names[0] == ".." && at == [] then 1 else 0) + Overshoot(names[1..], |Stepped(at, names[0])|)
  {
  }

  /** The same walk from below: it takes away what it climbs and leads on from there. */
  lemma {:induction false} WalkFrom(names: seq<string>, base: Place, at: Place)
    ensures Walk(names, base + at) == base[..|base| - Min(|base|, Overshoot(names, |at|))] + Walk(names, at)
  {
    hide Kept, Stepped, Overshoot;
    if names != [] {
      StepFrom(base, at, names[0]);
      OvershootStep(names, at);
      WalkFrom(names[1..], Kept(base, at, names[0]), Stepped(at, names[0]));
      KeptLess(base, at, names[0], Overshoot(names[1..], |Stepped(at, names[0])|));
    } else {
      NoOvershoot(base, at);
    }
  }

  lemma NoOvershoot(base: Place, at: Place)
    ensures base[..|base| - Min(|base|, Overshoot([], |at|))] == base
  {
  }

  lemma {:induction false} WalkConcat(a: seq<string>, b: seq<string>, at: Place)
    ensures Walk(a + b, at) == Walk(b, Walk(a, at))
  {
    if a == [] {
      assert a + b == b;
    } else {
      assert (a + b)[1..] == a[1..] + b;
      WalkConcat(a[1..], b, Stepped(at, a[0]));
    }
  }

  // ---- Clean paths ----

  /** A name that stands for itself on a path. */
  predicate Named(s: string) {
    s != "" && s != "." && s != ".." && '/' !in s
  }

  /** Docker's form of a mount destination: absolute, below the root, without "//", "." or "..". */
  predicate Clean(path: string) {
    |path| > 1 && path[0] == '/' && forall s | s in Split(path[1..], '/') :: Named(s)
  }

  lemma {:induction false} WalkNamed(names: seq<string>, at: Place)
    requires forall s :: s in names ==> Named(s)
    ensures Walk(names, at) == at + names
  {
    if names != [] {
      assert names[0] in names && forall s :: s in names[1..] ==> s in names;
      WalkNamed(names[1..], at + [names[0]]);
      assert at + [names[0]] + names[1..] == at + names;
    } else {
      assert at + names == at;
    }
  }

  lemma SplitAbsolute(path: string)
    requires path != "" && path[0] == '/'
    ensures Split(path, '/') == [""] + Split(path[1..], '/')
  {
  }

  lemma CleanLocation(path: string)
    requires Clean(path)
    ensures Location(path) == Split(path[1..], '/') && Location(path) != []
    ensures Join(Location(path), '/') == path[1..]
  {
    var names := Split(path[1..], '/');
    SplitAbsolute(path);
    assert Split(path, '/')[1..] == names;
    WalkNamed(names, []);
    assert [] + names == names;
    JoinSplit(path[1..], '/');
  }

  lemma CleanInjective(a: string, b: string)
    requires Clean(a) && Clean(b) && Location(a) == Location(b)
    ensures a == b
  {
    CleanLocation(a);
    CleanLocation(b);
    assert a == "/" + a[1..] && b == "/" + b[1..];
  }

  /** Where a path below a model's directory leads. */
  lemma UnderModel(model: string, path: string)
    requires Named(model) && path != "" && path[0] == '/'
    ensures Location("/volumes/" + model + path) ==
            ["volumes", model][..2 - Min(2, Climb(path))] + Location(path)
  {
    hide Split, Walk, Overshoot;
    var q := path[1..];
    var names := Split(q, '/');
    SplitUnderModel(model, path);
    SplitAbsolute(path);
    WalkConcat(["", "volumes", model], names, []);
    TwoSteps(model);
    WalkConcat([""], names, []);
    OvershootRoot(names);
    WalkFrom(names, ["volumes", model], []);
    assert ["volumes", model] + [] == ["volumes", model];
  }

  lemma TwoSteps(model: string)
    requires Named(model)
    ensures Walk(["", "volumes", model], []) == ["volumes", model] && Walk([""], []) == []
  {
    var names := ["volumes", model];
    assert ["", "volumes", model][1..] == names && [""][1..] == [];
    assert Named("volumes");
    WalkNamed(names, []);
    assert [] + names == names;
  }

  lemma OvershootRoot(names: seq<string>)
    ensures Overshoot([""] + names, 0) == Overshoot(names, 0)
  {
    assert ([""] + names)[1..] == names;
  }

  lemma SplitUnderModel(model: string, path: string)
    requires '/' !in model && path != "" && path[0] == '/'
    ensures Split("/volumes/" + model + path, '/') == ["", "volumes", model] + Split(path[1..], '/')
  {
    hide Split;
    var a := "/volumes" + ['/'] + model;
    assert "/volumes/" + model + path == a + ['/'] + path[1..];
    SplitConcat(a, path[1..], '/');
    SplitConcat("/volumes", model, '/');
    SplitPlain(model, '/');
    SplitPlain("volumes", '/');
    assert Split("/volumes", '/') == ["", "volumes"] by {
      SplitAbsolute("/volumes");
      assert "/volumes"[1..] == "volumes";
    }
  }

  lemma CleanUnderModel(model: string, dst: string)
    requires Named(model) && Clean(dst)
    ensures Clean("/volumes/" + model + dst)
    ensures Location("/volumes/" + model + dst) == ["volumes", model] + Location(dst)
  {
    hide Split, Walk;
    var path := "/volumes/" + model + dst;
    SplitUnderModel(model, dst);
    SplitAbsolute(path);
    var names := Split(path[1..], '/');
    assert [""] + names == ["", "volumes", model] + Split(dst[1..], '/');
    assert names == ([""] + names)[1..] == ["volumes", model] + Split(dst[1..], '/');
    assert Named("volumes");
    forall s | s in names ensures Named(s) {
      assert s == "volumes" || s == model || s in Split(dst[1..], '/');
    }
    CleanLocation(path);
    CleanLocation(dst);
  }

  /** A name in a clean directory. */
  lemma FileBelow(dst: string, f: string)
    requires Clean(dst) && Named(f)
    ensures Clean(dst + "/" + f) && Location(dst + "/" + f) == Location(dst) + [f]
  {
    hide Split, Walk;
    var p := dst + "/" + f;
    assert p[1..] == dst[1..] + ['/'] + f;
    SplitConcat(dst[1..], f, '/');
    SplitPlain(f, '/');
    CleanLocation(dst);
    CleanLocation(p);
  }

  // ---- Mounts ----

  function Mounted(ds: seq<MountDef>, at: Place): (d: Option<MountDef>)
    ensures d.Some? ==> d.value in ds && Location(d.value.target) == at
    ensures d.None? ==> forall e :: e in ds ==> Location(e.target) != at
  {
    if ds == [] then None
    else if Location(ds[0].target) == at then Some(ds[0])
    else Mounted(ds[1..], at)
  }

  /** Of the mounts on the way to a place, the deepest of those at most n deep. */
  function Deepest(ds: seq<MountDef>, at: Place, n: nat): (d: Option<MountDef>)
    requires n <= |at|
    ensures d.Some? ==> d.value in ds && Location(d.value.target) <= at
    ensures forall e :: e in ds && Location(e.target) <= at && |Location(e.target)| <= n ==>
                          d.Some? && |Location(e.target)| <= |Location(d.value.target)|
  {
    if Mounted(ds, at[..n]).Some? then Mounted(ds, at[..n])
    else if n == 0 then None
    else Deepest(ds, at, n - 1)
  }

  /** The mount that a container with these mounts finds a place on. */
  function MountOn(ds: seq<MountDef>, at: Place): (d: Option<MountDef>)
    ensures d.Some? ==> d.value in ds && Location(d.value.target) <= at
    ensures forall e :: e in ds && Location(e.target) <= at ==>
                          d.Some? && |Location(e.target)| <= |Location(d.value.target)|
  {
    Deepest(ds, at, |at|)
  }

  function MountAt(ds: seq<MountDef>, path: string): (d: Option<MountDef>)
    ensures d.Some? ==> d.value in ds && Location(d.value.target) <= Location(path)
    ensures forall e :: e in ds && Location(e.target) <= Location(path) ==>
                          d.Some? && |Location(e.target)| <= |Location(d.value.target)|
  {
    MountOn(ds, Location(path))
  }

  /** A place in data that containers can share: a host directory or a volume, and a place in
      it. What is in a tmpfs is a container's own. */
  datatype Data = Data(kind: MountType, source: string, sub: Place)

  function DataOn(ds: seq<MountDef>, at: Place): Option<Data> {
    match MountOn(ds, at)
    case None => None
    case Some(d) =>
      if d.kind.Tmpfs? then None else Some(Data(d.kind, d.source, at[|Location(d.target)|..]))
  }

  function DataAt(ds: seq<MountDef>, path: string): Option<Data> {
    DataOn(ds, Location(path))
  }
}
