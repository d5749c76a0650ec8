// internal/render/coerce.go: label values are all strings; those that clearly are booleans,
// integers or lists become such, in place.
module Coerce {
  import opened Wrappers
  import opened Text
  import opened Trees
  import opened Document

  // ---- list fields ----

  const ARRAY_FIELDS: seq<Path> := [
    ["archive", "includes"],
    ["archive", "excludes"],
    ["databases", "*", "tables"],
    ["databases", "*", "exclude_tables"],
    ["databases", "*", "exclude_tables_prefix"],
    ["databases", "*", "skip_databases"],
    ["databases", "*", "endpoints"]
  ]

  predicate Matches(pat: Path, path: Path) {
    |pat| == |path| && forall i | 0 <= i < |pat| :: pat[i] == "*" || pat[i] == path[i]
  }

  predicate ArrayField(path: Path) {
    exists i | 0 <= i < |ARRAY_FIELDS| :: Matches(ARRAY_FIELDS[i], path)
  }

  method IsArrayField(path: Path) returns (b: bool)
    ensures b <==> ArrayField(path)
  {
    for n := 0 to |ARRAY_FIELDS|
      invariant forall j :: 0 <= j < n ==> !Matches(ARRAY_FIELDS[j], path)
    {
      var pat := ARRAY_FIELDS[n];
      if |pat| == |path| {
        var matched := true;
        for i := 0 to |pat|
          invariant matched && forall j :: 0 <= j < i ==> pat[j] == "*" || pat[j] == path[j]
        {
          if pat[i] != "*" && pat[i] != path[i] {
            matched := false;
            break;
          }
        }
        if matched {
          return true;
        }
      }
    }
    return false;
  }

  /** The places whose strings are lists, separated by commas. */
  predicate ListPlace(path: Path) {
    || (|path| == 2 && path[0] == "archive" && path[1] in {"includes", "excludes"})
    || (|path| == 3 && path[0] == "databases"
          && path[2] in {"tables", "exclude_tables", "exclude_tables_prefix", "skip_databases", "endpoints"})
  }

  /** Where a list may be written as one comma-separated string, and nowhere else. */
  lemma ArrayFieldsAre(path: Path)
    ensures ArrayField(path) <==> ListPlace(path)
  {
    if |path| == 2 && path[0] == "archive" && path[1] in {"includes", "excludes"} {
      assert Matches(ARRAY_FIELDS[if path[1] == "includes" then 0 else 1], path);
    }
    if |path| == 3 && path[0] == "databases" {
      assert forall n | 2 <= n < 7 :: Matches(ARRAY_FIELDS[n], path) <==> path[2] == ARRAY_FIELDS[n][2];
      assert path[2] == "tables" ==> Matches(ARRAY_FIELDS[2], path);
      assert path[2] == "exclude_tables" ==> Matches(ARRAY_FIELDS[3], path);
      assert path[2] == "exclude_tables_prefix" ==> Matches(ARRAY_FIELDS[4], path);
      assert path[2] == "skip_databases" ==> Matches(ARRAY_FIELDS[5], path);
      assert path[2] == "endpoints" ==> Matches(ARRAY_FIELDS[6], path);
    }
  }

  function Kept(parts: seq<string>): seq<string> {
    if parts == [] then []
    else
      var item := TrimSpace(parts[|parts| - 1]);
      Kept(parts[..|parts| - 1]) + if item == "" then [] else [item]
  }

  function Items(s: string): seq<string> {
    if s == "" then [] else Kept(Split(s, ','))
  }

  method SplitCSV(s: string) returns (out: seq<string>)
    ensures out == Items(s)
  {
    out := [];
    if s == "" {
      return;
    }
    var raw := Split(s, ',');
    for i := 0 to |raw|
      invariant out == Kept(raw[..i])
    {
      assert raw[..i + 1][..i] == raw[..i];
      var item := TrimSpace(raw[i]);
      if item != "" {
        out := out + [item];
      }
    }
    assert raw[..|raw|] == raw;
  }

  ghost predicate Item(s: string) {
    s != "" && ',' !in s && TrimSpace(s) == s
  }

  lemma {:induction false} TrimmedTwice(s: string)
    ensures TrimSpace(TrimSpace(s)) == TrimSpace(s)
    decreases |s|
  {
    if s != "" {
      if IsSpace(s[0]) {
        TrimmedTwice(s[1..]);
      } else if IsSpace(s[|s| - 1]) {
        TrimmedTwice(s[..|s| - 1]);
      }
    }
  }

  /** The items of a list are trimmed, not empty and without commas. */
  lemma ItemsAreItems(s: string)
    ensures forall x :: x in Items(s) ==> Item(x)
  {
    if s != "" {
      SplitParts(s, ',');
      KeptAreItems(Split(s, ','));
    }
  }

  lemma {:induction false} KeptAreItems(parts: seq<string>)
    requires forall p :: p in parts ==> ',' !in p
    ensures forall x :: x in Kept(parts) ==> Item(x)
  {
    if parts != [] {
      KeptAreItems(parts[..|parts| - 1]);
      TrimmedTwice(parts[|parts| - 1]);
    }
  }

  /** A list of items written with commas is read back as it was. */
  lemma ItemsRoundTrip(items: seq<string>)
    requires forall x :: x in items ==> Item(x)
    ensures Items(Join(items, ',')) == items
  {
    if items != [] {
      SplitJoin(items, ',');
      assert Join(items, ',') != "" by { assert items[0] in items && items[0] != ""; }
      KeptItems(items);
    }
  }

  lemma {:induction false} KeptItems(items: seq<string>)
    requires forall x :: x in items ==> Item(x)
    ensures Kept(items) == items
  {
    if items != [] {
      var n := |items| - 1;
      KeptItems(items[..n]);
      assert Item(items[n]);
      assert items[..n] + [items[n]] == items;
    }
  }

  // ---- scalars ----

  predicate IsDigit(c: char) { '0' <= c <= '9' }

  predicate AllDigits(s: string) { forall i | 0 <= i < |s| :: IsDigit(s[i]) }

  /** A decimal integer without leading zeros. */
  predicate PlainInt(s: string) {
    var digits := if s != "" && s[0] == '-' then s[1..] else s;
    digits != "" && AllDigits(digits) && (digits[0] == '0' ==> |digits| == 1)
  }

  method IsPlainInt(s: string) returns (b: bool)
    ensures b <==> PlainInt(s)
  {
    if s == "" {
      return false;
    }
    var i := 0;
    if s[0] == '-' {
      if |s| == 1 {
        return false;
      }
      i := 1;
    }
    ghost var from := i;
    if s[i] == '0' {
      return |s| - i == 1;
    }
    while i < |s|
      invariant from <= i <= |s| && forall j :: from <= j < i ==> IsDigit(s[j])
    {
      if s[i] < '0' || s[i] > '9' {
        assert !IsDigit(s[from..][i - from]);
        return false;
      }
      i := i + 1;
    }
    return true;
  }

  function Value(digits: string): nat
    requires AllDigits(digits)
  {
    if digits == "" then 0
    else 10 * Value(digits[..|digits| - 1]) + (digits[|digits| - 1] as int - '0' as int)
  }

  const MAX_INT64 := 0x7FFF_FFFF_FFFF_FFFF

  /** strconv.ParseInt of a plain integer, base 10, 64 bits. */
  function ParseInt(s: string): (r: Option<int>)
    requires PlainInt(s)
    ensures r.Some? ==> -MAX_INT64 - 1 <= r.value <= MAX_INT64
  {
    var n: int := if s[0] == '-' then 0 - Value(s[1..]) else Value(s);
    if -MAX_INT64 - 1 <= n <= MAX_INT64 then Some(n) else None
  }

  function Contains(s: string, sub: string): bool {
    exists i | 0 <= i <= |s| :: sub <= s[i..]
  }

  predicate ProtectedKey(key: string) {
    var k := ToLower(key);
    || k == "id" || k == "host" || CutSuffix(k, "_id").Some?
    || exists frag | frag in {"password", "token", "secret", "key"} :: Contains(k, frag)
  }

  function CoercedScalar(key: string, s: string): Scalar {
    if ToLower(s) == "true" then Flag(true)
    else if ToLower(s) == "false" then Flag(false)
    else if ProtectedKey(key) then Str(s)
    else if PlainInt(s) && ParseInt(s).Some? then Num(ParseInt(s).value)
    else Str(s)
  }

  // ---- integers print back ----

  function Decimal(n: int): string {
    if n < 0 then "-" + Digits(-n) else Digits(n)
  }

  function Digits(n: nat): (s: string)
    ensures s != "" && AllDigits(s) && (s[0] == '0' ==> n == 0)
  {
    if n < 10 then [('0' as int + n) as char]
    else Digits(n / 10) + [('0' as int + n % 10) as char]
  }

  lemma {:induction false} ValueOfDigits(n: nat)
    ensures Value(Digits(n)) == n
  {
    if n < 10 {
      assert Digits(n)[..0] == "";
    } else {
      ValueOfDigits(n / 10);
      assert Digits(n)[..|Digits(n)| - 1] == Digits(n / 10);
    }
  }

  lemma {:induction false} DigitsOfValue(s: string)
    requires s != "" && AllDigits(s) && (s[0] == '0' ==> |s| == 1)
    ensures Digits(Value(s)) == s && (s[0] != '0' ==> Value(s) > 0)
  {
    var n := |s| - 1;
    if n == 0 {
      assert Value(s[..0]) == 0;
    } else {
      DigitsOfValue(s[..n]);
      assert s[..n] + [s[n]] == s;
    }
  }

  /** A string becomes an integer only if the integer prints as that string ("-0" aside) and
      fits 64 bits; and every such integer is recognised. */
  lemma IntegersPrintBack(key: string, s: string)
    ensures forall n :: CoercedScalar(key, s) == Num(n) ==>
                          -MAX_INT64 - 1 <= n <= MAX_INT64 && (s == Decimal(n) || (s == "-0" && n == 0))
  {
    if PlainInt(s) && ParseInt(s).Some? { ParsedPrintsBack(s); }
  }

  lemma ValueOfZero()
    ensures Value("0") == 0
  {
    assert "0"[..0] == "";
  }

  lemma ParsedPrintsBack(s: string)
    requires PlainInt(s) && ParseInt(s).Some?
    ensures Decimal(ParseInt(s).value) == s || (s == "-0" && ParseInt(s).value == 0)
  {
    hide Digits, Value;
    if s[0] == '-' {
      var digits := s[1..];
      assert s == "-" + digits;
      DigitsOfValue(digits);
      if digits[0] == '0' {
        assert digits == "0";
        ValueOfZero();
      }
    } else {
      DigitsOfValue(s);
    }
  }

  lemma IntegersAreRecognised(key: string, n: int)
    requires !ProtectedKey(key) && -MAX_INT64 - 1 <= n <= MAX_INT64
    ensures CoercedScalar(key, Decimal(n)) == Num(n)
  {
    var s := Decimal(n);
    var digits := Digits(if n < 0 then -n else n);
    ValueOfDigits(if n < 0 then -n else n);
    assert n < 0 ==> s[1..] == digits;
    assert n >= 0 ==> s == digits;
    assert ToLower(s)[0] == s[0] != 't' && s[0] != 'f';
  }

  // ---- what a scalar becomes, spelled out ----

  /** Some part of the text is the word, in any letter case. */
  ghost predicate HasWord(s: string, word: string) {
    exists i :: 0 <= i && i + |word| <= |s| && WordAt(s, i, word)
  }

  ghost predicate WordAt(s: string, i: nat, word: string)
    requires i + |word| <= |s|
  {
    Folds(s[i..i + |word|], word)
  }

  /** Identifiers, secrets and hosts. */
  ghost predicate Protected(key: string) {
    || Folds(key, "id") || Folds(key, "host") || (|key| >= 3 && WordAt(key, |key| - 3, "_id"))
    || HasWord(key, "password") || HasWord(key, "token") || HasWord(key, "secret") || HasWord(key, "key")
  }

  lemma ToLowerPart(s: string, i: nat, j: nat)
    requires i <= j <= |s|
    ensures ToLower(s)[i..j] == ToLower(s[i..j])
  {
  }

  lemma HasWordExactly(s: string, word: string)
    requires forall c :: c in word ==> !('A' <= c <= 'Z')
    ensures Contains(ToLower(s), word) <==> HasWord(s, word)
  {
    hide ToLower, Folds;
    var l := ToLower(s);
    LowerLength(s);
    forall i: nat | i + |word| <= |s| ensures WordAt(s, i, word) <==> word <= l[i..] {
      ToLowerPart(s, i, i + |word|);
      FoldsExactly(s[i..i + |word|], word);
      assert l[i..i + |word|] == l[i..][..|word|];
    }
    if i :| 0 <= i <= |l| && word <= l[i..] { assert WordAt(s, i, word); }
    if i :| 0 <= i && i + |word| <= |s| && WordAt(s, i, word) { assert word <= l[i..]; }
  }

  lemma LowerLength(s: string)
    ensures |ToLower(s)| == |s|
  {
  }

  lemma EndsInId(key: string)
    ensures CutSuffix(ToLower(key), "_id").Some? <==> |key| >= 3 && WordAt(key, |key| - 3, "_id")
  {
    hide ToLower, Folds;
    LowerLength(key);
    if |key| >= 3 {
      ToLowerPart(key, |key| - 3, |key|);
      FoldsExactly(key[|key| - 3..|key|], "_id");
      assert ToLower(key)[|key| - 3..] == ToLower(key)[|key| - 3..|key|];
    }
  }

  lemma ProtectedExactly(key: string)
    ensures ProtectedKey(key) <==> Protected(key)
  {
    hide ToLower, Folds, Contains, HasWord, WordAt, CutSuffix;
    FoldsExactly(key, "id");
    FoldsExactly(key, "host");
    EndsInId(key);
    HasWordExactly(key, "password");
    HasWordExactly(key, "token");
    HasWordExactly(key, "secret");
    HasWordExactly(key, "key");
  }

  /** A string that says true or false becomes that, under any key; any other becomes a number only if
      the key is not protected, and stays as it is unless it does. */
  lemma ScalarExactly(key: string, s: string)
    ensures CoercedScalar(key, s) == Flag(true) <==> Folds(s, "true")
    ensures CoercedScalar(key, s) == Flag(false) <==> Folds(s, "false")
    ensures CoercedScalar(key, s).Num? ==> !Protected(key)
    ensures CoercedScalar(key, s).Flag? || CoercedScalar(key, s).Num? || CoercedScalar(key, s) == Str(s)
    ensures forall n: int :: -MAX_INT64 - 1 <= n <= MAX_INT64 && s == Decimal(n) && !Protected(key) ==>
                         CoercedScalar(key, s) == Num(n)
  {
    hide ToLower, Folds, Protected, ProtectedKey;
    FoldsExactly(s, "true");
    FoldsExactly(s, "false");
    ProtectedExactly(key);
    forall n: int | -MAX_INT64 - 1 <= n <= MAX_INT64 && s == Decimal(n) && !Protected(key)
      ensures CoercedScalar(key, s) == Num(n)
    {
      IntegersAreRecognised(key, n);
    }
  }

  // ---- the whole tree ----

  function Texts(items: seq<string>): seq<Tree> {
    seq(|items|, i requires 0 <= i < |items| => Leaf(Str(items[i])))
  }

  /** A string at the given path. */
  function CoercedText(path: Path, s: string): Tree
    requires path != []
  {
    if ArrayField(path) then List(Texts(Items(s)))
    else Leaf(CoercedScalar(path[|path| - 1], s))
  }

  predicate IsText(t: Tree) { t.Leaf? && t.scalar.Str? }

  /** A kid of a map, whose path is known; an item of a list has its list's path, and is left
      alone when it is a string. */
  function CoercedKid(t: Tree, path: Path): Tree
    requires path != []
    decreases t, 1
  {
    if IsText(t) then CoercedText(path, t.scalar.s) else Coerced(t, path)
  }

  function CoercedItem(t: Tree, path: Path): Tree
    decreases t, 1
  {
    if IsText(t) then t else Coerced(t, path)
  }

  function Coerced(t: Tree, path: Path): Tree
    decreases t, 0
  {
    match t
    case Leaf(_) => t
    case Map(kids) => Map(map k | k in kids :: CoercedKid(kids[k], path + [k]))
    case List(items) => List(seq(|items|, i requires 0 <= i < |items| => CoercedItem(items[i], path)))
  }

  lemma CoercedTextTwice(path: Path, s: string)
    requires path != []
    ensures CoercedKid(CoercedText(path, s), path) == CoercedText(path, s)
  {
    if ArrayField(path) {
      var list := CoercedText(path, s);
      assert forall i | 0 <= i < |list.items| :: CoercedItem(list.items[i], path) == list.items[i];
      assert Coerced(list, path).items == list.items;
    }
  }

  lemma StaysNoText(t: Tree, path: Path)
    requires !IsText(t)
    ensures !IsText(Coerced(t, path))
  {
  }

  lemma {:induction false} CoercedKidTwice(t: Tree, path: Path)
    requires path != []
    ensures CoercedKid(CoercedKid(t, path), path) == CoercedKid(t, path)
    decreases t, 1
  {
    if IsText(t) {
      CoercedTextTwice(path, t.scalar.s);
    } else {
      CoercedTwice(t, path);
      StaysNoText(t, path);
    }
  }

  /** A second pass changes nothing. */
  lemma {:induction false} CoercedTwice(t: Tree, path: Path)
    ensures Coerced(Coerced(t, path), path) == Coerced(t, path)
    decreases t, 0
  {
    match t {
      case Leaf(_) =>
      case Map(kids) =>
        forall k | k in kids { CoercedKidTwice(kids[k], path + [k]); }
        assert Coerced(Coerced(t, path), path).kids == Coerced(t, path).kids;
      case List(items) =>
        forall i | 0 <= i < |items|
          ensures CoercedItem(CoercedItem(items[i], path), path) == CoercedItem(items[i], path)
        {
          if !IsText(items[i]) {
            CoercedTwice(items[i], path);
            StaysNoText(items[i], path);
          }
        }
        assert Coerced(Coerced(t, path), path).items == Coerced(t, path).items;
    }
  }

  /** What becomes of each value, by its path from the root; the keys stay. */
  lemma {:induction false} CoercedAt(t: Tree, above: Path, path: Path)
    requires path != []
    ensures At(Coerced(t, above), path).None? <==> At(t, path).None?
    ensures At(t, path).Some? ==> At(Coerced(t, above), path) == Some(CoercedKid(At(t, path).value, above + path))
    decreases |path|
  {
    if t.Map? && path[0] in t.kids {
      var k := path[0];
      if |path| == 1 {
        assert above + path == above + [k];
      } else if IsText(t.kids[k]) {
        assert CoercedText(above + [k], t.kids[k].scalar.s).Map? == false;
      } else {
        CoercedAt(t.kids[k], above + [k], path[1..]);
        assert above + [k] + path[1..] == above + path;
      }
    }
  }

  /** A string at a path becomes the list of its items there, or what its last key makes of it. */
  lemma {:induction false} TextBecomes(t: Tree, path: Path, s: string)
    requires path != [] && At(t, path) == Some(Leaf(Str(s)))
    ensures At(Coerced(t, []), path) ==
            Some(if ListPlace(path) then List(Texts(Items(s))) else Leaf(CoercedScalar(path[|path| - 1], s)))
  {
    hide At, Coerced, Items, CoercedScalar;
    CoercedAt(t, [], path);
    ArrayFieldsAre(path);
    assert [] + path == path;
  }

  /** Scalars that are no strings stay, and so do the strings of a list. */
  lemma {:induction false} OthersStay(t: Tree, path: Path)
    requires path != []
    ensures forall x :: At(t, path) == Some(Leaf(x)) && !x.Str? ==> At(Coerced(t, []), path) == Some(Leaf(x))
    ensures At(t, path).Some? && At(t, path).value.List? ==>
              var items, now := At(t, path).value.items, At(Coerced(t, []), path);
              && now.Some? && now.value.List? && |now.value.items| == |items|
              && forall i :: 0 <= i < |items| && items[i].Leaf? ==> now.value.items[i] == items[i]
  {
    hide At;
    CoercedAt(t, [], path);
    assert [] + path == path;
    if At(t, path).Some? && At(t, path).value.List? { ItemsStay(At(t, path).value.items, path); }
  }

  lemma ItemsStay(items: seq<Tree>, path: Path)
    requires path != []
    ensures var now := CoercedKid(List(items), path);
            && now.List? && |now.items| == |items|
            && forall i :: 0 <= i < |items| && items[i].Leaf? ==> now.items[i] == items[i]
  {
    var now := Coerced(List(items), path);
    forall i | 0 <= i < |items| && items[i].Leaf? ensures now.items[i] == items[i] {
      assert now.items[i] == CoercedItem(items[i], path);
    }
  }

  // ---- in place ----

  /** A new list of strings. */
  method NewList(items: seq<string>) returns (list: ListNode, ghost sh: Shape)
    ensures Rep(Arr(list), sh) && fresh(Foot(sh))
    ensures TreeOf(sh) == List(Texts(items))
  {
    list := new ListNode();
    list.items := seq(|items|, i requires 0 <= i < |items| => Atom(Str(items[i])));
    sh := AtList(list, seq(|items|, i requires 0 <= i < |items| => AtLeaf(Str(items[i]))), {list});
    assert TreeOf(sh).items == Texts(items);
  }

  method CoerceNode(v: Value, path: Path, ghost sh: Shape) returns (ghost sh': Shape)
    requires Rep(v, sh)
    modifies Foot(sh)
    ensures Rep(v, sh') && fresh(Foot(sh') - Foot(sh))
    ensures TreeOf(sh') == Coerced(TreeOf(sh), path)
    decreases sh, 3
  {
    match v {
      case Obj(node) => sh' := CoerceMap(node, path, sh);
      case Arr(list) => sh' := CoerceList(list, path, sh);
      case Atom(_) => sh' := sh;
    }
  }

  ghost function KidsOf(path: Path): (string, Tree) -> Tree { (k, t) => CoercedKid(t, path + [k]) }

  ghost function ItemsOf(path: Path): Tree -> Tree { t => CoercedItem(t, path) }

  lemma CoercedStep(sh: Shape, kids: map<string, Shape>, todo: set<string>, path: Path, k: string, ksh: Shape)
    requires sh.AtMap? && k in sh.kids && k in todo && Mapped(sh, kids, todo, KidsOf(path))
    requires TreeOf(ksh) == CoercedKid(TreeOf(sh.kids[k]), path + [k])
    ensures Mapped(sh, kids[k := ksh], todo - {k}, KidsOf(path))
  {
    MappedStep(sh, kids, todo, KidsOf(path), k, ksh);
  }

  lemma CoercedMap(sh: Shape, kids: map<string, Shape>, path: Path, n: MapNode, foot: set<object>)
    requires sh.AtMap? && Mapped(sh, kids, {}, KidsOf(path))
    ensures TreeOf(AtMap(n, kids, foot)) == Coerced(TreeOf(sh), path)
  {
    MappedIs(sh, kids, KidsOf(path), n, foot, Coerced(TreeOf(sh), path));
  }

  lemma CoercedList(sh: Shape, items: seq<Shape>, path: Path, n: ListNode, foot: set<object>)
    requires sh.AtList? && MappedTo(sh, items, |items|, ItemsOf(path))
    ensures TreeOf(AtList(n, items, foot)) == Coerced(TreeOf(sh), path)
  {
    MappedToIs(sh, items, ItemsOf(path), n, foot, Coerced(TreeOf(sh), path));
  }

  method CoerceMap(node: MapNode, path: Path, ghost sh: Shape) returns (ghost sh': Shape)
    requires Rep(Obj(node), sh)
    modifies Foot(sh)
    ensures Rep(Obj(node), sh') && fresh(Foot(sh') - Foot(sh))
    ensures TreeOf(sh') == Coerced(TreeOf(sh), path)
    decreases sh, 2
  {
    hide Rep, TreeOf, Coerced;
    sh' := sh;
    KidsOfMap(node, sh, KidsOf(path));
    var todo := node.entries.Keys;
    while todo != {}
      invariant todo <= sh.kids.Keys && sh'.AtMap? && sh'.node == node
      invariant Rep(Obj(node), sh') && fresh(Foot(sh') - Foot(sh))
      invariant Mapped(sh, sh'.kids, todo, KidsOf(path))
      decreases todo
    {
      var k :| k in todo;
      var childPath := path + [k];
      ghost var kids := sh'.kids;
      ghost var ksh;
      ksh, sh' := CoerceOne(node, k, childPath, sh', sh);
      CoercedStep(sh, kids, todo, path, k, ksh);
      todo := todo - {k};
    }
    CoercedMap(sh, sh'.kids, path, node, sh'.foot);
  }

  /** One round of the loop over a map. */
  method CoerceOne(node: MapNode, k: string, childPath: Path, ghost now: Shape, ghost sh: Shape)
    returns (ghost ksh: Shape, ghost sh': Shape)
    requires Rep(Obj(node), now) && k in now.kids && now.kids[k] < sh
    requires childPath != [] && childPath[|childPath| - 1] == k
    modifies Foot(now)
    ensures sh' == AtMap(node, now.kids[k := ksh], now.foot + Foot(ksh))
    ensures Rep(Obj(node), sh') && fresh(Foot(sh') - Foot(now))
    ensures TreeOf(ksh) == CoercedKid(TreeOf(now.kids[k]), childPath)
    decreases sh, 1
  {
    hide Rep, RepBut, Fits, TreeOf, Coerced, CoercedText;
    KidOf(node, now, k);
    RepWithout(node, now.kids, now.foot, k);
    var val := node.entries[k];
    TextOf(val, now.kids[k]);
    if val.Atom? && val.s.Str? {
      var c;
      c, ksh := CoerceText(k, val.s.s, childPath);
      StillFits(node, now.kids, now.foot, k, ksh);
      Put(node, k, c, now.kids, now.foot, ksh);
    } else {
      label before:
      ksh := CoerceNode(val, childPath, now.kids[k]);
      assert unchanged@before(now.foot - KidFoot(now.kids, k));
      StillFits(node, now.kids, now.foot, k, ksh);
      Rejoin(node, now.kids, now.foot, k, ksh);
    }
    sh' := AtMap(node, now.kids[k := ksh], now.foot + Foot(ksh));
  }

  lemma TextOf(v: Value, sh: Shape)
    requires Rep(v, sh)
    ensures v.Atom? && v.s.Str? <==> IsText(TreeOf(sh))
    ensures v.Atom? ==> TreeOf(sh) == Leaf(v.s)
  {
  }

  /** What a string becomes, by its path. */
  method CoerceText(k: string, s: string, path: Path) returns (v: Value, ghost sh: Shape)
    requires path != [] && path[|path| - 1] == k
    ensures Rep(v, sh) && fresh(Foot(sh))
    ensures TreeOf(sh) == CoercedText(path, s)
  {
    var isArray := IsArrayField(path);
    if isArray {
      var items := SplitCSV(s);
      var list;
      list, sh := NewList(items);
      v := Arr(list);
    } else {
      var c := CoercedScalar(k, s);
      v, sh := Atom(c), AtLeaf(c);
    }
  }

  method CoerceList(list: ListNode, path: Path, ghost sh: Shape) returns (ghost sh': Shape)
    requires Rep(Arr(list), sh)
    modifies Foot(sh)
    ensures Rep(Arr(list), sh') && fresh(Foot(sh') - Foot(sh))
    ensures TreeOf(sh') == Coerced(TreeOf(sh), path)
    decreases sh, 2
  {
    sh' := sh;
    var i := 0;
    while i < |list.items|
      invariant sh'.AtList? && i <= |sh.items|
      invariant Rep(Arr(list), sh') && fresh(Foot(sh') - Foot(sh))
      invariant MappedTo(sh, sh'.items, i, ItemsOf(path))
      decreases |sh.items| - i
    {
      ghost var ish := CoerceListItem(list, i, path, sh', sh);
      sh' := AtList(list, sh'.items[i := ish], sh'.foot + Foot(ish));
      i := i + 1;
    }
    CoercedList(sh, sh'.items, path, list, sh'.foot);
  }

  method CoerceListItem(list: ListNode, i: nat, path: Path, ghost now: Shape, ghost sh: Shape)
    returns (ghost ish: Shape)
    requires Rep(Arr(list), now) && i < |now.items| && now.items[i] < sh
    modifies Foot(now)
    ensures Rep(Arr(list), AtList(list, now.items[i := ish], now.foot + Foot(ish))) && fresh(Foot(ish) - Foot(now))
    ensures TreeOf(ish) == CoercedItem(TreeOf(now.items[i]), path)
    decreases sh, 1
  {
    RepWithoutItem(list, now.items, now.foot, i);
    var val := list.items[i];
    ish := now.items[i];
    if !(val.Atom? && val.s.Str?) {
      ish := CoerceNode(val, path, now.items[i]);
    }
    RejoinItem(list, now.items, now.foot, i, ish);
  }

  method CoerceTree(v: Value, ghost sh: Shape) returns (ghost sh': Shape)
    requires Rep(v, sh)
    modifies Foot(sh)
    ensures Rep(v, sh') && fresh(Foot(sh') - Foot(sh))
    ensures TreeOf(sh') == Coerced(TreeOf(sh), [])
  {
    sh' := CoerceNode(v, [], sh);
  }
}
