// The config document as a file: its map keys and its values in the order in which they are
// written, with the encoder's text between them. Only string values were escaped.
module ConfigFile {
  import opened Trees
  import opened Expansion
  import opened Escape
  import opened ConfigEscape
  import opened FileText

  /** The order in which the encoder writes the keys of a map. */
  type KeyOrder = set<string> -> seq<string>

  ghost predicate ListsKeys(order: KeyOrder) {
    forall ks :: forall k :: k in order(ks) <==> k in ks
  }

  /** A text of the document, and whether it is a string value, which the walk escapes. */
  datatype Text = Text(s: string, isValue: bool)

  function RawTexts(items: seq<string>): seq<Text> {
    seq(|items|, i requires 0 <= i < |items| => Text(items[i], false))
  }

  /** Integers and booleans hold no '$' and count as the encoder's text. */
  function Texts(t: Tree, order: KeyOrder): seq<Text>
    decreases t, 1
  {
    match t
    case Leaf(Str(s)) => [Text(s, true)]
    case Leaf(Strs(items)) => RawTexts(items)
    case Leaf(Other(text)) => [Text(text, false)]
    case Leaf(_) => []
    case Map(kids) => TextsOfKeys(t, order(kids.Keys), order)
    case List(items) => TextsOfItems(t, |items|, order)
  }

  function TextsOfKeys(t: Tree, keys: seq<string>, order: KeyOrder): seq<Text>
    requires t.Map?
    decreases t, 0, |keys|
  {
    if keys == [] then []
    else
      (if keys[0] in t.kids then [Text(keys[0], false)] + Texts(t.kids[keys[0]], order) else [])
      + TextsOfKeys(t, keys[1..], order)
  }

  function TextsOfItems(t: Tree, n: nat, order: KeyOrder): seq<Text>
    requires t.List? && n <= |t.items|
    decreases t, 0, n
  {
    if n == 0 then [] else TextsOfItems(t, n - 1, order) + Texts(t.items[n - 1], order)
  }

  function OnFileText(x: Text): Text {
    if x.isValue then Text(Escaped(x.s), true) else x
  }

  function OnFileTexts(xs: seq<Text>): seq<Text> {
    seq(|xs|, i requires 0 <= i < |xs| => OnFileText(xs[i]))
  }

  lemma OnFileConcat(xs: seq<Text>, ys: seq<Text>)
    ensures OnFileTexts(xs + ys) == OnFileTexts(xs) + OnFileTexts(ys)
  {
  }

  /** The escaped document has the same texts, each string value escaped. */
  lemma {:induction false} TextsOfEscaped(t: Tree, order: KeyOrder)
    ensures Texts(EscapedTree(t), order) == OnFileTexts(Texts(t, order))
    decreases t, 1
  {
    match t {
      case Leaf(Strs(items)) => assert OnFileTexts(RawTexts(items)) == RawTexts(items);
      case Leaf(_) =>
      case Map(kids) =>
        assert EscapedTree(t).kids.Keys == kids.Keys;
        TextsOfEscapedKeys(t, order(kids.Keys), order);
      case List(items) => TextsOfEscapedItems(t, |items|, order);
    }
  }

  lemma {:induction false} TextsOfEscapedKeys(t: Tree, keys: seq<string>, order: KeyOrder)
    requires t.Map?
    ensures TextsOfKeys(EscapedTree(t), keys, order) == OnFileTexts(TextsOfKeys(t, keys, order))
    decreases t, 0, |keys|
  {
    if keys != [] {
      var k := keys[0];
      TextsOfEscapedKeys(t, keys[1..], order);
      if k in t.kids {
        TextsOfEscaped(t.kids[k], order);
        OnFileConcat([Text(k, false)], Texts(t.kids[k], order));
        OnFileConcat([Text(k, false)] + Texts(t.kids[k], order), TextsOfKeys(t, keys[1..], order));
      }
    }
  }

  lemma {:induction false} TextsOfEscapedItems(t: Tree, n: nat, order: KeyOrder)
    requires t.List? && n <= |t.items|
    ensures TextsOfItems(EscapedTree(t), n, order) == OnFileTexts(TextsOfItems(t, n, order))
    decreases t, 0, n
  {
    if n > 0 {
      TextsOfEscapedItems(t, n - 1, order);
      TextsOfEscaped(t.items[n - 1], order);
      OnFileConcat(TextsOfItems(t, n - 1, order), Texts(t.items[n - 1], order));
    }
  }

  // ---- Harm, in terms of the document ----

  predicate HarmfulText(x: Text) {
    !x.isValue && Harmful(x.s)
  }

  ghost predicate SomeHarmful(xs: seq<Text>) {
    exists x :: x in xs && HarmfulText(x)
  }

  /** A key, an item of a []string or another scalar that is not a string does harm. */
  predicate HoldsHarm(t: Tree) {
    match t
    case Leaf(Strs(items)) => exists i | 0 <= i < |items| :: Harmful(items[i])
    case Leaf(Other(text)) => Harmful(text)
    case Leaf(_) => false
    case Map(kids) => exists k | k in kids :: Harmful(k) || HoldsHarm(kids[k])
    case List(items) => exists i | 0 <= i < |items| :: HoldsHarm(items[i])
  }

  lemma {:induction false} HarmIsHeld(t: Tree, order: KeyOrder)
    requires ListsKeys(order)
    ensures SomeHarmful(Texts(t, order)) <==> HoldsHarm(t)
    decreases t, 1
  {
    hide Harmful;
    match t {
      case Leaf(Str(s)) =>
      case Leaf(Strs(items)) => RawHarm(items);
      case Leaf(Other(text)) => assert Text(text, false) in Texts(t, order);
      case Leaf(_) =>
      case Map(kids) => HarmOfKeys(t, order(kids.Keys), order);
      case List(items) => HarmOfItems(t, |items|, order);
    }
  }

  lemma RawHarm(items: seq<string>)
    ensures SomeHarmful(RawTexts(items)) <==> exists i :: 0 <= i < |items| && Harmful(items[i])
  {
    hide Harmful;
    forall i | 0 <= i < |items| ensures Text(items[i], false) in RawTexts(items) {
      assert RawTexts(items)[i] == Text(items[i], false);
    }
  }

  lemma SomeHarmfulConcat(xs: seq<Text>, ys: seq<Text>)
    ensures SomeHarmful(xs + ys) <==> SomeHarmful(xs) || SomeHarmful(ys)
  {
    hide Harmful;
    assert forall x :: x in xs + ys <==> x in xs || x in ys;
  }

  lemma {:induction false} HarmOfKeys(t: Tree, keys: seq<string>, order: KeyOrder)
    requires t.Map? && ListsKeys(order)
    ensures SomeHarmful(TextsOfKeys(t, keys, order)) <==>
            exists k :: k in keys && k in t.kids && (Harmful(k) || HoldsHarm(t.kids[k]))
    decreases t, 0, |keys|
  {
    hide Harmful;
    if keys != [] {
      var k := keys[0];
      HarmOfKeys(t, keys[1..], order);
      assert forall j :: j in keys <==> j == k || j in keys[1..];
      if k in t.kids {
        HarmIsHeld(t.kids[k], order);
        SomeHarmfulConcat([Text(k, false)], Texts(t.kids[k], order));
        SomeHarmfulConcat([Text(k, false)] + Texts(t.kids[k], order), TextsOfKeys(t, keys[1..], order));
        assert Text(k, false) in [Text(k, false)];
      }
    }
  }

  lemma {:induction false} HarmOfItems(t: Tree, n: nat, order: KeyOrder)
    requires t.List? && n <= |t.items| && ListsKeys(order)
    ensures SomeHarmful(TextsOfItems(t, n, order)) <==> exists i :: 0 <= i < n && HoldsHarm(t.items[i])
    decreases t, 0, n
  {
    hide Harmful;
    if n > 0 {
      HarmOfItems(t, n - 1, order);
      HarmIsHeld(t.items[n - 1], order);
      SomeHarmfulConcat(TextsOfItems(t, n - 1, order), Texts(t.items[n - 1], order));
    }
  }

  // ---- The file ----

  /** The texts with the encoder's text behind each. */
  function Parts(xs: seq<Text>, after: seq<string>): seq<Part>
    requires |after| == |xs|
  {
    seq(|xs|, i requires 0 <= i < |xs| => Part(xs[i].s, xs[i].isValue, after[i]))
  }

  /** Texts one after the other, as the encoder writes them. */
  function Encoded(xs: seq<Text>, after: seq<string>): string
    requires |after| == |xs|
  {
    if xs == [] then "" else xs[0].s + (after[0] + Encoded(xs[1..], after[1..]))
  }

  /** Encoding the escaped document writes every part as FileText has it. */
  lemma {:induction false} EncodedIsWritten(xs: seq<Text>, after: seq<string>)
    requires |after| == |xs|
    ensures Encoded(OnFileTexts(xs), after) == Written(Parts(xs, after))
  {
    if xs != [] {
      EncodedIsWritten(xs[1..], after[1..]);
      assert OnFileTexts(xs)[1..] == OnFileTexts(xs[1..]);
      assert Parts(xs, after)[1..] == Parts(xs[1..], after[1..]);
    }
  }

  ghost predicate AllSeparate(after: seq<string>) {
    forall a :: a in after ==> a != "" && Closes(a) && '$' !in a
  }

  /** The document is escaped, encoded as one text and expanded: every text comes out as it is
      meant in every environment with the sentinel, if and only if no key, no item of a
      []string and no other unescaped scalar holds a harmful '$'. */
  lemma DocumentIsReadExactly(doc: Tree, order: KeyOrder, after: seq<string>)
    requires ListsKeys(order) && |after| == |Texts(doc, order)| && AllSeparate(after)
    ensures |Texts(EscapedTree(doc), order)| == |after|
    ensures (forall env :: HasSentinel(env) ==>
               Expand(Encoded(Texts(EscapedTree(doc), order), after), env) ==
                   Intended(Parts(Texts(doc, order), after), env))
            <==> !HoldsHarm(doc)
  {
    hide Expand, Intended, Harmful;
    var xs := Texts(doc, order);
    var ps := Parts(xs, after);
    PartsAreSeparated(xs, after);
    TextsOfEscaped(doc, order);
    EncodedIsWritten(xs, after);
    FileIsReadExactly(ps);
    HarmOfParts(xs, after);
    HarmIsHeld(doc, order);
    assert forall env :: FileReadAsMeant(ps, env) <==> Expand(Written(ps), env) == Intended(ps, env);
  }

  lemma PartsAreSeparated(xs: seq<Text>, after: seq<string>)
    requires |after| == |xs| && AllSeparate(after)
    ensures Separated(Parts(xs, after))
  {
  }

  lemma HarmOfParts(xs: seq<Text>, after: seq<string>)
    requires |after| == |xs|
    ensures SomeHarm(Parts(xs, after)) <==> SomeHarmful(xs)
  {
    hide Harmful;
    var ps := Parts(xs, after);
    if SomeHarmful(xs) {
      var x :| x in xs && HarmfulText(x);
      var i :| 0 <= i < |xs| && xs[i] == x;
      assert !ps[i].escaped && Harmful(ps[i].value);
    }
    if SomeHarm(ps) {
      var i :| 0 <= i < |ps| && !ps[i].escaped && Harmful(ps[i].value);
      assert xs[i] in xs && HarmfulText(xs[i]);
    }
  }

  /** The includes that volume discovery rewrote are a []string, which the walk does not enter:
      they go to the file as they are, and every one of them is read as it is meant in every
      environment if and only if none holds a harmful '$'. */
  lemma RewrittenIncludesAreReadExactly(items: seq<string>, t: string)
    requires Closes(t)
    ensures EscapedTree(Leaf(Strs(items))) == Leaf(Strs(items)) && !HasBare(Leaf(Strs(items)))
    ensures (forall k, env :: 0 <= k < |items| ==> ReadApart(items[k], t, env)) <==> !HoldsHarm(Leaf(Strs(items)))
  {
    hide Harmful, ReadApart;
    forall k | 0 <= k < |items| ensures (forall env :: ReadApart(items[k], t, env)) <==> !Harmful(items[k]) {
      HarmlessExactly(items[k], t);
    }
  }

  // ---- With the environment that the engine is given ----

  ghost predicate ValueIn(xs: seq<Text>, s: string) {
    Text(s, true) in xs
  }

  /** The string values are those that the walk finds. */
  lemma {:induction false} ValuesAreFound(t: Tree, order: KeyOrder, s: string)
    requires ValueIn(Texts(t, order), s) && Bare(s)
    ensures HasBare(t)
    decreases t, 1
  {
    hide Bare;
    match t {
      case Leaf(_) =>
      case Map(kids) => ValuesOfKeys(t, order(kids.Keys), order, s);
      case List(items) => ValuesOfItems(t, |items|, order, s);
    }
  }

  lemma {:induction false} ValuesOfKeys(t: Tree, keys: seq<string>, order: KeyOrder, s: string)
    requires t.Map? && ValueIn(TextsOfKeys(t, keys, order), s) && Bare(s)
    ensures HasBare(t)
    decreases t, 0, |keys|
  {
    hide Bare;
    var k := keys[0];
    if ValueIn(TextsOfKeys(t, keys[1..], order), s) {
      ValuesOfKeys(t, keys[1..], order, s);
    } else {
      ValuesAreFound(t.kids[k], order, s);
    }
  }

  lemma {:induction false} ValuesOfItems(t: Tree, n: nat, order: KeyOrder, s: string)
    requires t.List? && n <= |t.items| && ValueIn(TextsOfItems(t, n, order), s) && Bare(s)
    ensures HasBare(t)
    decreases t, 0, n
  {
    hide Bare;
    if ValueIn(TextsOfItems(t, n - 1, order), s) {
      ValuesOfItems(t, n - 1, order, s);
    } else {
      ValuesAreFound(t.items[n - 1], order, s);
    }
  }

  /** The sentinel is needed only if the walk escaped something. */
  lemma DocumentIsRead(doc: Tree, order: KeyOrder, after: seq<string>, env: Env)
    requires ListsKeys(order) && |after| == |Texts(doc, order)| && AllSeparate(after)
    requires !HoldsHarm(doc) && (HasBare(doc) ==> HasSentinel(env))
    ensures |Texts(EscapedTree(doc), order)| == |after|
    ensures Expand(Encoded(Texts(EscapedTree(doc), order), after), env) ==
            Intended(Parts(Texts(doc, order), after), env)
  {
    hide Expand, Intended, Harmful, Bare;
    var xs := Texts(doc, order);
    var ps := Parts(xs, after);
    PartsAreSeparated(xs, after);
    TextsOfEscaped(doc, order);
    EncodedIsWritten(xs, after);
    HarmOfParts(xs, after);
    HarmIsHeld(doc, order);
    forall i | 0 <= i < |ps| && ps[i].escaped && Bare(ps[i].value) ensures HasSentinel(env) {
      assert Text(xs[i].s, true) in xs;
      ValuesAreFound(doc, order, xs[i].s);
    }
    FileIsRead(ps, env);
  }

  // ---- A document that is not read as meant ----

  /** Unescaped text that opens a brace reaches over an escaped value up to its first dollar,
      whose sentinel closes the brace. */
  lemma SentinelClosesBrace(n: string, u: string, w: string, t: string, env: Env)
    requires n != "" && '}' !in n && '}' !in u && '$' !in u && RefLen(w) == 0
    ensures Expand("${" + n + (Escaped(u + ("$" + w)) + t), env) ==
            Getenv(env, n + u + "${GB_DOLLAR") + Expand(Escaped(w) + t, env)
  {
    hide Expand, Escaped, RefLen;
    EscapedPlain(u, "$" + w);
    EscapedDollar(w);
    var name := n + u + "${GB_DOLLAR";
    assert SENTINEL_REF == "${GB_DOLLAR" + "}";
    assert "${" + n + (Escaped(u + ("$" + w)) + t) == "${" + name + "}" + (Escaped(w) + t);
    OpenBraceSwallows(name, Escaped(w) + t, env);
  }

  lemma EscapedDollar(w: string)
    requires RefLen(w) == 0
    ensures Escaped("$" + w) == SENTINEL_REF + Escaped(w)
  {
    hide Escaped, RefLen;
    var s := "$" + w;
    assert s[1..] == w && s[HeadLen(s)..] == w;
    EscapedStep(s);
  }

  lemma {:induction false} EscapedPlain(u: string, s: string)
    requires '$' !in u
    ensures Escaped(u + s) == u + Escaped(s)
  {
    hide Escaped;
    if u == "" {
      assert u + s == s;
    } else {
      var t := u + s;
      assert t[0] == u[0] && u[0] in u && t[1..] == u[1..] + s && t[..1] == [u[0]];
      EscapedStep(t);
      EscapedPlain(u[1..], s);
      Assoc([u[0]], u[1..], Escaped(s));
      assert [u[0]] + u[1..] == u;
    }
  }

  /** A rewritten include with an open brace, and a password behind it. */
  const LOSSY := Map(map["includes" := Leaf(Strs(["${a"])), "password" := Leaf(Str("p$5"))])

  function LossyOrder(ks: set<string>): seq<string> {
    if ks == {"includes", "password"} then ["includes", "password"] else []
  }

  const LOSSY_AFTER := [":\n- ", "\n", ": ", "\n"]

  /** Of this document the engine reads neither the include nor the password. */
  lemma NeighbourIsLost(env: Env)
    requires "a\npassword: p${GB_DOLLAR" !in env
    ensures HoldsHarm(LOSSY)
    ensures |Texts(EscapedTree(LOSSY), LossyOrder)| == |LOSSY_AFTER|
    ensures Encoded(Texts(EscapedTree(LOSSY), LossyOrder), LOSSY_AFTER) ==
            "includes:\n- ${a\npassword: " + Escaped("p$5") + "\n"
    ensures Expand(Encoded(Texts(EscapedTree(LOSSY), LossyOrder), LOSSY_AFTER), env) == "includes:\n- 5\n"
  {
    hide Expand, Escaped, RefLen, Encoded, Texts, Bare, Harmful, HoldsHarm;
    LossyTexts();
    LossyHarm();
    LossyFile(Escaped("p$5"));
    LossyIsRead(env);
  }

  lemma LossyIsRead(env: Env)
    requires "a\npassword: p${GB_DOLLAR" !in env
    ensures Expand("includes:\n- ${a\npassword: " + Escaped("p$5") + "\n", env) == "includes:\n- 5\n"
  {
    hide Expand, Escaped, RefLen;
    var head, n := "includes:\n- ", "a\npassword: ";
    ShortRefs();
    SentinelClosesBrace(n, "p", "5", "\n", env);
    assert "p" + ("$" + "5") == "p$5" && n + "p" + "${GB_DOLLAR" == "a\npassword: p${GB_DOLLAR";
    assert "includes:\n- ${a\npassword: " + Escaped("p$5") + "\n" == head + ("${" + n + (Escaped("p$5") + "\n"));
    ExpandPlain(head, "${" + n + (Escaped("p$5") + "\n"), env);
    FiveIsRead(env);
  }

  lemma FiveIsRead(env: Env)
    ensures Expand(Escaped("5") + "\n", env) == "5\n"
  {
    hide Expand, Escaped;
    EscapedPlain("5", "");
    EscapedNothing();
    ExpandPlain("5\n", "", env);
    NothingMeant(env);
    assert "5" + "" == "5" && "5" + "\n" == "5\n" == "5\n" + "";
  }

  lemma ShortRefs()
    ensures RefLen("5") == 0
  {
  }

  lemma OpenBraceIsHarmful()
    ensures Harmful("${a")
  {
    var s := "${a";
    assert s[1..] == "{a" && "{a"[1..] == "a" && "a"[1..] == "";
    assert NameRun("a") == 1 + NameRun("");
    assert HarmfulAt(s, 0);
  }

  lemma LossyHarm()
    ensures HoldsHarm(LOSSY)
  {
    hide Harmful;
    OpenBraceIsHarmful();
    var items := ["${a"];
    assert Harmful(items[0]);
    assert "includes" in LOSSY.kids && LOSSY.kids["includes"] == Leaf(Strs(items));
    assert HoldsHarm(Leaf(Strs(items)));
  }

  lemma LossyTexts()
    ensures Texts(EscapedTree(LOSSY), LossyOrder) ==
            [Text("includes", false), Text("${a", false), Text("password", false), Text(Escaped("p$5"), true)]
  {
    hide Escaped;
    var t := EscapedTree(LOSSY);
    assert t.kids.Keys == {"includes", "password"};
    assert t.kids["includes"] == Leaf(Strs(["${a"]));
    assert t.kids["password"] == Leaf(Str(Escaped("p$5")));
    var keys := ["includes", "password"];
    assert keys[1..] == ["password"] && ["password"][1..] == [];
    assert TextsOfKeys(t, [], LossyOrder) == [];
    assert TextsOfKeys(t, ["password"], LossyOrder) == [Text("password", false), Text(Escaped("p$5"), true)];
    assert Texts(t.kids["includes"], LossyOrder) == RawTexts(["${a"]) == [Text("${a", false)];
    assert TextsOfKeys(t, keys, LossyOrder) ==
           [Text("includes", false)] + [Text("${a", false)] + [Text("password", false), Text(Escaped("p$5"), true)];
  }

  lemma LossyFile(e: string)
    ensures Encoded([Text("includes", false), Text("${a", false), Text("password", false), Text(e, true)],
            LOSSY_AFTER) ==
            "includes:\n- ${a\npassword: " + e + "\n"
  {
    assert Encoded([], []) == "";
    hide Encoded;
    var last := "password" + (": " + (e + ("\n" + "")));
    EncodedMore(Text(e, true), [], "\n", []);
    EncodedMore(Text("password", false), [Text(e, true)], ": ", ["\n"]);
    EncodedMore(Text("${a", false), [Text("password", false), Text(e, true)], "\n", [": ", "\n"]);
    EncodedMore(Text("includes", false), [Text("${a", false), Text("password", false), Text(e, true)], ":\n- ",
        ["\n", ": ", "\n"]);
    assert "includes" + (":\n- " + ("${a" + ("\n" + last))) == "includes:\n- ${a\npassword: " + e + "\n";
  }

  lemma EncodedMore(x: Text, xs: seq<Text>, a: string, after: seq<string>)
    requires |after| == |xs|
    ensures Encoded([x] + xs, [a] + after) == x.s + (a + Encoded(xs, after))
  {
    assert ([x] + xs)[1..] == xs && ([a] + after)[1..] == after;
  }
}
