// internal/labels/parse.go: a container's flat gobackup.* labels become one model tree. The
// labels come out of a map, so in any order.
module Labels {
  import opened Wrappers
  import opened Text
  import opened Trees
  import opened Document
  import opened Paths

  datatype CredKind = Env | File

  datatype CredRef = CredRef(path: Path, kind: CredKind, ref: string)

  const CRED_KEYS := {"password", "token", "secret", "access_key", "secret_key"}

  function CredentialSuffix(seg: string): Option<(string, CredKind)> {
    var env, file := CutSuffix(seg, "_env"), CutSuffix(seg, "_file");
    if env.Some? && env.value in CRED_KEYS then Some((env.value, Env))
    else if file.Some? && file.value in CRED_KEYS then Some((file.value, File))
    else None
  }

  function CredRefOf(parts: seq<string>, value: string): Option<CredRef> {
    if |parts| < 2 then None
    else
      var last := |parts| - 1;
      match CredentialSuffix(parts[last])
      case None => None
      case Some((base, kind)) => Some(CredRef(parts[..last] + [base], kind, value))
  }

  /** The label segment a credential reference was read from. */
  function Suffixed(base: string, kind: CredKind): string {
    base + match kind { case Env => "_env" case File => "_file" }
  }

  /** A segment refers to a credential exactly when it is one of the ten spelled-out names, so
      a key such as credentials_file is left to the engine. */
  lemma SuffixIsExact(seg: string)
    ensures CredentialSuffix(seg).None? <==> forall b, k :: b in CRED_KEYS ==> seg != Suffixed(b, k)
    ensures CredentialSuffix(seg).Some? ==>
              var (b, k) := CredentialSuffix(seg).value; b in CRED_KEYS && seg == Suffixed(b, k)
  {
    if CredentialSuffix(seg).Some? {
      var (b, k) := CredentialSuffix(seg).value;
      assert seg == Suffixed(b, k);
    }
    forall b, k | b in CRED_KEYS && seg == Suffixed(b, k) ensures CredentialSuffix(seg).Some? {
      match k {
        case Env => assert seg[|seg| - 4..] == "_env" && seg[..|seg| - 4] == b;
        case File => assert seg[|seg| - 5..] == "_file" && seg[..|seg| - 5] == b;
      }
    }
  }

  // ---- what each label is ----

  const PREFIX := "gobackup."

  datatype Entry = Entry(path: Path, value: string)

  datatype Label = Foreign | Enable | Name | Instance | Profile | Cred(ref: CredRef) | Config(entry: Entry)

  function Classify(k: string, v: string): Label {
    var rest := CutPrefix(k, PREFIX);
    if rest.None? || rest.value == "" then Foreign
    else if rest.value == "enable" then Enable
    else if rest.value == "name" then Name
    else if rest.value == "instance" then Instance
    else if rest.value == "profile" then Profile
    else
      var parts := Split(rest.value, '.');
      match CredRefOf(parts, v)
      case Some(ref) => Cred(ref)
      case None => Config(Entry(parts, v))
  }

  /** The model entries, and the credential references, of the labels with the given keys. */
  function Entries(labels: map<string, string>, keys: set<string>): set<Entry> {
    set k | k in keys && k in labels && Classify(k, labels[k]).Config? :: Classify(k, labels[k]).entry
  }

  function Creds(labels: map<string, string>, keys: set<string>): set<CredRef> {
    set k | k in keys && k in labels && Classify(k, labels[k]).Cred? :: Classify(k, labels[k]).ref
  }

  /** A label is known from what it was read as. */
  lemma LabelOfEntry(k: string, v: string)
    requires Classify(k, v).Config?
    ensures k == PREFIX + Join(Classify(k, v).entry.path, '.')
    ensures Classify(k, v).entry.path != []
  {
    JoinSplit(CutPrefix(k, PREFIX).value, '.');
  }

  lemma LabelOfCred(k: string, v: string)
    requires Classify(k, v).Cred?
    ensures |Classify(k, v).ref.path| >= 2
    ensures var r := Classify(k, v).ref; var last := |r.path| - 1;
            k == PREFIX + Join(r.path[..last] + [Suffixed(r.path[last], r.kind)], '.')
  {
    var rest := CutPrefix(k, PREFIX).value;
    var parts := Split(rest, '.');
    var last := |parts| - 1;
    var r := CredRefOf(parts, v).value;
    JoinSplit(rest, '.');
    SuffixIsExact(parts[last]);
    assert r.path[..last] + [Suffixed(r.path[last], r.kind)] == parts[..last] + [parts[last]] == parts;
  }

  // ---- labels by their spelling ----

  /** The segments of a label name behind "gobackup.". */
  predicate Segments(p: Path) { p != [] && forall s :: s in p ==> '.' !in s }

  predicate MetaPath(p: Path) {
    p == [""] || p == ["enable"] || p == ["name"] || p == ["instance"] || p == ["profile"]
  }

  predicate CredName(base: string) {
    || base == "password" || base == "token" || base == "secret"
    || base == "access_key" || base == "secret_key"
  }

  /** The segment asks for the value of the key base. */
  predicate AsksFor(seg: string, base: string, kind: CredKind) {
    CredName(base) && seg == base + if kind.Env? then "_env" else "_file"
  }

  ghost predicate CredSegment(seg: string) {
    exists base, kind :: AsksFor(seg, base, kind)
  }

  /** A reference's last segment, behind another one. */
  ghost predicate CredPath(p: Path) {
    |p| >= 2 && CredSegment(p[|p| - 1])
  }

  /** The path of a label whose value goes to the model. */
  ghost predicate ConfigPath(p: Path) {
    Segments(p) && !MetaPath(p) && !CredPath(p)
  }

  lemma CutBoth(base: string)
    ensures CutSuffix(base + "_env", "_env") == Some(base) && CutSuffix(base + "_file", "_file") == Some(base)
    ensures CutSuffix(base + "_file", "_env").None?
  {
    var e, f := base + "_env", base + "_file";
    assert e[|e| - 4..] == "_env" && e[..|e| - 4] == base;
    assert f[|f| - 5..] == "_file" && f[..|f| - 5] == base;
    assert f[|f| - 4..][3] == 'e';
  }

  lemma SuffixByName(seg: string)
    ensures CredentialSuffix(seg).Some? ==>
              AsksFor(seg, CredentialSuffix(seg).value.0, CredentialSuffix(seg).value.1)
    ensures forall base, kind :: AsksFor(seg, base, kind) ==> CredentialSuffix(seg) == Some((base, kind))
  {
    hide CutSuffix;
    forall base, kind | AsksFor(seg, base, kind) ensures CredentialSuffix(seg) == Some((base, kind)) {
      CutBoth(base);
      assert base in CRED_KEYS;
    }
  }

  /** What a label is, by the segments of its name. */
  lemma ClassifyByPath(p: Path, v: string)
    requires Segments(p)
    ensures var c := Classify("gobackup." + Join(p, '.'), v);
            && (ConfigPath(p) ==> c == Config(Entry(p, v)))
            && (MetaPath(p) ==> !c.Config? && !c.Cred?)
            && (CredPath(p) ==>
                  && c.Cred? && c.ref.ref == v && |c.ref.path| == |p|
                  && c.ref.path[..|p| - 1] == p[..|p| - 1] && AsksFor(p[|p| - 1], c.ref.path[|p| - 1], c.ref.kind))
  {
    hide Split, Join, CredentialSuffix;
    var rest := Join(p, '.');
    SplitJoin(p, '.');
    assert CutPrefix("gobackup." + rest, PREFIX) == Some(rest) by {
      assert ("gobackup." + rest)[|PREFIX|..] == rest;
    }
    JoinOne(p);
    SuffixByName(p[|p| - 1]);
  }

  lemma JoinOne(p: Path)
    requires Segments(p)
    ensures |p| == 1 ==> Join(p, '.') == p[0]
    ensures |p| > 1 ==> '.' in Join(p, '.')
  {
  }

  /** Only names of this form are read at all. */
  lemma ClassifiedHasPath(k: string, v: string)
    requires Classify(k, v).Config? || Classify(k, v).Cred?
    ensures exists p :: Segments(p) && k == "gobackup." + Join(p, '.')
  {
    hide Split, Join;
    var rest := CutPrefix(k, PREFIX).value;
    JoinSplit(rest, '.');
    SplitParts(rest, '.');
    assert Segments(Split(rest, '.'));
  }

  lemma OnePath(p: Path, q: Path)
    requires Segments(p) && Segments(q) && "gobackup." + Join(p, '.') == "gobackup." + Join(q, '.')
    ensures p == q
  {
    hide Join, Split;
    assert ("gobackup." + Join(p, '.'))[9..] == Join(p, '.') && ("gobackup." + Join(q, '.'))[9..] == Join(q, '.');
    SplitJoin(p, '.');
    SplitJoin(q, '.');
  }

  /** A label goes to the model exactly if it is gobackup. and the segments of such a path; then it
      goes there. */
  lemma ConfigExactly(k: string, v: string, e: Entry)
    ensures Classify(k, v) == Config(e) <==>
            ConfigPath(e.path) && k == "gobackup." + Join(e.path, '.') && e.value == v
  {
    hide Classify, Join, Segments, MetaPath, CredPath;
    if Classify(k, v) == Config(e) {
      ClassifiedHasPath(k, v);
      var p :| Segments(p) && k == "gobackup." + Join(p, '.');
      ClassifyByPath(p, v);
    }
    if ConfigPath(e.path) && k == "gobackup." + Join(e.path, '.') { ClassifyByPath(e.path, v); }
  }

  /** The label's value goes to the model. */
  ghost predicate ConfigKey(k: string) {
    exists p :: ConfigPath(p) && k == "gobackup." + Join(p, '.')
  }

  lemma ConfigKeyExactly(k: string, v: string)
    ensures Classify(k, v).Config? <==> ConfigKey(k)
  {
    hide Classify, Join, ConfigPath;
    if Classify(k, v).Config? { ConfigExactly(k, v, Classify(k, v).entry); }
    if p :| ConfigPath(p) && k == "gobackup." + Join(p, '.') { ConfigExactly(k, v, Entry(p, v)); }
  }

  /** A label is a reference exactly if its last segment, behind another one, is one of the ten names; it
      asks for the key that this names, in the label's value. */
  lemma CredExactly(k: string, v: string, r: CredRef)
    ensures Classify(k, v) == Cred(r) <==> r.ref == v && NamesCred(k, r)
  {
    hide Classify, Join, Segments, MetaPath;
    if Classify(k, v) == Cred(r) {
      ClassifiedHasPath(k, v);
      var p :| Segments(p) && k == "gobackup." + Join(p, '.');
      ClassifyByPath(p, v);
      assert NamesCredBy(k, r, p);
    }
    if r.ref == v && NamesCred(k, r) {
      var p :| NamesCredBy(k, r, p);
      ClassifyByPath(p, v);
      CredIsConfig(p);
      var c := Classify(k, v);
      assert c.ref.path == r.path && c.ref.kind == r.kind by {
        OneAsked(p[|p| - 1], c.ref.path[|p| - 1], c.ref.kind, r.path[|p| - 1], r.kind);
        assert c.ref.path == c.ref.path[..|p| - 1] + [c.ref.path[|p| - 1]];
        assert r.path == r.path[..|p| - 1] + [r.path[|p| - 1]];
      }
    }
  }

  lemma CredIsConfig(p: Path)
    requires CredPath(p)
    ensures !ConfigPath(p)
  {
  }

  lemma OneAsked(seg: string, a: string, j: CredKind, b: string, k: CredKind)
    requires AsksFor(seg, a, j) && AsksFor(seg, b, k)
    ensures a == b && j == k
  {
    SuffixByName(seg);
  }

  /** The label's name is gobackup. and these segments, the last one asking for the reference's key. */
  ghost predicate NamesCredBy(k: string, r: CredRef, p: Path) {
    && Segments(p) && |p| >= 2 && |r.path| == |p| && k == "gobackup." + Join(p, '.')
    && r.path[..|p| - 1] == p[..|p| - 1] && AsksFor(p[|p| - 1], r.path[|p| - 1], r.kind)
  }

  ghost predicate NamesCred(k: string, r: CredRef) {
    exists p :: NamesCredBy(k, r, p)
  }

  // ---- the tree that comes of it ----

  function Assigned(es: seq<Entry>): Tree
    requires forall e :: e in es ==> e.path != []
  {
    if es == [] then EMPTY
    else var n := |es| - 1; SetAt(Assigned(es[..n]), es[n].path, Leaf(Str(es[n].value)))
  }

  /** No path is, or leads into, another. */
  ghost predicate PrefixFree(s: set<Entry>) {
    forall d, e :: d in s && e in s && d != e ==> !(d.path <= e.path)
  }

  /** What the entries say is at q. */
  ghost predicate Says(s: set<Entry>, q: Path, v: string) {
    Entry(q, v) in s
  }

  ghost predicate LeadsIn(s: set<Entry>, q: Path) {
    q == [] || exists e :: e in s && q < e.path
  }

  ghost predicate Agrees(t: Tree, s: set<Entry>) {
    forall q :: AgreesAt(KindAt(t, q), s, q)
  }

  ghost predicate AgreesAt(kind: Kind, s: set<Entry>, q: Path) {
    && (forall v :: Says(s, q, v) <==> kind == Holds(Leaf(Str(v))))
    && (LeadsIn(s, q) <==> kind == Inner)
    && (kind.Holds? ==> kind.t.Leaf? && kind.t.scalar.Str?)
  }

  function ToSet<T>(s: seq<T>): set<T> { set x | x in s }

  /** The tree holds the entries' values at their paths, maps above them and nothing else. */
  lemma {:induction false} AssignedAgrees(es: seq<Entry>)
    requires forall e :: e in es ==> e.path != []
    requires PrefixFree(ToSet(es)) && NoDup(es)
    ensures Agrees(Assigned(es), ToSet(es))
  {
    if es == [] {
      forall q ensures AgreesAt(KindAt(EMPTY, q), {}, q) {
        if q != [] { EmptyAt(q); }
      }
    } else {
      var n := |es| - 1;
      var e, before := es[n], es[..n];
      assert ToSet(es) == ToSet(before) + {e};
      assert e !in before;
      AssignedAgrees(before);
      forall q ensures AgreesAt(KindAt(Assigned(es), q), ToSet(es), q) {
        AssignOne(Assigned(before), ToSet(before), e, q);
      }
    }
  }

  predicate NoDup<T(==)>(s: seq<T>) {
    forall i, j | 0 <= i < j < |s| :: s[i] != s[j]
  }

  lemma AssignOne(t: Tree, s: set<Entry>, e: Entry, q: Path)
    requires Agrees(t, s) && e.path != [] && e !in s && PrefixFree(s + {e})
    ensures AgreesAt(KindAt(SetAt(t, e.path, Leaf(Str(e.value))), q), s + {e}, q)
  {
    var t' := SetAt(t, e.path, Leaf(Str(e.value)));
    SetAtMeaning(t, e.path, Leaf(Str(e.value)), q);
    assert AgreesAt(KindAt(t, q), s, q);
    if q == e.path {
      assert KindAt(t', q) == Holds(Leaf(Str(e.value)));
    } else if e.path < q {
      assert KindAt(t', q) == Absent;
    } else if q < e.path {
      assert KindAt(t', q) == Inner;
      assert LeadsIn(s + {e}, q);
    } else {
      assert KindAt(t', q) == KindAt(t, q);
    }
  }

  /** Two trees that agree with the same entries are the same. */
  lemma AgreementDecides(s: Tree, t: Tree, es: set<Entry>)
    requires Agrees(s, es) && Agrees(t, es)
    ensures s == t
  {
    forall q ensures KindAt(s, q) == KindAt(t, q) {
      assert AgreesAt(KindAt(s, q), es, q) && AgreesAt(KindAt(t, q), es, q);
      if KindAt(s, q).Holds? {
        assert Says(es, q, KindAt(s, q).t.scalar.s);
      } else if KindAt(t, q).Holds? {
        assert Says(es, q, KindAt(t, q).t.scalar.s);
      }
    }
    KindsDecide(s, t);
  }

  // ---- the order of the labels ----

  /** es lists the entries, each once. */
  ghost predicate Lists(es: seq<Entry>, s: set<Entry>) {
    NoDup(es) && ToSet(es) == s
  }

  ghost predicate WellFormed(s: set<Entry>) {
    forall e :: e in s ==> e.path != []
  }

  ghost predicate OrderFree(s: set<Entry>)
    requires WellFormed(s)
  {
    forall a, b :: Lists(a, s) && Lists(b, s) ==> Assigned(a) == Assigned(b)
  }

  /** The order does not matter exactly when no entry's path is, or leads into, another's. */
  lemma OrderFreeExactly(s: set<Entry>)
    requires WellFormed(s)
    ensures OrderFree(s) <==> PrefixFree(s)
  {
    if PrefixFree(s) {
      forall a, b | Lists(a, s) && Lists(b, s) ensures Assigned(a) == Assigned(b) {
        AssignedAgrees(a);
        AssignedAgrees(b);
        AgreementDecides(Assigned(a), Assigned(b), s);
      }
    } else {
      var d, e :| d in s && e in s && d != e && d.path <= e.path;
      OrderMatters(s, d, e);
    }
  }

  lemma OrderMatters(s: set<Entry>, d: Entry, e: Entry)
    requires WellFormed(s) && d in s && e in s && d != e && d.path <= e.path
    ensures !OrderFree(s)
  {
    hide SetAt, Assigned;
    var rest := Listing(s - {d, e});
    var a, b := rest + [d, e], rest + [e, d];
    ListsTwoMore(rest, s, d, e);
    ListsTwoMore(rest, s, e, d);
    AssignedLast(a);
    AssignedLast(b);
    SetAtMeaning(Assigned(a[..|a| - 1]), e.path, Leaf(Str(e.value)), e.path);
    SetAtMeaning(Assigned(b[..|b| - 1]), d.path, Leaf(Str(d.value)), e.path);
    assert At(Assigned(a), e.path) == Some(Leaf(Str(e.value)));
    assert At(Assigned(b), e.path) == At(Leaf(Str(d.value)), e.path[|d.path|..]);
  }

  lemma AssignedLast(es: seq<Entry>)
    requires es != [] && forall e :: e in es ==> e.path != []
    ensures var n := |es| - 1; Assigned(es) == SetAt(Assigned(es[..n]), es[n].path, Leaf(Str(es[n].value)))
  {
  }

  lemma ListsTwoMore(rest: seq<Entry>, s: set<Entry>, d: Entry, e: Entry)
    requires Lists(rest, s - {d, e}) && d in s && e in s && d != e
    ensures Lists(rest + [d, e], s)
  {
    assert forall x :: x in rest ==> x in ToSet(rest);
    assert ToSet(rest + [d, e]) == ToSet(rest) + {d, e};
  }

  /** Some order. */
  ghost function Listing(s: set<Entry>): (es: seq<Entry>)
    ensures Lists(es, s)
  {
    if s == {} then []
    else
      var e :| e in s;
      var rest := Listing(s - {e});
      assert forall x :: x in rest ==> x in ToSet(rest);
      assert ToSet(rest + [e]) == ToSet(rest) + {e};
      rest + [e]
  }

  // ---- in terms of the labels ----

  lemma EntriesAreWellFormed(labels: map<string, string>, keys: set<string>)
    ensures WellFormed(Entries(labels, keys))
  {
    forall k | k in keys && k in labels && Classify(k, labels[k]).Config?
      ensures Classify(k, labels[k]).entry.path != []
    {
      LabelOfEntry(k, labels[k]);
    }
  }

  /** A config label, and it with a dot behind it begins another. */
  ghost predicate Clash(labels: map<string, string>, j: string, k: string) {
    j in labels && k in labels && ConfigKey(j) && ConfigKey(k) && j + "." <= k
  }

  lemma ClashIsPrefix(j: string, k: string, v: string, w: string)
    requires Classify(j, v).Config? && Classify(k, w).Config?
    ensures Classify(j, v).entry.path <= Classify(k, w).entry.path <==> j == k || j + "." <= k
  {
    hide Classify, CutPrefix, Split, Join;
    PathOfConfig(j, v);
    PathOfConfig(k, w);
    var a, b := CutPrefix(j, PREFIX).value, CutPrefix(k, PREFIX).value;
    SplitPrefix(a, b, '.');
    JoinSplit(a, '.');
    JoinSplit(b, '.');
    assert j + "." == PREFIX + (a + ['.']) && k == PREFIX + b;
    PrefixUnder(PREFIX, a + ['.'], b);
    assert Split(a, '.') == Split(b, '.') <==> a == b;
    PrefixUnder(PREFIX, a, b);
    PrefixUnder(PREFIX, b, a);
    assert j == k <==> a == b;
  }

  lemma PathOfConfig(k: string, v: string)
    requires Classify(k, v).Config?
    ensures CutPrefix(k, PREFIX).Some? && k == PREFIX + CutPrefix(k, PREFIX).value
    ensures Classify(k, v).entry.path == Split(CutPrefix(k, PREFIX).value, '.')
  {
    hide Split;
  }

  lemma PrefixUnder(p: string, a: string, b: string)
    ensures p + a <= p + b <==> a <= b
  {
    assert (p + a)[|p|..] == a && (p + b)[|p|..] == b;
    if p + a <= p + b { assert p + b == p + a + (p + b)[|p + a|..]; assert b == a + (p + b)[|p + a|..]; }
    if a <= b { assert b == a + b[|a|..]; assert p + b == p + a + b[|a|..]; }
  }

  /** Reading labels does not depend on their order exactly when no config label, with a dot
      behind it, begins another. */
  lemma ParsingIsOrderFreeExactly(labels: map<string, string>)
    ensures WellFormed(Entries(labels, labels.Keys))
    ensures OrderFree(Entries(labels, labels.Keys)) <==> forall j, k :: !Clash(labels, j, k)
  {
    var s := Entries(labels, labels.Keys);
    EntriesAreWellFormed(labels, labels.Keys);
    OrderFreeExactly(s);
    forall j | j in labels ensures Classify(j, labels[j]).Config? <==> ConfigKey(j) { ConfigKeyExactly(j, labels[j]); }
    forall j, k | Clash(labels, j, k) ensures !PrefixFree(s) {
      ClashIsPrefix(j, k, labels[j], labels[k]);
      LabelOfEntry(j, labels[j]);
      LabelOfEntry(k, labels[k]);
      assert Classify(j, labels[j]).entry in s && Classify(k, labels[k]).entry in s;
    }
    if !PrefixFree(s) {
      var d, e :| d in s && e in s && d != e && d.path <= e.path;
      var j :| j in labels && Classify(j, labels[j]).Config? && d == Classify(j, labels[j]).entry;
      var k :| k in labels && Classify(k, labels[k]).Config? && e == Classify(k, labels[k]).entry;
      ClashIsPrefix(j, k, labels[j], labels[k]);
      assert Clash(labels, j, k);
    }
  }

  // ---- Parse ----

  function ParseBool(v: string, fallback: bool): bool {
    var w := ToLower(TrimSpace(v));
    if w in {"true", "1", "yes", "on", "enable", "enabled"} then true
    else if w in {"false", "0", "no", "off", "disable", "disabled"} then false
    else fallback
  }

  /** Without the spaces around it the text is one of the words, in any letter case. */
  ghost predicate IsOneOf(v: string, words: set<string>) {
    exists t, w :: w in words && Trims(v, t) && Folds(t, w)
  }

  lemma OneOfExactly(v: string, words: set<string>)
    requires forall w, c :: w in words && c in w ==> !('A' <= c <= 'Z')
    ensures IsOneOf(v, words) <==> ToLower(TrimSpace(v)) in words
  {
    hide Folds, Trims, ToLower, TrimSpace;
    TrimExactly(v, TrimSpace(v));
    forall t, w | w in words && Trims(v, t) ensures Folds(t, w) <==> ToLower(TrimSpace(v)) == w {
      TrimExactly(v, t);
      FoldsExactly(t, w);
    }
  }

  /** A switch is on or off by these words, and otherwise as it was. */
  lemma ParseBoolExactly(v: string, fallback: bool)
    ensures ParseBool(v, fallback) <==>
            || IsOneOf(v, {"true", "1", "yes", "on", "enable", "enabled"})
            || (fallback && !IsOneOf(v, {"false", "0", "no", "off", "disable", "disabled"}))
  {
    hide ToLower, TrimSpace, IsOneOf;
    OneOfExactly(v, {"true", "1", "yes", "on", "enable", "enabled"});
    OneOfExactly(v, {"false", "0", "no", "off", "disable", "disabled"});
  }

  function Get(labels: map<string, string>, keys: set<string>, k: string, fallback: string): string {
    if k in keys && k in labels then labels[k] else fallback
  }

  datatype Parsed = Parsed(enabled: bool, name: string, instance: string, profile: string, model: MapNode,
                           credRefs: seq<CredRef>)

  ghost predicate MetaSoFar(labels: map<string, string>, keys: set<string>, exposed: bool, p: Parsed) {
    && p.enabled == (if PREFIX + "enable" in keys then ParseBool(Get(labels, keys, PREFIX + "enable", ""), exposed)
          else exposed)
    && p.name == Get(labels, keys, PREFIX + "name", "")
    && p.instance == Get(labels, keys, PREFIX + "instance", "")
    && p.profile == Get(labels, keys, PREFIX + "profile", "")
  }

  /** The model entries came in the order es and made the tree of sh. */
  ghost predicate EntriesSoFar(labels: map<string, string>, keys: set<string>, es: seq<Entry>, sh: Shape) {
    WellFormed(Entries(labels, keys)) && Lists(es, Entries(labels, keys)) && TreeOf(sh) == Assigned(es)
  }

  /** What the labels with the given keys make of a container. */
  ghost predicate ReadSoFar(labels: map<string, string>, keys: set<string>, exposed: bool, p: Parsed, es: seq<Entry>,
                            sh: Shape) {
    && MetaSoFar(labels, keys, exposed, p)
    && multiset(p.credRefs) == multiset(Creds(labels, keys))
    && EntriesSoFar(labels, keys, es, sh)
  }

  method Parse(labels: map<string, string>, exposedByDefault: bool)
    returns (p: Parsed, ghost es: seq<Entry>, ghost sh: Shape)
    ensures Rep(Obj(p.model), sh) && fresh(Foot(sh))
    ensures ReadSoFar(labels, labels.Keys, exposedByDefault, p, es, sh)
  {
    hide ReadSoFar;
    var model := new MapNode();
    NothingRead(labels, exposedByDefault, model);
    p := Parsed(exposedByDefault, "", "", "", model, []);
    es, sh := [], AtMap(model, map[], {model});
    var todo := labels.Keys;
    while todo != {}
      invariant todo <= labels.Keys
      invariant Rep(Obj(p.model), sh) && fresh(Foot(sh))
      invariant ReadSoFar(labels, labels.Keys - todo, exposedByDefault, p, es, sh)
      decreases todo
    {
      var k :| k in todo;
      ghost var keys := labels.Keys - todo;
      todo := todo - {k};
      assert labels.Keys - todo == keys + {k};
      p, es, sh := ReadLabel(labels, k, exposedByDefault, p, keys, es, sh);
    }
    assert labels.Keys - {} == labels.Keys;
  }

  lemma NothingRead(labels: map<string, string>, exposed: bool, model: MapNode)
    ensures ReadSoFar(labels, labels.Keys - labels.Keys, exposed, Parsed(exposed, "", "", "", model, []), [],
                      AtMap(model, map[], {model}))
  {
    assert labels.Keys - labels.Keys == {};
    assert TreeOf(AtMap(model, map[], {model})) == EMPTY;
  }

  /** One round of the loop. */
  method ReadLabel(labels: map<string, string>, k: string, exposed: bool, before: Parsed,
                   ghost keys: set<string>, ghost es: seq<Entry>, ghost sh: Shape)
    returns (p: Parsed, ghost es': seq<Entry>, ghost sh': Shape)
    requires k in labels && k !in keys && keys <= labels.Keys
    requires Rep(Obj(before.model), sh) && ReadSoFar(labels, keys, exposed, before, es, sh)
    modifies Foot(sh)
    ensures Rep(Obj(p.model), sh') && fresh(Foot(sh') - Foot(sh))
    ensures ReadSoFar(labels, keys + {k}, exposed, p, es', sh')
  {
    hide Rep, TreeOf, SetAt, MetaSoFar, EntriesSoFar, Creds, ParseBool, CutPrefix, Split, CredRefOf;
    var v := labels[k];
    p, es', sh' := before, es, sh;
    var rest := CutPrefix(k, PREFIX);
    if rest.None? || rest.value == "" {
    } else if rest.value == "enable" {
      p := p.(enabled := ParseBool(v, exposed));
    } else if rest.value == "name" {
      p := p.(name := v);
    } else if rest.value == "instance" {
      p := p.(instance := v);
    } else if rest.value == "profile" {
      p := p.(profile := v);
    } else {
      var parts := Split(rest.value, '.');
      var ref := CredRefOf(parts, v);
      if ref.Some? {
        p := p.(credRefs := p.credRefs + [ref.value]);
      } else {
        sh' := SetPath(p.model, parts, v, sh);
        es' := es + [Entry(parts, v)];
      }
    }
    ghost var c := Classify(k, v);
    OneMoreEntry(labels, keys, k, es, sh, sh');
    assert p.(credRefs := before.credRefs) == WithMeta(before, k, v, exposed);
    assert p.credRefs == if c.Cred? then before.credRefs + [c.ref] else before.credRefs;
    OneMoreMeta(labels, keys, k, exposed, before, p.credRefs);
    OneMoreCred(labels, keys, k, before.credRefs);
  }

  function WithMeta(p: Parsed, k: string, v: string, exposed: bool): Parsed {
    match Classify(k, v)
    case Enable => p.(enabled := ParseBool(v, exposed))
    case Name => p.(name := v)
    case Instance => p.(instance := v)
    case Profile => p.(profile := v)
    case _ => p
  }

  /** Each meta label is spelled one way only. */
  lemma MetaLabels(k: string, v: string)
    ensures Classify(k, v).Enable? <==> k == PREFIX + "enable"
    ensures Classify(k, v).Name? <==> k == PREFIX + "name"
    ensures Classify(k, v).Instance? <==> k == PREFIX + "instance"
    ensures Classify(k, v).Profile? <==> k == PREFIX + "profile"
  {
    forall meta | k == PREFIX + meta ensures CutPrefix(k, PREFIX) == Some(meta) {
    }
  }

  lemma OneMoreMeta(labels: map<string, string>, keys: set<string>, k: string, exposed: bool, p: Parsed,
                    credRefs: seq<CredRef>)
    requires k in labels && k !in keys && MetaSoFar(labels, keys, exposed, p)
    ensures MetaSoFar(labels, keys + {k}, exposed, WithMeta(p, k, labels[k], exposed).(credRefs := credRefs))
  {
    hide Classify, ParseBool;
    MetaLabels(k, labels[k]);
  }

  lemma OneMoreCred(labels: map<string, string>, keys: set<string>, k: string, refs: seq<CredRef>)
    requires k in labels && k !in keys && multiset(refs) == multiset(Creds(labels, keys))
    ensures var c := Classify(k, labels[k]);
            multiset(if c.Cred? then refs + [c.ref] else refs) == multiset(Creds(labels, keys + {k}))
  {
    OneMoreKey(labels, keys, k);
  }

  lemma OneMoreEntry(labels: map<string, string>, keys: set<string>, k: string, es: seq<Entry>, sh: Shape, sh': Shape)
    requires k in labels && k !in keys && EntriesSoFar(labels, keys, es, sh)
    requires var c := Classify(k, labels[k]);
             if c.Config? then
               c.entry.path != [] && TreeOf(sh') == SetAt(TreeOf(sh), c.entry.path, Leaf(Str(c.entry.value)))
             else sh' == sh
    ensures var c := Classify(k, labels[k]);
            EntriesSoFar(labels, keys + {k}, if c.Config? then es + [c.entry] else es, sh')
  {
    var c := Classify(k, labels[k]);
    OneMoreKey(labels, keys, k);
    if c.Config? {
      AssignedMore(es, c.entry);
      assert c.entry !in ToSet(es);
    }
  }

  lemma AssignedMore(es: seq<Entry>, e: Entry)
    requires e.path != [] && WellFormed(ToSet(es))
    ensures forall x :: x in es + [e] ==> x.path != []
    ensures forall x :: x in es ==> x.path != []
    ensures Assigned(es + [e]) == SetAt(Assigned(es), e.path, Leaf(Str(e.value)))
    ensures ToSet(es + [e]) == ToSet(es) + {e}
  {
    assert forall x :: x in es ==> x in ToSet(es);
    assert (es + [e])[..|es|] == es;
  }

  /** What one more label adds is not there yet. */
  lemma OneMoreKey(labels: map<string, string>, keys: set<string>, k: string)
    requires k in labels && k !in keys
    ensures WellFormed(Entries(labels, keys + {k}))
    ensures var c := Classify(k, labels[k]);
            && Entries(labels, keys + {k}) == Entries(labels, keys) + (if c.Config? then {c.entry} else {})
            && Creds(labels, keys + {k}) == Creds(labels, keys) + (if c.Cred? then {c.ref} else {})
            && (c.Config? ==> c.entry !in Entries(labels, keys))
            && (c.Cred? ==> c.ref !in Creds(labels, keys))
  {
    EntriesAreWellFormed(labels, keys + {k});
    forall j | j in keys && j in labels
      ensures Classify(j, labels[j]).Config? && Classify(k, labels[k]).Config? ==>
              Classify(j, labels[j]) != Classify(k, labels[k])
      ensures Classify(j, labels[j]).Cred? && Classify(k, labels[k]).Cred? ==>
              Classify(j, labels[j]) != Classify(k, labels[k])
    {
      if Classify(j, labels[j]).Config? && Classify(k, labels[k]).Config? {
        LabelOfEntry(j, labels[j]);
        LabelOfEntry(k, labels[k]);
      }
      if Classify(j, labels[j]).Cred? && Classify(k, labels[k]).Cred? {
        LabelOfCred(j, labels[j]);
        LabelOfCred(k, labels[k]);
      }
    }
  }

  /** The label that puts v at q. */
  ghost predicate Labelled(labels: map<string, string>, q: Path, v: string) {
    var k := "gobackup." + Join(q, '.');
    ConfigPath(q) && k in labels && labels[k] == v
  }

  /** In whatever order the labels came, the model holds each config label's value at its
      path, and no other value: no meta label, no credential reference. */
  lemma ModelIsTheLabels(labels: map<string, string>, exposed: bool, p: Parsed, es: seq<Entry>, sh: Shape, q: Path)
    requires ReadSoFar(labels, labels.Keys, exposed, p, es, sh)
    requires forall j, k :: !Clash(labels, j, k)
    ensures forall v :: At(TreeOf(sh), q) == Some(Leaf(Str(v))) <==> Labelled(labels, q, v)
    ensures At(TreeOf(sh), q).Some? ==> At(TreeOf(sh), q).value.Map? || exists v :: Labelled(labels, q, v)
  {
    hide Classify, Clash, Labelled, MetaSoFar, Creds, TreeOf, Assigned;
    var s := Entries(labels, labels.Keys);
    ParsingIsOrderFreeExactly(labels);
    OrderFreeExactly(s);
    assert forall e :: e in es ==> e in ToSet(es);
    AssignedAgrees(es);
    assert AgreesAt(KindAt(TreeOf(sh), q), s, q);
    forall v ensures Says(s, q, v) <==> Labelled(labels, q, v) {
      SaysIsLabelled(labels, q, v);
    }
  }

  lemma SaysIsLabelled(labels: map<string, string>, q: Path, v: string)
    ensures Says(Entries(labels, labels.Keys), q, v) <==> Labelled(labels, q, v)
  {
    hide Classify, Join, ConfigPath;
    if Says(Entries(labels, labels.Keys), q, v) {
      var k :| k in labels && Classify(k, labels[k]).Config? && Entry(q, v) == Classify(k, labels[k]).entry;
      ConfigExactly(k, labels[k], Entry(q, v));
    }
    if Labelled(labels, q, v) { ConfigExactly("gobackup." + Join(q, '.'), v, Entry(q, v)); }
  }

  /** The references are exactly those that labels name, each once. */
  lemma CredsAreTheLabels(labels: map<string, string>, exposed: bool, p: Parsed, es: seq<Entry>, sh: Shape, r: CredRef)
    requires ReadSoFar(labels, labels.Keys, exposed, p, es, sh)
    ensures r in p.credRefs <==> exists k :: k in labels && r.ref == labels[k] && NamesCred(k, r)
    ensures NoDup(p.credRefs)
  {
    hide Classify, NamesCred, MetaSoFar, EntriesSoFar;
    OnceEach(p.credRefs, Creds(labels, labels.Keys));
    assert r in p.credRefs <==> r in multiset(p.credRefs);
    forall k | k in labels ensures Classify(k, labels[k]) == Cred(r) <==> r.ref == labels[k] && NamesCred(k, r) {
      CredExactly(k, labels[k], r);
    }
    if r in Creds(labels, labels.Keys) {
      var k :| k in labels && Classify(k, labels[k]).Cred? && Classify(k, labels[k]).ref == r;
    }
    if k :| k in labels && Classify(k, labels[k]) == Cred(r) { assert r in Creds(labels, labels.Keys); }
  }

  /** The rest of what is read. */
  lemma MetaAreTheLabels(labels: map<string, string>, exposed: bool, p: Parsed, es: seq<Entry>, sh: Shape)
    requires ReadSoFar(labels, labels.Keys, exposed, p, es, sh)
    ensures p.name == if "gobackup.name" in labels then labels["gobackup.name"] else ""
    ensures p.instance == if "gobackup.instance" in labels then labels["gobackup.instance"] else ""
    ensures p.profile == if "gobackup.profile" in labels then labels["gobackup.profile"] else ""
    ensures p.enabled <==>
            if "gobackup.enable" in labels then
              || IsOneOf(labels["gobackup.enable"], {"true", "1", "yes", "on", "enable", "enabled"})
              || (exposed && !IsOneOf(labels["gobackup.enable"], {"false", "0", "no", "off", "disable", "disabled"}))
            else exposed
  {
    hide ParseBool, IsOneOf, EntriesSoFar, Creds;
    if "gobackup.enable" in labels { ParseBoolExactly(labels["gobackup.enable"], exposed); }
    assert PREFIX + "enable" == "gobackup.enable" && PREFIX + "name" == "gobackup.name";
    assert PREFIX + "instance" == "gobackup.instance" && PREFIX + "profile" == "gobackup.profile";
  }

  /** Which credentials a container asks for does not depend on the order either, only the
      order of the requests does. */
  lemma SameCredentials(labels: map<string, string>, exposed: bool, p: Parsed, es: seq<Entry>, sh: Shape,
                        p': Parsed, es': seq<Entry>, sh': Shape)
    requires ReadSoFar(labels, labels.Keys, exposed, p, es, sh)
    requires ReadSoFar(labels, labels.Keys, exposed, p', es', sh')
    ensures multiset(p.credRefs) == multiset(p'.credRefs) && NoDup(p.credRefs)
    ensures (p.enabled, p.name, p.instance, p.profile) == (p'.enabled, p'.name, p'.instance, p'.profile)
    ensures (forall j, k :: !Clash(labels, j, k)) ==> TreeOf(sh) == TreeOf(sh')
  {
    OnceEach(p.credRefs, Creds(labels, labels.Keys));
    if forall j, k :: !Clash(labels, j, k) {
      ParsingIsOrderFreeExactly(labels);
    }
  }

  lemma OnceEach<T>(s: seq<T>, of: set<T>)
    requires multiset(s) == multiset(of)
    ensures NoDup(s)
  {
    forall i, j | 0 <= i < j < |s| ensures s[i] != s[j] {
      assert s == s[..j] + [s[j]] + s[j + 1..];
      assert s[i] == s[..j][i];
      assert s[i] in s[..j] && multiset(s)[s[j]] <= 1;
      assert multiset(s) == multiset(s[..j]) + multiset{s[j]} + multiset(s[j + 1..]);
    }
  }
}
