// The parts of Go's strings package the label and config code relies on. A char is a byte.
module Text {
  import opened Wrappers

  function ToLowerByte(c: char): char { if 'A' <= c <= 'Z' then c - 'A' + 'a' else c }

  function ToLower(s: string): string { seq(|s|, i requires 0 <= i < |s| => ToLowerByte(s[i])) }

  predicate IsSpace(c: char) { c in {' ', '\t', '\n', '\r', 11 as char, 12 as char} }

  function TrimSpace(s: string): (t: string)
    ensures t != "" ==> !IsSpace(t[0]) && !IsSpace(t[|t| - 1])
    ensures forall c :: c in t ==> c in s
  {
    if s == "" then s
    else if IsSpace(s[0]) then TrimSpace(s[1..])
    else if IsSpace(s[|s| - 1]) then TrimSpace(s[..|s| - 1])
    else s
  }

  /** The text is the word, in any letter case. */
  predicate Folds(s: string, word: string) {
    && |s| == |word|
    && forall i | 0 <= i < |s| :: s[i] == word[i] || ('a' <= word[i] <= 'z' && s[i] == word[i] - 'a' + 'A')
  }

  lemma FoldsExactly(s: string, word: string)
    requires forall c :: c in word ==> !('A' <= c <= 'Z')
    ensures ToLower(s) == word <==> Folds(s, word)
  {
    if ToLower(s) == word {
      forall i | 0 <= i < |s| ensures s[i] == word[i] || ('a' <= word[i] <= 'z' && s[i] == word[i] - 'a' + 'A') {
        assert ToLower(s)[i] == word[i];
      }
    }
    if Folds(s, word) {
      forall i | 0 <= i < |s| ensures ToLower(s)[i] == word[i] { assert word[i] in word; }
    }
  }

  predicate Blank(s: string) { forall c :: c in s ==> IsSpace(c) }

  /** t is s without the spaces around it. */
  ghost predicate Trims(s: string, t: string) {
    exists a, b :: TrimsBy(s, t, a, b)
  }

  ghost predicate TrimsBy(s: string, t: string, a: string, b: string) {
    && s == a + t + b && Blank(a) && Blank(b)
    && (t != "" ==> !IsSpace(t[0]) && !IsSpace(t[|t| - 1]))
  }

  lemma {:induction false} TrimExactly(s: string, t: string)
    ensures TrimSpace(s) == t <==> Trims(s, t)
  {
    if a, b :| TrimsBy(s, t, a, b) { TrimSplit(t, a, b); }
    TrimIsTrim(s);
  }

  lemma {:induction false} TrimIsTrim(s: string)
    ensures Trims(s, TrimSpace(s))
    decreases |s|
  {
    var n, t := |s| - 1, TrimSpace(s);
    if s != "" && IsSpace(s[0]) {
      TrimIsTrim(s[1..]);
      var a, b :| TrimsBy(s[1..], t, a, b);
      assert s == [s[0]] + a + t + b;
      assert TrimsBy(s, t, [s[0]] + a, b);
    } else if s != "" && IsSpace(s[n]) {
      TrimIsTrim(s[..n]);
      var a, b :| TrimsBy(s[..n], t, a, b);
      assert s == a + t + (b + [s[n]]);
      assert TrimsBy(s, t, a, b + [s[n]]);
    } else {
      assert s == "" + s + "";
      assert TrimsBy(s, t, "", "");
    }
  }

  lemma {:induction false} TrimSplit(t: string, a: string, b: string)
    requires TrimsBy(a + t + b, t, a, b)
    ensures TrimSpace(a + t + b) == t
    decreases |a| + |b|
  {
    var s := a + t + b;
    if a != "" {
      assert a[0] in a && s[1..] == a[1..] + t + b;
      assert forall c :: c in a[1..] ==> c in a;
      TrimSplit(t, a[1..], b);
    } else if b != "" {
      var n := |b| - 1;
      assert b[n] in b && s[..|s| - 1] == a + t + b[..n];
      assert forall c :: c in b[..n] ==> c in b;
      TrimSplit(t, a, b[..n]);
      if t == "" { BlankIsNothing(s); }
    } else {
      assert s == t;
    }
  }

  lemma {:induction false} BlankIsNothing(s: string)
    requires Blank(s)
    ensures TrimSpace(s) == ""
  {
    if s != "" {
      assert s[0] in s && forall c :: c in s[1..] ==> c in s;
      BlankIsNothing(s[1..]);
    }
  }

  function CutPrefix(s: string, p: string): (r: Option<string>)
    ensures r.Some? ==> s == p + r.value
  {
    if p <= s then Some(s[|p|..]) else None
  }

  function CutSuffix(s: string, p: string): (r: Option<string>)
    ensures r.Some? ==> s == r.value + p
  {
    if |p| <= |s| && s[|s| - |p|..] == p then Some(s[..|s| - |p|]) else None
  }

  /** strings.Split by a one-byte separator. */
  function Split(s: string, c: char): (parts: seq<string>)
    ensures |parts| >= 1
  {
    if s == "" then [""]
    else
      var rest := Split(s[1..], c);
      if s[0] == c then [""] + rest else rest[0 := [s[0]] + rest[0]]
  }

  function Join(parts: seq<string>, c: char): string {
    if parts == [] then ""
    else if |parts| == 1 then parts[0]
    else parts[0] + [c] + Join(parts[1..], c)
  }

  lemma {:induction false} JoinSplit(s: string, c: char)
    ensures Join(Split(s, c), c) == s
  {
    if s != "" {
      var rest := Split(s[1..], c);
      JoinSplit(s[1..], c);
      if s[0] == c {
        assert ([""] + rest)[1..] == rest;
      } else if |rest| > 1 {
        assert rest[0 := [s[0]] + rest[0]][1..] == rest[1..];
      }
    }
  }

  lemma {:induction false} SplitParts(s: string, c: char)
    ensures forall p :: p in Split(s, c) ==> c !in p
  {
    if s != "" {
      SplitParts(s[1..], c);
    }
  }

  /** Splitting a text at a separator splits the two sides. */
  lemma {:induction false} SplitConcat(a: string, b: string, c: char)
    ensures Split(a + [c] + b, c) == Split(a, c) + Split(b, c)
  {
    var s := a + [c] + b;
    if a == "" {
      assert s[1..] == b;
    } else {
      SplitConcat(a[1..], b, c);
      assert s[0] == a[0] && s[1..] == a[1..] + [c] + b;
      var ra, rb, h := Split(a[1..], c), Split(b, c), [a[0]];
      if a[0] == c {
        assert [""] + (ra + rb) == ([""] + ra) + rb;
      } else {
        assert (ra + rb)[0 := h + ra[0]] == ra[0 := h + ra[0]] + rb;
      }
    }
  }

  lemma {:induction false} JoinConcat(a: seq<string>, b: seq<string>, c: char)
    requires a != [] && b != []
    ensures Join(a + b, c) == Join(a, c) + [c] + Join(b, c)
  {
    assert (a + b)[1..] == a[1..] + b;
    if |a| > 1 {
      JoinConcat(a[1..], b, c);
    }
  }

  lemma {:induction false} SplitJoin(parts: seq<string>, c: char)
    requires parts != [] && forall p :: p in parts ==> c !in p
    ensures Split(Join(parts, c), c) == parts
  {
    SplitPlain(parts[0], c);
    if |parts| > 1 {
      SplitJoin(parts[1..], c);
      SplitConcat(parts[0], Join(parts[1..], c), c);
    }
  }

  lemma {:induction false} SplitPlain(s: string, c: char)
    requires c !in s
    ensures Split(s, c) == [s]
  {
    if s != "" {
      assert s[0] in s && forall d :: d in s[1..] ==> d in s;
      SplitPlain(s[1..], c);
      assert [s[0]] + s[1..] == s;
    }
  }

  /** One dotted name leads into another exactly when it is that name up to a dot. */
  lemma SplitPrefix(a: string, b: string, c: char)
    ensures Split(a, c) < Split(b, c) <==> a + [c] <= b
  {
    var pa, pb := Split(a, c), Split(b, c);
    if pa < pb {
      assert pb == pa + pb[|pa|..];
      JoinConcat(pa, pb[|pa|..], c);
      JoinSplit(a, c);
      JoinSplit(b, c);
      assert b == a + [c] + Join(pb[|pa|..], c);
    }
    if a + [c] <= b {
      SplitConcat(a, b[|a| + 1..], c);
      assert b == a + [c] + b[|a| + 1..];
    }
  }

  /** Of two texts made of two parts each, the part u belongs to the first part of one and to
      the second part of the other. */
  ghost predicate Straddles(a: string, x: string, b: string, y: string, c: char, u: string) {
    b == a + [c] + u && x == u + [c] + y
  }

  /** Joining two parts with a separator gives one text for two pairs exactly if they are the
      same pair or there is such a part. */
  lemma JoinedAlikeExactly(a: string, x: string, b: string, y: string, c: char)
    ensures a + [c] + x == b + [c] + y <==>
            (a == b && x == y) || (exists u :: Straddles(a, x, b, y, c, u)) || (exists u :: Straddles(b, y, a, x, c, u))
  {
    if a + [c] + x == b + [c] + y {
      if |a| == |b| {
        var k := a + [c] + x;
        assert k[..|a|] == a && k[..|b|] == b && k[|a| + 1..] == x && k[|b| + 1..] == y;
      } else if |a| < |b| {
        LongerStraddles(a, x, b, y, c);
      } else {
        LongerStraddles(b, y, a, x, c);
      }
    }
    if u :| Straddles(a, x, b, y, c, u) { StraddlesJoin(a, x, b, y, c, u); }
    if u :| Straddles(b, y, a, x, c, u) { StraddlesJoin(b, y, a, x, c, u); }
  }

  lemma StraddlesJoin(a: string, x: string, b: string, y: string, c: char, u: string)
    requires Straddles(a, x, b, y, c, u)
    ensures a + [c] + x == b + [c] + y
  {
    assert a + [c] + (u + [c] + y) == a + [c] + u + [c] + y;
  }

  lemma LongerStraddles(a: string, x: string, b: string, y: string, c: char)
    requires a + [c] + x == b + [c] + y && |a| < |b|
    ensures exists u :: Straddles(a, x, b, y, c, u)
  {
    var k, n := a + [c] + x, |a|;
    var u := b[n + 1..];
    assert k[..|b|] == b && k[..n] == a && k[n] == c && k[|b|] == c;
    assert b == b[..n] + [b[n]] + u && b[..n] == k[..n];
    assert x == k[n + 1..] && y == k[|b| + 1..];
    assert k[n + 1..] == k[n + 1..|b|] + [k[|b|]] + k[|b| + 1..];
    assert Straddles(a, x, b, y, c, u);
  }

  // ---- sort.Strings ----

  /** Go's order of strings, byte by byte. */
  predicate AtMost(a: string, b: string)
    decreases a
  {
    a == "" || (b != "" && (a[0] < b[0] || (a[0] == b[0] && AtMost(a[1..], b[1..]))))
  }

  lemma {:induction false} AtMostTotal(a: string, b: string)
    ensures AtMost(a, b) || AtMost(b, a)
    decreases a
  {
    if a != "" && b != "" { AtMostTotal(a[1..], b[1..]); }
  }

  lemma {:induction false} AtMostThen(a: string, b: string, c: string)
    requires AtMost(a, b) && AtMost(b, c)
    ensures AtMost(a, c)
    decreases a
  {
    if a != "" && a[0] == b[0] == c[0] { AtMostThen(a[1..], b[1..], c[1..]); }
  }

  predicate Sorted(s: seq<string>) {
    forall i, j | 0 <= i < j < |s| :: AtMost(s[i], s[j])
  }

  method Sort(s: seq<string>) returns (r: seq<string>)
    ensures Sorted(r) && multiset(r) == multiset(s)
  {
    r := [];
    for i := 0 to |s|
      invariant Sorted(r) && multiset(r) == multiset(s[..i])
    {
      assert s[..i + 1] == s[..i] + [s[i]];
      r := Insert(r, s[i]);
    }
    assert s[..|s|] == s;
  }

  method Insert(s: seq<string>, x: string) returns (r: seq<string>)
    requires Sorted(s)
    ensures Sorted(r) && multiset(r) == multiset(s) + multiset{x}
  {
    hide AtMost;
    var n := 0;
    while n < |s| && AtMost(s[n], x)
      invariant n <= |s| && forall i :: 0 <= i < n ==> AtMost(s[i], x)
    {
      n := n + 1;
    }
    forall i | n <= i < |s| ensures AtMost(x, s[i]) {
      AtMostTotal(s[n], x);
      if i > n { AtMostThen(x, s[n], s[i]); }
    }
    assert s == s[..n] + s[n..];
    r := s[..n] + [x] + s[n..];
  }
}
