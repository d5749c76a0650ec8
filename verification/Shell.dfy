// A reader for the part of the POSIX shell language that the engine's start command is
// written in (IEEE Std 1003.1-2017, Shell Command Language): quoting (sections 2.2.1 to
// 2.2.3), token recognition (2.3), command substitution inside double quotes (2.6.3) and
// lists of simple commands (2.9). Text that uses anything else is not read at all.
module Shell {

  import opened Wrappers

  /** A word is literal characters and command substitutions. */
  datatype Part = Char(c: char) | Subst(commands: seq<seq<seq<Part>>>)
  type Word = seq<Part>
  type Command = seq<Word>

  /** What has been read so far: whole commands, the words of the one being read, and
      the word being read, which may be there although empty (''). */
  datatype Reading = Reading(commands: seq<Command>, words: Command, word: Word, inWord: bool)

  const START := Reading([], [], [], false)

  function Add(r: Reading, parts: Word): Reading {
    r.(word := r.word + parts, inWord := true)
  }

  function EndWord(r: Reading): Reading {
    if r.inWord then Reading(r.commands, r.words + [r.word], [], false) else r
  }

  function EndCommand(r: Reading): Reading {
    var e := EndWord(r);
    if e.words == [] then e else Reading(e.commands + [e.words], [], [], false)
  }

  /** Characters that stand for themselves outside quotes. */
  predicate IsPlain(c: char) {
    'a' <= c <= 'z' || 'A' <= c <= 'Z' || '0' <= c <= '9' || c in "_=/.:,+@%^-"
  }

  datatype Parsed = Parsed(read: Reading, rest: string)

  /** Reads commands from r on: the whole of s, or inside $( ) up to the closing ')'. */
  function Read(s: string, r: Reading, nested: bool): (o: Option<Parsed>)
    ensures o.Some? ==> |o.value.rest| <= |s|
    decreases |s|
  {
    if s == "" then (if nested then None else Some(Parsed(EndCommand(r), "")))
    else
      match s[0]
      case ' ' => Read(s[1..], EndWord(r), nested)
      case ';' => Read(s[1..], EndCommand(r), nested)
      case ')' => if nested then Some(Parsed(EndCommand(r), s[1..])) else None
      case '\'' => ReadSingle(s[1..], Add(r, []), nested)
      case '"' =>
        (match ReadDouble(s[1..], [])
         case None => None
         case Some(d) => Read(d.rest, Add(r, d.word), nested))
      case '\\' => if |s| == 1 || s[1] == '\n' then None else Read(s[2..], Add(r, [Char(s[1])]), nested)
      case c => if IsPlain(c) then Read(s[1..], Add(r, [Char(c)]), nested) else None
  }

  /** Inside single quotes every character up to the next single quote is literal. */
  function ReadSingle(s: string, r: Reading, nested: bool): (o: Option<Parsed>)
    ensures o.Some? ==> |o.value.rest| <= |s|
    decreases |s|
  {
    if s == "" then None
    else if s[0] == '\'' then Read(s[1..], r, nested)
    else ReadSingle(s[1..], Add(r, [Char(s[0])]), nested)
  }

  datatype Quoted = Quoted(word: Word, rest: string)

  /** Inside double quotes: literal characters and $( ). */
  function ReadDouble(s: string, word: Word): (o: Option<Quoted>)
    ensures o.Some? ==> |o.value.rest| < |s|
    decreases |s|
  {
    if s == "" || s[0] == '`' || s[0] == '\\' then None
    else if s[0] == '"' then Some(Quoted(word, s[1..]))
    else if s[0] != '$' then ReadDouble(s[1..], word + [Char(s[0])])
    else if |s| == 1 || s[1] != '(' then None
    else
      match Read(s[2..], START, true)
      case None => None
      case Some(o) => ReadDouble(o.rest, word + [Subst(o.read.commands)])
  }

  /** The commands sh -c runs for a script. */
  function Commands(script: string): Option<seq<Command>> {
    match Read(script, START, false)
    case None => None
    case Some(o) => Some(o.read.commands)
  }

  /** A word of literal characters. */
  function Lit(s: string): Word {
    seq(|s|, i requires 0 <= i < |s| => Char(s[i]))
  }

  lemma LitConcat(a: string, b: string)
    ensures Lit(a + b) == Lit(a) + Lit(b)
  {
  }

  lemma LitInjective(a: string, b: string)
    requires Lit(a) == Lit(b)
    ensures a == b
  {
    assert |a| == |Lit(a)| == |b|;
    forall i | 0 <= i < |a| ensures a[i] == b[i] {
      assert Lit(a)[i] == Lit(b)[i];
    }
  }

  lemma ReadPlainChar(c: char, rest: string, r: Reading, nested: bool)
    requires IsPlain(c)
    ensures Read([c] + rest, r, nested) == Read(rest, Add(r, [Char(c)]), nested)
  {
    assert ([c] + rest)[1..] == rest;
  }

  /** Plain text is read as itself. */
  lemma {:induction false} ReadPlain(t: string, rest: string, r: Reading, nested: bool)
    requires forall c :: c in t ==> IsPlain(c)
    requires t != ""
    ensures Read(t + rest, r, nested) == Read(rest, Add(r, Lit(t)), nested)
    decreases |t|
  {
    var c, u := t[0], t[1..];
    assert c in t;
    assert t + rest == [c] + (u + rest);
    ReadPlainChar(c, u + rest, r, nested);
    assert Lit(t) == [Char(c)] + Lit(u);
    if u == "" {
      assert u + rest == rest && Lit(t) == [Char(c)];
    } else {
      assert forall d :: d in u ==> d in t;
      ReadPlain(u, rest, Add(r, [Char(c)]), nested);
      assert Add(Add(r, [Char(c)]), Lit(u)) == Add(r, Lit(t));
    }
  }

  lemma ReadEnd(r: Reading)
    ensures Read("", r, false) == Some(Parsed(EndCommand(r), ""))
  {
  }

  lemma ReadSpace(rest: string, r: Reading, nested: bool)
    ensures Read(" " + rest, r, nested) == Read(rest, EndWord(r), nested)
  {
    assert (" " + rest)[1..] == rest;
  }

  lemma ReadSemicolon(rest: string, r: Reading, nested: bool)
    ensures Read(";" + rest, r, nested) == Read(rest, EndCommand(r), nested)
  {
    assert (";" + rest)[1..] == rest;
  }

  lemma ReadBackslash(c: char, rest: string, r: Reading, nested: bool)
    requires c != '\n'
    ensures Read("\\" + ([c] + rest), r, nested) == Read(rest, Add(r, [Char(c)]), nested)
  {
    assert ("\\" + ([c] + rest))[2..] == rest;
  }

  lemma ReadOpenQuote(rest: string, r: Reading, nested: bool)
    ensures Read("'" + rest, r, nested) == ReadSingle(rest, Add(r, []), nested)
  {
    assert ("'" + rest)[1..] == rest;
  }

  lemma ReadCloseQuote(rest: string, r: Reading, nested: bool)
    ensures ReadSingle("'" + rest, r, nested) == Read(rest, r, nested)
  {
    assert ("'" + rest)[1..] == rest;
  }

  lemma ReadSingleChar(c: char, rest: string, r: Reading, nested: bool)
    requires c != '\''
    ensures ReadSingle([c] + rest, r, nested) == ReadSingle(rest, Add(r, [Char(c)]), nested)
  {
    assert ([c] + rest)[1..] == rest;
  }

  lemma AddLit(r: Reading, c: char, b: string)
    ensures Add(Add(r, [Char(c)]), Lit(b)) == Add(r, Lit([c] + b))
  {
    LitConcat([c], b);
    assert Lit([c]) == [Char(c)];
    assert r.word + [Char(c)] + Lit(b) == r.word + ([Char(c)] + Lit(b));
  }

  lemma AddNothing(r: Reading)
    requires r.inWord
    ensures Add(r, Lit("")) == r
  {
    assert r.word + Lit("") == r.word;
  }

  lemma ReadClose(rest: string, r: Reading)
    ensures Read(")" + rest, r, true) == Some(Parsed(EndCommand(r), rest))
  {
    assert (")" + rest)[1..] == rest;
  }

  lemma ReadSubstitution(s: string, r: Reading, rest: string, word: Word)
    requires Read(s, START, true) == Some(Parsed(r, rest))
    ensures ReadDouble("$(" + s, word) == ReadDouble(rest, word + [Subst(r.commands)])
  {
    assert ("$(" + s)[2..] == s;
  }

  lemma ReadDoubleQuoted(s: string, word: Word, rest: string, r: Reading, nested: bool)
    requires ReadDouble(s, []) == Some(Quoted(word, rest))
    ensures Read("\"" + s, r, nested) == Read(rest, Add(r, word), nested)
  {
    assert ("\"" + s)[1..] == s;
  }
}
