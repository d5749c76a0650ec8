// Decoded configuration values, as values: what the supervisor's maps and lists hold at
// one moment.
module Trees {
  import opened Wrappers

  /** Strs is a Go []string, which the code treats differently from a list; Other stands
      for the remaining YAML scalars. */
  datatype Scalar = Str(s: string) | Num(n: int) | Flag(b: bool) | Strs(items: seq<string>) | Other(text: string)

  datatype Tree = Leaf(scalar: Scalar) | Map(kids: map<string, Tree>) | List(items: seq<Tree>)

  const EMPTY := Map(map[])

  type Path = seq<string>

  /** What is found on a path that leads through maps only. */
  function At(t: Tree, path: Path): Option<Tree> {
    if path == [] then Some(t)
    else if t.Map? && path[0] in t.kids then At(t.kids[path[0]], path[1..])
    else None
  }

  lemma {:induction false} AtConcat(t: Tree, p: Path, q: Path)
    ensures At(t, p + q) == match At(t, p) { case None => None case Some(u) => At(u, q) }
  {
    if p == [] {
      assert p + q == q;
    } else {
      assert (p + q)[1..] == p[1..] + q;
      if t.Map? && p[0] in t.kids { AtConcat(t.kids[p[0]], p[1..], q); }
    }
  }
}
