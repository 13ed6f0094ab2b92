/**
 * An in-memory directory tree standing in for the file system, with the
 * two ways the scripts look into it: a recursive walk (pathlib's
 * `rglob('*')`) and a lookup of one child by name (`glob(name)`).
 */
module FsTree {
  import opened Base

  /** A directory with its entries in listing order, or a file with its size in bytes. */
  datatype Node = Dir(name: string, children: seq<Node>) | File(name: string, size: nat)

  /** An entry reached by a walk: its path relative to where the walk started (outermost name first) and the entry. */
  datatype Entry = Entry(path: seq<string>, node: Node)

  /**
   * `rglob('*')` on `n`: every entry strictly below `n`, files and
   * directories alike, each directory's entries followed by what lies
   * below it (depth first). A file has nothing below it.
   */
  function Below(n: Node): (es: seq<Entry>)
    ensures forall e :: e in es ==> |e.path| > 0 && e.path[|e.path| - 1] == e.node.name
    ensures n.File? ==> es == []
  {
    Walk([], n)
  }

  /** The walk below `n`, with every path starting with `prefix`. */
  function Walk(prefix: seq<string>, n: Node): (es: seq<Entry>)
    ensures forall e :: e in es ==>
      |e.path| > |prefix| && e.path[..|prefix|] == prefix && e.path[|e.path| - 1] == e.node.name
    ensures n.File? ==> es == []
    decreases n, 1
  {
    match n
    case File(_, _) => []
    case Dir(_, cs) => WalkChildren(prefix, cs)
  }

  /** The walk over the entries `cs` of one directory whose path is `prefix`. */
  function WalkChildren(prefix: seq<string>, cs: seq<Node>): (es: seq<Entry>)
    ensures forall e :: e in es ==>
      |e.path| > |prefix| && e.path[..|prefix|] == prefix && e.path[|e.path| - 1] == e.node.name
    decreases cs, 0
  {
    if cs == [] then []
    else
      var p := prefix + [cs[0].name];
      assert p[..|prefix|] == prefix;
      [Entry(p, cs[0])] + Walk(p, cs[0]) + WalkChildren(prefix, cs[1..])
  }

  /**
   * Some entry strictly below `n`, at any depth, has property `p`: the
   * same question as a search of the walk, asked by recursion on the tree.
   */
  predicate Somewhere(n: Node, p: Node -> bool) {
    n.Dir? && exists i :: 0 <= i < |n.children| && (p(n.children[i]) || Somewhere(n.children[i], p))
  }

  /** Searching the walk `rglob('*')` for an entry with property `p` is searching the tree. */
  lemma BelowSomewhere(n: Node, p: Node -> bool)
    ensures (exists e :: e in Below(n) && p(e.node)) <==> Somewhere(n, p)
  {
    WalkSomewhere([], n, p);
  }

  lemma {:induction false} WalkSomewhere(prefix: seq<string>, n: Node, p: Node -> bool)
    ensures (exists e :: e in Walk(prefix, n) && p(e.node)) <==> Somewhere(n, p)
    decreases n, 1
  {
    match n
    case File(_, _) =>
    case Dir(_, cs) => WalkChildrenSomewhere(prefix, cs, p);
  }

  lemma {:induction false} WalkChildrenSomewhere(prefix: seq<string>, cs: seq<Node>, p: Node -> bool)
    ensures (exists e :: e in WalkChildren(prefix, cs) && p(e.node)) <==>
            (exists i :: 0 <= i < |cs| && (p(cs[i]) || Somewhere(cs[i], p)))
    decreases cs, 0
  {
    if cs != [] {
      var q := prefix + [cs[0].name];
      WalkSomewhere(q, cs[0], p);
      WalkChildrenSomewhere(prefix, cs[1..], p);
      var es := WalkChildren(prefix, cs);
      assert es == [Entry(q, cs[0])] + Walk(q, cs[0]) + WalkChildren(prefix, cs[1..]);
      if exists i :: 0 <= i < |cs| && (p(cs[i]) || Somewhere(cs[i], p)) {
        var i :| 0 <= i < |cs| && (p(cs[i]) || Somewhere(cs[i], p));
        if i == 0 {
          if p(cs[0]) {
            assert Entry(q, cs[0]) in es;
          } else {
            var e :| e in Walk(q, cs[0]) && p(e.node);
            assert e in es;
          }
        } else {
          assert cs[1..][i - 1] == cs[i];
          var e :| e in WalkChildren(prefix, cs[1..]) && p(e.node);
          assert e in es;
        }
      }
      if exists e :: e in es && p(e.node) {
        var e :| e in es && p(e.node);
        if e !in [Entry(q, cs[0])] + Walk(q, cs[0]) {
          var i :| 0 <= i < |cs[1..]| && (p(cs[1..][i]) || Somewhere(cs[1..][i], p));
          assert cs[1..][i] == cs[i + 1];
        }
      }
    }
  }

  /**
   * The entry the loop variable of `for x in n.glob(name)` is left bound
   * to: the last entry of `n` with that name (a real directory holds at
   * most one), or nothing.
   */
  function Glob(n: Node, name: string): (r: Option<Node>)
    ensures r.Some? ==> r.value.name == name && n.Dir? && r.value in n.children
    ensures r.None? ==> forall c :: n.Dir? && c in n.children ==> c.name != name
  {
    match n
    case File(_, _) => None
    case Dir(_, cs) => LastNamed(cs, name)
  }

  function LastNamed(cs: seq<Node>, name: string): (r: Option<Node>)
    ensures r.Some? ==> r.value.name == name && r.value in cs
    ensures r.None? ==> forall c :: c in cs ==> c.name != name
  {
    if cs == [] then None
    else if cs[|cs| - 1].name == name then Some(cs[|cs| - 1])
    else
      var r := LastNamed(cs[..|cs| - 1], name);
      assert forall c :: c in cs ==> c in cs[..|cs| - 1] || c == cs[|cs| - 1];
      r
  }

  /** `n` has a directory entry `name`, so that code reading it after `for x in n.glob(name)` does not fail. */
  predicate HasSubdir(n: Node, name: string) {
    Glob(n, name).Some? && Glob(n, name).value.Dir?
  }

  function Subdir(n: Node, name: string): (d: Node)
    requires HasSubdir(n, name)
    ensures d.Dir? && d.name == name && d in n.children
  {
    Glob(n, name).value
  }
}
