/** TreeWalker of src/tree_walker.cpp: the loop that keeps the path of the current node,
    the traversal it performs, and the paths that end up in its cache. */
module TreeWalkers {
  import opened Terms
  import opened Sorts

  type Path = seq<nat>

  /** A formula and the place of a term in it. */
  type Occurrence = (Term, Path)

  type Cache = map<Term, Occurrence>

  /** The term at a path: the path lists which child to take at each node. */
  function TermAt(t: Term, p: Path): Option<Term>
    decreases |p|
  {
    if p == [] then Some(t)
    else if p[0] < |Children(t)| then TermAt(Children(t)[p[0]], p[1..])
    else None
  }

  predicate LexLeq(p: Path, q: Path)
    decreases |p|
  {
    p == [] || (q != [] && (p[0] < q[0] || (p[0] == q[0] && LexLeq(p[1..], q[1..]))))
  }

  /** Of two paths exactly one comes first, so there is one least path. */
  lemma {:induction false} LexOrder(p: Path, q: Path)
    ensures LexLeq(p, q) || LexLeq(q, p)
    ensures LexLeq(p, q) && LexLeq(q, p) ==> p == q
    decreases |p|
  {
    if p != [] && q != [] && p[0] == q[0] {
      LexOrder(p[1..], q[1..]);
      assert p == [p[0]] + p[1..] && q == [q[0]] + q[1..];
    }
  }

  /** The lexicographically least path to s in t. */
  ghost predicate LeastPath(t: Term, s: Term, p: Path) {
    TermAt(t, p) == Some(s) && forall q: Path :: TermAt(t, q) == Some(s) ==> LexLeq(p, q)
  }

  // ----- the traversal -----

  /** Saves a node, then walks its children from the last to the first. */
  ghost function WalkTree(root: Term, t: Term, path: Path, cache: Cache): Cache
    decreases Size(t), 1, 0
  {
    WalkKids(root, t, |Children(t)|, path, cache[t := (root, path)])
  }

  ghost function WalkKids(root: Term, t: Term, n: nat, path: Path, cache: Cache): Cache
    requires n <= |Children(t)|
    decreases Size(t), 0, n
  {
    if n == 0 then cache
    else
      ChildSmaller(t);
      WalkKids(root, t, n - 1, path, WalkTree(root, Children(t)[n - 1], path + [n - 1], cache))
  }

  /** A stack entry: a node to be entered as a given child, or the mark -1 that its children are done. */
  datatype Entry = Entry(t: Term, n: int)

  /** What is left to do for a stack at a path. */
  ghost function Run(root: Term, stack: seq<Entry>, path: Path, cache: Cache): Cache
    decreases |stack|
  {
    if stack == [] then cache
    else
      var top, rest := stack[|stack| - 1], stack[..|stack| - 1];
      if top.n < 0 then Run(root, rest, if path == [] then [] else path[..|path| - 1], cache)
      else Run(root, rest, path, WalkTree(root, top.t, path + [top.n], cache))
  }

  function Kids(t: Term, n: nat): (r: seq<Entry>)
    requires n <= |Children(t)|
    ensures |r| == n && forall i :: 0 <= i < n ==> r[i] == Entry(Children(t)[i], i)
  {
    seq(n, i requires 0 <= i < n => Entry(Children(t)[i], i))
  }

  lemma {:induction false} RunTop(root: Term, stack: seq<Entry>, e: Entry, path: Path, cache: Cache)
    ensures Run(root, stack + [e], path, cache) ==
      if e.n < 0 then Run(root, stack, if path == [] then [] else path[..|path| - 1], cache)
      else Run(root, stack, path, WalkTree(root, e.t, path + [e.n], cache))
  {
    assert (stack + [e])[..|stack + [e]| - 1] == stack;
  }

  lemma {:induction false} RunKids(root: Term, stack: seq<Entry>, t: Term, n: nat, path: Path, cache: Cache)
    requires n <= |Children(t)|
    ensures Run(root, stack + Kids(t, n), path, cache) == Run(root, stack, path, WalkKids(root, t, n, path, cache))
    decreases n
  {
    if n == 0 {
      assert stack + Kids(t, n) == stack;
    } else {
      var last := Entry(Children(t)[n - 1], n - 1);
      assert stack + Kids(t, n) == stack + Kids(t, n - 1) + [last];
      RunTop(root, stack + Kids(t, n - 1), last, path, cache);
      RunKids(root, stack, t, n - 1, path, WalkTree(root, last.t, path + [n - 1], cache));
    }
  }

  /** Entering a node: it is saved, and its mark and its children go on the stack. */
  lemma {:induction false} RunEnter(root: Term, stack: seq<Entry>, t: Term, n: nat, path: Path, cache: Cache)
    ensures Run(root, stack + [Entry(t, n)], path, cache)
         == Run(root, stack + [Entry(t, -1)] + Kids(t, |Children(t)|), path + [n], cache[t := (root, path + [n])])
  {
    var path', cache' := path + [n], cache[t := (root, path + [n])];
    RunKids(root, stack + [Entry(t, -1)], t, |Children(t)|, path', cache');
    RunTop(root, stack, Entry(t, -1), path', WalkTree(root, t, path', cache));
    RunTop(root, stack, Entry(t, n), path, cache);
    assert path'[..|path'| - 1] == path;
  }

  /** The stack a visit starts with: the mark of the formula below its children. */
  lemma {:induction false} RunStart(root: Term, cache: Cache)
    ensures Run(root, [Entry(root, -1)] + Kids(root, |Children(root)|), [], cache[root := (root, [])])
         == WalkTree(root, root, [], cache)
  {
    RunKids(root, [Entry(root, -1)], root, |Children(root)|, [], cache[root := (root, [])]);
    RunTop(root, [], Entry(root, -1), [], WalkTree(root, root, [], cache));
    assert [] + [Entry(root, -1)] == [Entry(root, -1)];
  }

  /** The steps a stack still takes. */
  ghost function Work(stack: seq<Entry>): nat {
    if stack == [] then 0
    else
      var top := stack[|stack| - 1];
      Work(stack[..|stack| - 1]) + if top.n < 0 then 1 else 2 * Size(top.t)
  }

  lemma {:induction false} WorkOfKids(stack: seq<Entry>, t: Term, n: nat)
    requires n <= |Children(t)|
    ensures Work(stack + Kids(t, n)) == Work(stack) + 2 * SumSizes(Children(t)[..n])
    decreases n
  {
    if n == 0 {
      assert stack + Kids(t, 0) == stack;
    } else {
      var s, cs := stack + Kids(t, n), Children(t)[..n];
      assert s[..|s| - 1] == stack + Kids(t, n - 1);
      assert cs[..n - 1] == Children(t)[..n - 1];
      WorkOfKids(stack, t, n - 1);
    }
  }

  lemma {:induction false} WorkEnter(stack: seq<Entry>, t: Term, n: nat)
    ensures Work(stack + [Entry(t, -1)] + Kids(t, |Children(t)|)) < Work(stack + [Entry(t, n)])
  {
    WorkOfKids(stack + [Entry(t, -1)], t, |Children(t)|);
    assert (stack + [Entry(t, -1)])[..|stack|] == stack && (stack + [Entry(t, n)])[..|stack|] == stack;
    assert Children(t)[..|Children(t)|] == Children(t);
    ChildrenSize(t);
  }

  lemma {:induction false} ChildrenSize(t: Term)
    ensures Size(t) == 1 + SumSizes(Children(t))
  {
    if t.ConstArray? {
      assert [t.elem][..0] == [] && SumSizes([]) == 0;
    }
  }

  // ----- the paths the traversal leaves -----

  lemma {:induction false} NoPathToItself(t: Term, q: Path)
    requires TermAt(t, q) == Some(t)
    ensures q == []
  {
    if q != [] {
      PathSize(t, q);
    }
  }

  lemma {:induction false} PathSize(t: Term, q: Path)
    requires TermAt(t, q).Some?
    ensures TermAt(t, q).value in Subterms(t)
    ensures q != [] ==> Size(TermAt(t, q).value) < Size(t)
    decreases |q|
  {
    if q != [] {
      ChildSmaller(t);
      ChildSubterms(t);
      PathSize(Children(t)[q[0]], q[1..]);
    }
  }

  /** Where the children below n lead to s: the first of them, and the least path in it. */
  ghost predicate LeastAmong(t: Term, n: nat, s: Term, p: Path) {
    && p != [] && p[0] < n && p[0] < |Children(t)| && LeastPath(Children(t)[p[0]], s, p[1..])
    && forall i :: 0 <= i < p[0] ==> s !in Subterms(Children(t)[i])
  }

  lemma LeastAmongAll(t: Term, s: Term, p: Path)
    requires s != t && LeastAmong(t, |Children(t)|, s, p)
    ensures LeastPath(t, s, p)
  {
    forall q: Path | TermAt(t, q) == Some(s)
      ensures LexLeq(p, q)
    {
      PathSize(Children(t)[q[0]], q[1..]);
      if q[0] == p[0] {
        assert TermAt(Children(t)[p[0]], q[1..]) == Some(s);
      }
    }
  }

  ghost predicate InKids(t: Term, n: nat, s: Term)
    requires n <= |Children(t)|
  {
    exists i :: 0 <= i < n && s in Subterms(Children(t)[i])
  }

  /** After the walk of t, the entry of a subterm is its least path, and other entries are as before. */
  lemma {:induction false} WalkLeast(root: Term, t: Term, path: Path, cache: Cache, s: Term) returns (p: Path)
    ensures var r := WalkTree(root, t, path, cache);
      && (s in Subterms(t) ==> LeastPath(t, s, p) && s in r && r[s] == (root, path + p))
      && (s !in Subterms(t) ==> (s in r <==> s in cache) && (s in r ==> r[s] == cache[s]))
    decreases Size(t), 1, 0
  {
    var n := |Children(t)|;
    p := KidsLeast(root, t, n, path, cache[t := (root, path)], s);
    if s == t {
      if InKids(t, n, s) {
        var i :| 0 <= i < n && s in Subterms(Children(t)[i]);
        ChildSmaller(t);
        SubtermSize(Children(t)[i], s);
      }
      p := [];
      forall q: Path | TermAt(t, q) == Some(t)
        ensures LexLeq(p, q)
      {
      }
      assert path + [] == path;
    } else {
      SubtermInKids(t, s);
      if s in Subterms(t) {
        LeastAmongAll(t, s, p);
      }
    }
  }

  lemma {:induction false} SubtermInKids(t: Term, s: Term)
    requires s != t
    ensures s in Subterms(t) <==> InKids(t, |Children(t)|, s)
  {
    ChildSubterms(t);
    if s in Subterms(t) {
      if t.App? {
        var c :| c in t.children && s in Subterms(c);
        var i :| 0 <= i < |Children(t)| && Children(t)[i] == c;
      } else {
        assert s in Subterms(Children(t)[0]);
      }
    }
  }

  lemma {:induction false} KidsLeast(root: Term, t: Term, n: nat, path: Path, cache: Cache, s: Term) returns (p: Path)
    requires n <= |Children(t)|
    ensures var r := WalkKids(root, t, n, path, cache);
      && (InKids(t, n, s) ==> LeastAmong(t, n, s, p) && s in r && r[s] == (root, path + p))
      && (!InKids(t, n, s) ==> (s in r <==> s in cache) && (s in r ==> r[s] == cache[s]))
    decreases Size(t), 0, n
  {
    p := [];
    if n > 0 {
      ChildSmaller(t);
      var c := Children(t)[n - 1];
      var last := WalkLeast(root, c, path + [n - 1], cache, s);
      p := KidsLeast(root, t, n - 1, path, WalkTree(root, c, path + [n - 1], cache), s);
      if !InKids(t, n - 1, s) && s in Subterms(c) {
        p := [n - 1] + last;
        assert path + [n - 1] + last == path + p;
        assert p[1..] == last;
      }
    }
  }

  class TreeWalker {
    var cache: Cache
    const clearCache: bool

    constructor (clearCache: bool)
      ensures cache == map[] && this.clearCache == clearCache
    {
      this.clearCache, cache := clearCache, map[];
    }

    method VisitTerm(formula: Term, term: Term, path: Path)
      modifies this
      ensures cache == old(cache)[term := (formula, path)]
    {
      cache := cache[term := (formula, path)];
    }

    method Visit(node: Term) returns (out: Occurrence)
      modifies this
      ensures var start: Cache := if clearCache then map[] else old(cache);
        cache == if node in start then start else WalkTree(node, node, [], start)
      ensures node in cache && out == cache[node]
    {
      if clearCache {
        cache := map[];
      }
      if node in cache {
        return cache[node];
      }
      ghost var goal := WalkTree(node, node, [], cache);
      ghost var _ := WalkLeast(node, node, [], cache, node);
      RunStart(node, cache);
      var treePath: Path := [];
      VisitTerm(node, node, treePath);
      var toVisit := PushKids([Entry(node, -1)], node);
      while |toVisit| > 0
        invariant Run(node, toVisit, treePath, cache) == goal
        decreases Work(toVisit)
      {
        var current := toVisit[|toVisit| - 1];
        ghost var whole := toVisit;
        toVisit := toVisit[..|toVisit| - 1];
        assert whole == toVisit + [current];
        if current.n >= 0 {
          RunEnter(node, toVisit, current.t, current.n, treePath, cache);
          WorkEnter(toVisit, current.t, current.n);
          treePath := treePath + [current.n];
          VisitTerm(node, current.t, treePath);
          toVisit := PushKids(toVisit + [Entry(current.t, -1)], current.t);
        } else {
          RunTop(node, toVisit, current, treePath, cache);
          if treePath != [] {
            treePath := treePath[..|treePath| - 1];
          }
        }
      }
      out := cache[node];
    }

    /** The children with their numbers, in order. */
    method PushKids(stack: seq<Entry>, t: Term) returns (r: seq<Entry>)
      ensures r == stack + Kids(t, |Children(t)|)
    {
      r := stack;
      for childNo := 0 to |Children(t)|
        invariant r == stack + Kids(t, childNo)
      {
        r := r + [Entry(Children(t)[childNo], childNo)];
      }
    }

    /** From an empty cache every subterm, and no other term, ends up at its least path. */
    method VisitFresh(node: Term) returns (out: Occurrence)
      requires clearCache || cache == map[]
      modifies this
      ensures cache.Keys == Subterms(node) && out == (node, [])
      ensures forall s :: s in Subterms(node) ==> cache[s].0 == node && LeastPath(node, s, cache[s].1)
    {
      out := Visit(node);
      forall s
        ensures s in cache <==> s in Subterms(node)
        ensures s in Subterms(node) ==> cache[s].0 == node && LeastPath(node, s, cache[s].1)
      {
        var p := WalkLeast(node, node, [], map[], s);
        assert [] + p == p;
      }
      NoPathToItself(node, cache[node].1);
    }
  }
}
