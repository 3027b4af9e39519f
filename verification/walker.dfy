/** The shared traversal of src/identity_walker.cpp: a worklist loop with a visited set and a cache.
    The loop is proved to perform exactly the recursive depth-first traversal Dfs, last child first. */
module Walker {
  import opened Terms

  /** What a walk changes: the cache, and whatever else the node step of a subclass updates. */
  datatype WalkState<S> = WalkState(cache: map<Term, Term>, aux: S)

  /** The post-order part of visit_term: from a node and what its children are cached as,
      the term to save for it, and the updated subclass state. */
  type Step<!S> = (Term, seq<Term>, S) -> (Term, S)

  /** query_cache with the key itself as default. */
  function Cached(cache: map<Term, Term>, t: Term): Term {
    if t in cache then cache[t] else t
  }

  function CachedAll(cache: map<Term, Term>, ts: seq<Term>): (r: seq<Term>)
    ensures |r| == |ts|
    ensures forall i :: 0 <= i < |ts| ==> r[i] == Cached(cache, ts[i])
  {
    seq(|ts|, i requires 0 <= i < |ts| => Cached(cache, ts[i]))
  }

  function Save<S>(step: Step<S>, t: Term, w: WalkState<S>): WalkState<S> {
    var (r, aux) := step(t, CachedAll(w.cache, Children(t)), w.aux);
    WalkState(w.cache[t := r], aux)
  }

  /** The second visit of a node: skipped when the node is cached. */
  function Post<S>(step: Step<S>, t: Term, w: WalkState<S>): WalkState<S> {
    if t in w.cache then w else Save(step, t, w)
  }

  /** The recursive traversal. */
  ghost function Dfs<S>(step: Step<S>, t: Term, w: WalkState<S>): WalkState<S>
    decreases Size(t), 0
  {
    if t in w.cache then w else Post(step, t, DfsAll(step, Size(t), ChildrenBelow(t), w))
  }

  ghost function ChildrenBelow(t: Term): (cs: seq<Term>)
    ensures cs == Children(t)
    ensures forall c :: c in cs ==> Size(c) < Size(t)
  {
    ChildSmaller(t);
    Children(t)
  }

  ghost function DfsAll<S>(step: Step<S>, bound: nat, ts: seq<Term>, w: WalkState<S>): WalkState<S>
    requires forall c :: c in ts ==> Size(c) < bound
    decreases bound, 0, |ts|
  {
    if ts == [] then w
    else DfsAll(step, bound, ts[..|ts| - 1], Dfs(step, ts[|ts| - 1], w))
  }

  /** What is left to do for a stack whose entries are either to be entered or,
      where post is set, to be left. */
  ghost function Run<S>(step: Step<S>, stack: seq<Term>, post: seq<bool>, w: WalkState<S>): WalkState<S>
    requires |stack| == |post|
    decreases |stack|
  {
    if stack == [] then w
    else
      var k := |stack| - 1;
      Run(step, stack[..k], post[..k], if post[k] then Post(step, stack[k], w) else Dfs(step, stack[k], w))
  }

  /** Pushing terms to be entered on top of a stack runs them first. */
  lemma {:induction false} RunPush<S>(step: Step<S>, stack: seq<Term>, post: seq<bool>,
                                      bound: nat, ts: seq<Term>, w: WalkState<S>)
    requires |stack| == |post|
    requires forall c :: c in ts ==> Size(c) < bound
    ensures Run(step, stack + ts, post + seq(|ts|, _ => false), w)
         == Run(step, stack, post, DfsAll(step, bound, ts, w))
    decreases |ts|
  {
    var marks := seq(|ts|, _ => false);
    if ts == [] {
      assert stack + ts == stack && post + marks == post;
    } else {
      var n := |ts| - 1;
      var k := |stack + ts| - 1;
      assert (stack + ts)[..k] == stack + ts[..n];
      assert (post + marks)[..k] == post + seq(n, _ => false);
      RunPush(step, stack, post, bound, ts[..n], Dfs(step, ts[n], w));
    }
  }

  /** Entering an uncached node: its mark and its children replace it. */
  lemma {:induction false} RunEnter<S>(step: Step<S>, stack: seq<Term>, post: seq<bool>, t: Term, w: WalkState<S>)
    requires |stack| == |post| && t !in w.cache
    ensures |Entered(stack, t)| == |EnteredPost(post, t)|
    ensures Run(step, Entered(stack, t), EnteredPost(post, t), w) == Run(step, stack + [t], post + [false], w)
  {
    var k := |stack|;
    ChildSmaller(t);
    RunPush(step, stack + [t], post + [true], Size(t), Children(t), w);
    assert (stack + [t])[..k] == stack && (post + [true])[..k] == post && (post + [false])[..k] == post;
  }

  ghost predicate MarkedAt(stack: seq<Term>, post: seq<bool>, t: Term) {
    |stack| == |post| && exists k :: 0 <= k < |stack| && post[k] && stack[k] == t
  }

  ghost predicate Above(stack: seq<Term>, k: nat, c: Term) {
    exists j :: k < j < |stack| && stack[j] == c
  }

  /** Only proper subterms of a marked entry lie above it. */
  ghost predicate Nested(stack: seq<Term>, post: seq<bool>)
    requires |stack| == |post|
  {
    forall j, k :: 0 <= j < k < |stack| && post[j] ==> Size(stack[k]) < Size(stack[j])
  }

  /** The children of a marked entry are cached or still above it. */
  ghost predicate ChildrenPending(stack: seq<Term>, post: seq<bool>, cache: map<Term, Term>)
    requires |stack| == |post|
  {
    forall k, c :: 0 <= k < |stack| && post[k] && c in Children(stack[k]) ==> c in cache || Above(stack, k, c)
  }

  /** Where the stack stands: every node entered but not yet cached has a marked entry. */
  ghost predicate Marked(root: Term, stack: seq<Term>, post: seq<bool>,
                         visited: set<Term>, cache: map<Term, Term>)
  {
    && |stack| == |post|
    && (forall k :: 0 <= k < |stack| ==> stack[k] in Subterms(root))
    && (forall k :: 0 <= k < |stack| && post[k] ==> stack[k] in visited)
    && (forall t :: t in visited && t !in cache ==> MarkedAt(stack, post, t))
    && Nested(stack, post)
    && ChildrenPending(stack, post, cache)
  }

  /** The top entry of the stack goes: it was cached before, or it is marked and cached now. */
  lemma MarkedPop(root: Term, stack: seq<Term>, post: seq<bool>, visited: set<Term>,
                  cache: map<Term, Term>, cache': map<Term, Term>)
    requires Marked(root, stack, post, visited, cache) && stack != []
    requires cache'.Keys == cache.Keys + {stack[|stack| - 1]}
    ensures Marked(root, stack[..|stack| - 1], post[..|stack| - 1], visited, cache')
  {
    var top := |stack| - 1;
    forall t | t in visited && t !in cache'
      ensures MarkedAt(stack[..top], post[..top], t)
    {
      var k :| 0 <= k < |stack| && post[k] && stack[k] == t;
      assert stack[..top][k] == t && post[..top][k];
    }
    forall k, c | 0 <= k < top && post[k] && c in Children(stack[k])
      ensures c in cache' || Above(stack[..top], k, c)
    {
      if c !in cache' {
        var j :| k < j < |stack| && stack[j] == c;
        assert stack[..top][j] == c;
      }
    }
  }

  /** The top entry, when not cached, is marked exactly when it was visited before;
      a marked top entry has all its children cached. */
  lemma MarkedTop(root: Term, stack: seq<Term>, post: seq<bool>, visited: set<Term>, cache: map<Term, Term>)
    requires Marked(root, stack, post, visited, cache) && stack != [] && stack[|stack| - 1] !in cache
    ensures post[|stack| - 1] <==> stack[|stack| - 1] in visited
    ensures post[|stack| - 1] ==> forall c :: c in Children(stack[|stack| - 1]) ==> c in cache
  {
  }

  /** A new node is entered: its mark and its children go on the stack. */
  lemma MarkedEnter(root: Term, stack: seq<Term>, post: seq<bool>, visited: set<Term>, cache: map<Term, Term>, t: Term)
    requires |stack| == |post|
    requires Marked(root, stack + [t], post + [false], visited, cache) && t !in visited
    ensures Marked(root, Entered(stack, t), EnteredPost(post, t), visited + {t}, cache)
  {
    EnterPrefix(stack, post, t);
    assert (stack + [t])[|stack|] == t;
    EnterInTree(root, t);
    EnterNested(stack, post, t);
    EnterPending(stack, post, cache, t);
    forall u | u in visited + {t} && u !in cache
      ensures MarkedAt(Entered(stack, t), EnteredPost(post, t), u)
    {
      EnterMarked(stack, post, t, u);
    }
  }

  /** The stack once t, its top entry, is entered. */
  ghost function Entered(stack: seq<Term>, t: Term): seq<Term> {
    stack + [t] + Children(t)
  }

  ghost function EnteredPost(post: seq<bool>, t: Term): seq<bool> {
    post + [true] + seq(|Children(t)|, _ => false)
  }

  lemma EnterPrefix(stack: seq<Term>, post: seq<bool>, t: Term)
    requires |stack| == |post|
    ensures var k, s, p := |stack|, Entered(stack, t), EnteredPost(post, t);
      && |s| == |p| == k + 1 + |Children(t)|
      && s[k] == t && p[k]
      && (forall i :: 0 <= i <= k ==> s[i] == (stack + [t])[i])
      && (forall i :: 0 <= i < k ==> p[i] == (post + [false])[i])
      && (forall i :: k < i < |s| ==> s[i] == Children(t)[i - k - 1] && s[i] in Children(t) && !p[i])
  {
  }

  lemma EnterMarked(stack: seq<Term>, post: seq<bool>, t: Term, u: Term)
    requires |stack| == |post| && (u == t || MarkedAt(stack + [t], post + [false], u))
    ensures MarkedAt(Entered(stack, t), EnteredPost(post, t), u)
  {
    EnterPrefix(stack, post, t);
    if u == t {
      assert EnteredPost(post, t)[|stack|];
    } else {
      var i :| 0 <= i < |stack + [t]| && (post + [false])[i] && (stack + [t])[i] == u;
      assert EnteredPost(post, t)[i];
    }
  }

  lemma EnterPending(stack: seq<Term>, post: seq<bool>, cache: map<Term, Term>, t: Term)
    requires |stack| == |post| && ChildrenPending(stack + [t], post + [false], cache)
    ensures |Entered(stack, t)| == |EnteredPost(post, t)|
    ensures ChildrenPending(Entered(stack, t), EnteredPost(post, t), cache)
  {
    EnterPrefix(stack, post, t);
    var k, s, p := |stack|, Entered(stack, t), EnteredPost(post, t);
    forall i, c | 0 <= i < |s| && p[i] && c in Children(s[i])
      ensures c in cache || Above(s, i, c)
    {
      if i == k {
        var j :| 0 <= j < |Children(t)| && Children(t)[j] == c;
        assert s[k + 1 + j] == c;
      } else if c !in cache {
        assert (post + [false])[i] && c in Children((stack + [t])[i]);
        var j :| i < j < |stack + [t]| && (stack + [t])[j] == c;
        assert s[j] == c;
      }
    }
  }

  lemma {:induction false} EnterInTree(root: Term, t: Term)
    requires t in Subterms(root)
    ensures forall c :: c in Children(t) ==> c in Subterms(root)
  {
    ChildSubterms(t);
    SubtermsTransitive(root, t);
  }

  lemma EnterNested(stack: seq<Term>, post: seq<bool>, t: Term)
    requires |stack| == |post| && Nested(stack + [t], post + [false])
    ensures |Entered(stack, t)| == |EnteredPost(post, t)|
    ensures Nested(Entered(stack, t), EnteredPost(post, t))
  {
    ChildSmaller(t);
    EnterPrefix(stack, post, t);
    var k, s, p := |stack|, Entered(stack, t), EnteredPost(post, t);
    forall i, j | 0 <= i < j < |s| && p[i]
      ensures Size(s[j]) < Size(s[i])
    {
      if i < k {
        assert (post + [false])[i];
        assert Size((stack + [t])[k]) < Size((stack + [t])[i]);
        assert j <= k ==> Size((stack + [t])[j]) < Size((stack + [t])[i]);
      }
    }
  }

  /** The loop invariant of a visit: the stack is well marked, and running it to the end gives goal. */
  ghost predicate Walking<S>(step: Step<S>, root: Term, stack: seq<Term>, post: seq<bool>,
                             visited: set<Term>, w: WalkState<S>, goal: WalkState<S>)
  {
    && Marked(root, stack, post, visited, w.cache)
    && Run(step, stack, post, w) == goal
    && (root in visited || root in w.cache || stack == [root])
  }

  lemma {:induction false} WalkStart<S>(step: Step<S>, root: Term, w: WalkState<S>)
    ensures Walking(step, root, [root], [false], {}, w, Dfs(step, root, w))
  {
    var goal := Dfs(step, root, w);
    assert Run(step, [], [], goal) == goal;
  }

  /** A cached top entry is dropped, a marked one is saved and dropped. */
  lemma WalkPop<S>(step: Step<S>, root: Term, stack: seq<Term>, post: seq<bool>,
                   visited: set<Term>, w: WalkState<S>, goal: WalkState<S>)
    requires Walking(step, root, stack, post, visited, w, goal) && stack != []
    requires stack[|stack| - 1] in w.cache || stack[|stack| - 1] in visited
    ensures stack[|stack| - 1] !in w.cache ==> forall c :: c in Children(stack[|stack| - 1]) ==> c in w.cache
    ensures Walking(step, root, stack[..|stack| - 1], post[..|stack| - 1], visited, Post(step, stack[|stack| - 1], w),
      goal)
  {
    var t := stack[|stack| - 1];
    if t !in w.cache {
      MarkedTop(root, stack, post, visited, w.cache);
    }
    MarkedPop(root, stack, post, visited, w.cache, Post(step, t, w).cache);
  }

  lemma WalkLeave<S>(step: Step<S>, root: Term, stack: seq<Term>, post: seq<bool>,
                     visited: set<Term>, w: WalkState<S>, goal: WalkState<S>)
    requires Walking(step, root, stack, post, visited, w, goal) && stack != []
    requires stack[|stack| - 1] !in w.cache && stack[|stack| - 1] in visited
    ensures var t, k := stack[|stack| - 1], |stack| - 1;
      && (forall c :: c in Children(t) ==> c in w.cache) && visited + {t} == visited
      && Walking(step, root, stack[..k], post[..k], visited + {t}, Save(step, t, w), goal)
  {
    WalkPop(step, root, stack, post, visited, w, goal);
    assert visited + {stack[|stack| - 1]} == visited;
  }

  /** A new top entry is entered. */
  lemma {:induction false} WalkEnter<S>(step: Step<S>, root: Term, stack: seq<Term>, post: seq<bool>,
                                        visited: set<Term>, w: WalkState<S>, goal: WalkState<S>)
    requires Walking(step, root, stack, post, visited, w, goal) && stack != []
    requires stack[|stack| - 1] !in w.cache && stack[|stack| - 1] !in visited
    ensures var t, k := stack[|stack| - 1], |stack| - 1;
      && Walking(step, root, Entered(stack[..k], t), EnteredPost(post[..k], t), visited + {t}, w, goal)
      && Subterms(root) - (visited + {t}) < Subterms(root) - visited
  {
    WalkTop(step, root, stack, post, visited, w, goal);
    EnterTop(step, root, stack[..|stack| - 1], post[..|stack| - 1], stack[|stack| - 1], visited, w, goal);
    assert stack[|stack| - 1] in Subterms(root) - visited;
  }

  lemma {:induction false} WalkTop<S>(step: Step<S>, root: Term, stack: seq<Term>, post: seq<bool>,
                                      visited: set<Term>, w: WalkState<S>, goal: WalkState<S>)
    requires Walking(step, root, stack, post, visited, w, goal) && stack != []
    requires stack[|stack| - 1] !in w.cache && stack[|stack| - 1] !in visited
    ensures stack[|stack| - 1] in Subterms(root)
    ensures var t, k := stack[|stack| - 1], |stack| - 1;
      Walking(step, root, stack[..k] + [t], post[..k] + [false], visited, w, goal)
  {
    var t, k := stack[|stack| - 1], |stack| - 1;
    assert stack == stack[..k] + [t];
    assert post == post[..k] + [false] by {
      MarkedTop(root, stack, post, visited, w.cache);
    }
  }

  lemma EnterTop<S>(step: Step<S>, root: Term, below: seq<Term>, marks: seq<bool>, t: Term,
                    visited: set<Term>, w: WalkState<S>, goal: WalkState<S>)
    requires |below| == |marks| && t !in w.cache && t !in visited
    requires Walking(step, root, below + [t], marks + [false], visited, w, goal)
    ensures Walking(step, root, Entered(below, t), EnteredPost(marks, t), visited + {t}, w, goal)
  {
    assert Marked(root, Entered(below, t), EnteredPost(marks, t), visited + {t}, w.cache) by {
      MarkedEnter(root, below, marks, visited, w.cache, t);
    }
    assert Run(step, Entered(below, t), EnteredPost(marks, t), w) == goal by {
      RunEnter(step, below, marks, t, w);
    }
    assert root in visited + {t} || root in w.cache by {
      assert (below + [t])[|below|] == t;
    }
  }

  /** A node with two leaves: the last is saved first, the node last. */
  lemma {:induction false} LastChildFirst<S>(step: Step<S>, op: Op, a: Term, b: Term, w: WalkState<S>)
    requires Children(a) == Children(b) == [] && a != b
    requires a !in w.cache && b !in w.cache && App(op, [a, b]) !in w.cache
    ensures Dfs(step, App(op, [a, b]), w) == Post(step, App(op, [a, b]), Save(step, a, Save(step, b, w)))
  {
    var t, afterB := App(op, [a, b]), Save(step, b, w);
    LeafSaved(step, b, w);
    LeafSaved(step, a, afterB);
    var afterA := Save(step, a, afterB);
    ChildSmaller(t);
    assert a in Children(t) && b in Children(t);
    assert [a, b][..1] == [a] && [a][..0] == [];
    assert DfsAll(step, Size(t), [], afterA) == afterA;
    assert DfsAll(step, Size(t), [a], afterB) == afterA;
    assert DfsAll(step, Size(t), [a, b], w) == afterA;
  }

  lemma {:induction false} LeafSaved<S>(step: Step<S>, t: Term, w: WalkState<S>)
    requires Children(t) == [] && t !in w.cache
    ensures Dfs(step, t, w) == Save(step, t, w)
  {
    assert DfsAll(step, Size(t), ChildrenBelow(t), w) == w;
  }

  // ----- which nodes a walk caches -----

  ghost predicate Closed(cache: map<Term, Term>) {
    forall k, c :: k in cache && c in Children(k) ==> c in cache
  }

  lemma {:induction false} ClosedSubterms(cache: map<Term, Term>, t: Term)
    requires Closed(cache) && t in cache
    ensures Subterms(t) <= cache.Keys
    decreases Size(t)
  {
    ChildSmaller(t);
    forall c | c in Children(t)
      ensures Subterms(c) <= cache.Keys
    {
      ClosedSubterms(cache, c);
    }
    SubtermsByChildren(t);
  }

  ghost function SubtermsAll(ts: seq<Term>): set<Term> {
    set t, s | t in ts && s in Subterms(t) :: s
  }

  lemma {:induction false} SubtermsByChildren(t: Term)
    ensures Subterms(t) == {t} + SubtermsAll(Children(t))
  {
  }

  lemma NotBelowItself(t: Term)
    ensures t !in SubtermsAll(Children(t))
    ensures forall c :: c in Children(t) ==> c in SubtermsAll(Children(t))
  {
    forall c | c in Children(t) && t in Subterms(c)
      ensures false
    {
      ChildSmaller(t);
      SubtermSize(c, t);
    }
  }

  /** Saving a node whose children have been walked completes its subterms. */
  lemma {:induction false} PostKeys<S>(step: Step<S>, t: Term, keys: set<Term>, w: WalkState<S>)
    requires Closed(w.cache) && w.cache.Keys == keys + SubtermsAll(Children(t))
    ensures Closed(Post(step, t, w).cache) && Post(step, t, w).cache.Keys == keys + Subterms(t)
  {
    var after := Post(step, t, w).cache;
    assert Subterms(t) == {t} + SubtermsAll(Children(t)) by {
      SubtermsByChildren(t);
    }
    assert after.Keys == w.cache.Keys + {t};
    assert forall c :: c in Children(t) ==> c in w.cache by {
      NotBelowItself(t);
    }
  }

  /** A walk from a closed cache caches exactly the subterms on top of what it had. */
  lemma {:induction false} DfsKeys<S>(step: Step<S>, t: Term, w: WalkState<S>)
    requires Closed(w.cache)
    ensures Closed(Dfs(step, t, w).cache) && Dfs(step, t, w).cache.Keys == w.cache.Keys + Subterms(t)
    decreases Size(t), 0
  {
    if t in w.cache {
      ClosedSubterms(w.cache, t);
    } else {
      DfsAllKeys(step, Size(t), ChildrenBelow(t), w);
      PostKeys(step, t, w.cache.Keys, DfsAll(step, Size(t), ChildrenBelow(t), w));
    }
  }

  /** A node is saved once, after all of its children. */
  lemma {:induction false} DfsSaves<S>(step: Step<S>, t: Term, w: WalkState<S>)
    requires Closed(w.cache) && t !in w.cache
    ensures var before := DfsAll(step, Size(t), ChildrenBelow(t), w);
      && t !in before.cache && (forall c :: c in Children(t) ==> c in before.cache)
      && Dfs(step, t, w) == Save(step, t, before)
  {
    DfsAllKeys(step, Size(t), ChildrenBelow(t), w);
    NotBelowItself(t);
  }

  lemma {:induction false} DfsAllKeys<S>(step: Step<S>, bound: nat, ts: seq<Term>, w: WalkState<S>)
    requires Closed(w.cache)
    requires forall c :: c in ts ==> Size(c) < bound
    ensures var r := DfsAll(step, bound, ts, w);
      Closed(r.cache) && r.cache.Keys == w.cache.Keys + SubtermsAll(ts)
    decreases bound, 0, |ts|
  {
    if ts != [] {
      var n := |ts| - 1;
      DfsKeys(step, ts[n], w);
      DfsAllKeys(step, bound, ts[..n], Dfs(step, ts[n], w));
      assert ts == ts[..n] + [ts[n]];
      assert SubtermsAll(ts) == SubtermsAll(ts[..n]) + Subterms(ts[n]);
    }
  }

  // ----- walks whose node step only rebuilds -----

  type Rebuild = (Term, seq<Term>) -> Term

  function Stateless(f: Rebuild): Step<()> {
    (t: Term, cs: seq<Term>, u: ()) => (f(t, cs), u)
  }

  /** The term a rebuilding walk computes when base is its cache at the start. */
  ghost function Walk(f: Rebuild, base: map<Term, Term>, t: Term): Term
    decreases Size(t)
  {
    ChildSmaller(t);
    if t in base then base[t]
    else f(t, seq(|Children(t)|, i requires 0 <= i < |Children(t)| => Walk(f, base, Children(t)[i])))
  }

  /** A cache that extends base, is closed under children off base, and holds nothing but results. */
  ghost predicate Faithful(f: Rebuild, base: map<Term, Term>, cache: map<Term, Term>) {
    && (forall k :: k in base ==> k in cache)
    && (forall k :: k in cache ==> cache[k] == Walk(f, base, k))
    && (forall k, c :: k in cache && k !in base && c in Children(k) ==> c in cache)
  }

  lemma {:induction false} SaveFaithful(f: Rebuild, base: map<Term, Term>, t: Term, w: WalkState<()>)
    requires Faithful(f, base, w.cache)
    requires forall c :: c in Children(t) ==> c in w.cache
    ensures t !in base ==> Save(Stateless(f), t, w).cache[t] == Walk(f, base, t)
    ensures t !in base ==> Faithful(f, base, Save(Stateless(f), t, w).cache)
  {
    assert CachedAll(w.cache, Children(t))
        == seq(|Children(t)|, i requires 0 <= i < |Children(t)| => Walk(f, base, Children(t)[i]));
  }

  /** The traversal only ever adds correct entries, and ends with the visited term cached. */
  lemma {:induction false} DfsFaithful(f: Rebuild, base: map<Term, Term>, t: Term, w: WalkState<()>)
    requires Faithful(f, base, w.cache)
    ensures var r := Dfs(Stateless(f), t, w);
      Faithful(f, base, r.cache) && w.cache.Keys + {t} <= r.cache.Keys
    decreases Size(t), 0
  {
    if t !in w.cache {
      ChildSmaller(t);
      DfsAllFaithful(f, base, Size(t), Children(t), w);
      SaveFaithful(f, base, t, DfsAll(Stateless(f), Size(t), Children(t), w));
    }
  }

  lemma {:induction false} DfsAllFaithful(f: Rebuild, base: map<Term, Term>, bound: nat, ts: seq<Term>,
                                          w: WalkState<()>)
    requires Faithful(f, base, w.cache)
    requires forall c :: c in ts ==> Size(c) < bound
    ensures var r := DfsAll(Stateless(f), bound, ts, w);
      && Faithful(f, base, r.cache) && w.cache.Keys <= r.cache.Keys
      && forall c :: c in ts ==> c in r.cache
    decreases bound, 0, |ts|
  {
    if ts != [] {
      var n := |ts| - 1;
      DfsFaithful(f, base, ts[n], w);
      DfsAllFaithful(f, base, bound, ts[..n], Dfs(Stateless(f), ts[n], w));
      assert ts == ts[..n] + [ts[n]];
    }
  }

  class IdentityWalker<S(!new)> {
    var cache: map<Term, Term>
    var aux: S
    var preorder: bool
    const clearCache: bool
    const step: Step<S>

    constructor (clearCache: bool, step: Step<S>, cache: map<Term, Term>, aux: S)
      ensures this.clearCache == clearCache && this.step == step
      ensures State() == WalkState(cache, aux)
    {
      this.clearCache, this.step, this.cache, this.aux, preorder := clearCache, step, cache, aux, true;
    }

    function State(): WalkState<S>
      reads this
    {
      WalkState(cache, aux)
    }

    /** The state a visit starts from. */
    function Start(): WalkState<S>
      reads this
    {
      WalkState(if clearCache then map[] else cache, aux)
    }

    /** visit_term as the walkers here define it: nothing before the children, and a
        save of the rebuilt node after them. Every child is cached by then. */
    method VisitTerm(t: Term)
      requires !preorder ==> forall c :: c in Children(t) ==> c in cache
      modifies `cache, `aux
      ensures State() == if preorder then old(State()) else Save(step, t, old(State()))
    {
      if !preorder {
        var (r, next) := step(t, CachedAll(cache, Children(t)), aux);
        cache, aux := cache[t := r], next;
      }
    }

    method Visit(term: Term) returns (out: Term)
      modifies this
      ensures State() == Dfs(step, term, old(Start()))
      ensures term in cache && out == cache[term]
    {
      if clearCache {
        cache := map[];
      }
      if term in cache {
        return cache[term];
      }
      var toVisit := [term];
      var visited: set<Term> := {};
      ghost var post, goal := [false], Dfs(step, term, State());
      WalkStart(step, term, State());
      while |toVisit| > 0
        invariant Walking(step, term, toVisit, post, visited, State(), goal)
        decreases Subterms(term) - visited, |toVisit|
      {
        var t := toVisit[|toVisit| - 1];
        ghost var stack := toVisit;
        toVisit := toVisit[..|toVisit| - 1];
        if t in cache {
          WalkPop(step, term, stack, post, visited, State(), goal);
          post := post[..|toVisit|];
          continue;
        }
        preorder := t !in visited;
        if preorder {
          WalkEnter(step, term, stack, post, visited, State(), goal);
        } else {
          WalkLeave(step, term, stack, post, visited, State(), goal);
        }
        visited := visited + {t};
        VisitTerm(t);
        if preorder {
          post := EnteredPost(post[..|toVisit|], t);
          toVisit := toVisit + [t] + Children(t);
        } else {
          post := post[..|toVisit|];
        }
      }
      out := cache[term];
    }
  }
}
