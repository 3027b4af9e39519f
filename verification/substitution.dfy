/** Substitution: the worklist of src/solver.cpp, the walker of src/substitution_walker.cpp,
    and the recursive simultaneous substitution that both compute. */
module Substitution {
  import opened Terms
  import opened Sorts
  import opened Walker

  type Subst = map<Term, Term>

  /** The documented use: symbolic constants are replaced. */
  ghost predicate SymbolKeys(sub: Subst) {
    forall k :: k in sub ==> k.Symbol? || k.Param?
  }

  /** Simultaneous substitution. Constant arrays are values and stay as they are. */
  function Substituted(sub: Subst, t: Term): Term {
    if t in sub then sub[t]
    else match t
      case App(op, cs) => App(op, seq(|cs|, i requires 0 <= i < |cs| => Substituted(sub, cs[i])))
      case _ => t
  }

  /** visit_term of the identity walker: rebuild applications, keep everything else. */
  function RebuildNode(t: Term, cs: seq<Term>): Term {
    if t.App? then App(t.op, cs) else t
  }

  lemma {:induction false} WalkIsSubstituted(sub: Subst, t: Term)
    ensures Walk(RebuildNode, sub, t) == Substituted(sub, t)
  {
    if t !in sub && t.App? {
      forall i | 0 <= i < |t.children|
        ensures Walk(RebuildNode, sub, t.children[i]) == Substituted(sub, t.children[i])
      {
        WalkIsSubstituted(sub, t.children[i]);
      }
      assert seq(|Children(t)|, i requires 0 <= i < |Children(t)| => Walk(RebuildNode, sub, Children(t)[i]))
          == seq(|t.children|, i requires 0 <= i < |t.children| => Substituted(sub, t.children[i]));
    }
  }

  // ----- meaning -----

  /** The interpretation in which every key has the value of the term it is replaced by. */
  function Update<V>(m: Interp<V>, sub: Subst): Interp<V> {
    m.(leaf := (t: Term) => if t in sub then Eval(m, sub[t]) else m.leaf(t))
  }

  /** Constant arrays are built over values, as make_term(val, sort) asks. */
  ghost predicate ConstArraysOfValues(t: Term) {
    forall s :: s in Subterms(t) && s.ConstArray? ==> s.elem.IsValue()
  }

  lemma {:induction false} ValueHasNoKeys(sub: Subst, t: Term)
    requires SymbolKeys(sub) && t.IsValue() && ConstArraysOfValues(t)
    ensures forall s :: s in Subterms(t) ==> s !in sub
  {
    if t.ConstArray? {
      ChildSubterms(t);
      assert t.elem in Children(t);
      ValueHasNoKeys(sub, t.elem);
    }
  }

  /** Substituting in the term is the same as updating the interpretation, in every interpretation. */
  lemma {:induction false} SubstitutionLemma<V>(m: Interp<V>, sub: Subst, t: Term)
    requires SymbolKeys(sub) && ConstArraysOfValues(t)
    ensures Eval(m, Substituted(sub, t)) == Eval(Update(m, sub), t)
  {
    match t
    case App(op, cs) =>
      forall i | 0 <= i < |cs|
        ensures Eval(m, Substituted(sub, cs[i])) == Eval(Update(m, sub), cs[i])
      {
        ChildSubterms(t);
        assert cs[i] in Children(t);
        SubstitutionLemma(m, sub, cs[i]);
      }
      var cs' := seq(|cs|, i requires 0 <= i < |cs| => Substituted(sub, cs[i]));
      EvalApp(m, op, cs');
      EvalApp(Update(m, sub), op, cs);
      assert EvalAll(m, cs') == EvalAll(Update(m, sub), cs);
    case ConstArray(e, s) =>
      ValueHasNoKeys(sub, t);
      Coincidence(m, Update(m, sub), t);
    case _ =>
  }

  // ----- AbsSmtSolver::substitute -----

  /** The worklist's own cache: finished results, and nodes still on their way mapped to themselves. */
  ghost predicate Placeholders(cache: map<Term, Term>, done: map<Term, Term>, visited: set<Term>) {
    && cache.Keys == done.Keys + visited
    && (forall k :: k in done ==> cache[k] == done[k])
    && (forall k :: k in cache && k !in done ==> cache[k] == k)
  }

  ghost predicate Substituting(sub: Subst, term: Term, stack: seq<Term>, post: seq<bool>, visited: set<Term>,
                               w: WalkState<()>, cache: map<Term, Term>)
  {
    && Walking(Stateless(RebuildNode), term, stack, post, visited, w,
      Dfs(Stateless(RebuildNode), term, WalkState(sub, ())))
    && Faithful(RebuildNode, sub, w.cache)
    && Placeholders(cache, w.cache, visited)
  }

  lemma PlaceholderEnter(cache: map<Term, Term>, done: map<Term, Term>, visited: set<Term>, t: Term)
    requires Placeholders(cache, done, visited) && t !in cache
    ensures t !in done && t !in visited && Placeholders(cache[t := t], done, visited + {t})
  {
  }

  lemma PlaceholderLeave(cache: map<Term, Term>, done: map<Term, Term>, visited: set<Term>,
                         t: Term, cache': map<Term, Term>, done': map<Term, Term>)
    requires Placeholders(cache, done, visited) && t in cache
    requires done'.Keys == done.Keys + {t} && (forall k :: k in done ==> done'[k] == done[k])
    requires cache' == cache[t := done'[t]]
    ensures Placeholders(cache', done', visited)
  {
  }

  /** A node met for the first time. */
  lemma {:induction false} SubstituteEnter(sub: Subst, term: Term, stack: seq<Term>, post: seq<bool>,
                                           visited: set<Term>,
                                           w: WalkState<()>, cache: map<Term, Term>)
    requires Substituting(sub, term, stack, post, visited, w, cache) && stack != []
    requires stack[|stack| - 1] !in cache
    ensures var t, k := stack[|stack| - 1], |stack| - 1;
      && t in Subterms(term) && t !in visited
      && Substituting(sub, term, Entered(stack[..k], t), EnteredPost(post[..k], t), visited + {t}, w, cache[t := t])
  {
    PlaceholderEnter(cache, w.cache, visited, stack[|stack| - 1]);
    WalkEnter(Stateless(RebuildNode), term, stack, post, visited, w,
              Dfs(Stateless(RebuildNode), term, WalkState(sub, ())));
  }

  /** What the loop writes for a node met again. */
  function Rebuilt(cache: map<Term, Term>, t: Term): map<Term, Term> {
    if Children(t) != [] && !t.IsValue() then cache[t := App(t.op, CachedAll(cache, Children(t)))] else cache
  }

  /** The cache after a node is met again, all of its children being final. */
  lemma RebuiltSettled(sub: Subst, t: Term, w: WalkState<()>, visited: set<Term>, cache: map<Term, Term>)
    requires SymbolKeys(sub) && Faithful(RebuildNode, sub, w.cache) && Placeholders(cache, w.cache, visited)
    requires t in cache
    requires t in w.cache || forall c :: c in Children(t) ==> c in w.cache
    ensures forall c :: c in Children(t) ==> c in w.cache && c in cache
    ensures Faithful(RebuildNode, sub, Post(Stateless(RebuildNode), t, w).cache)
    ensures Placeholders(Rebuilt(cache, t), Post(Stateless(RebuildNode), t, w).cache, visited)
  {
    SettledNode(sub, t, w);
    SameChildren(cache, w.cache, Children(t));
    var done := Post(Stateless(RebuildNode), t, w).cache;
    assert Rebuilt(cache, t) == cache[t := done[t]];
    PlaceholderLeave(cache, w.cache, visited, t, Rebuilt(cache, t), done);
  }

  /** A node met again: its children have their final entries, never placeholders,
      and its own entry becomes or stays final. */
  lemma SubstituteLeave(sub: Subst, term: Term, stack: seq<Term>, post: seq<bool>, visited: set<Term>,
                        w: WalkState<()>, cache: map<Term, Term>)
    requires SymbolKeys(sub)
    requires Substituting(sub, term, stack, post, visited, w, cache) && stack != []
    requires stack[|stack| - 1] in cache
    ensures var t, k := stack[|stack| - 1], |stack| - 1;
      && (forall c :: c in Children(t) ==> c in w.cache && c in cache)
      && Substituting(sub, term, stack[..k], post[..k], visited, Post(Stateless(RebuildNode), t, w), Rebuilt(cache, t))
  {
    WalkPop(Stateless(RebuildNode), term, stack, post, visited, w,
            Dfs(Stateless(RebuildNode), term, WalkState(sub, ())));
    var t := stack[|stack| - 1];
    RebuiltSettled(sub, t, w, visited, cache);
  }

  lemma SameChildren(cache: map<Term, Term>, done: map<Term, Term>, ts: seq<Term>)
    requires forall c :: c in ts ==> c in done && c in cache && cache[c] == done[c]
    ensures CachedAll(cache, ts) == CachedAll(done, ts)
  {
  }

  /** Rebuilding a finished node again leaves its entry as it is. */
  lemma SettledNode(sub: Subst, t: Term, w: WalkState<()>)
    requires SymbolKeys(sub) && Faithful(RebuildNode, sub, w.cache)
    requires t in w.cache || forall c :: c in Children(t) ==> c in w.cache
    ensures var done := Post(Stateless(RebuildNode), t, w).cache;
      && Faithful(RebuildNode, sub, done)
      && (forall c :: c in Children(t) ==> c in w.cache)
      && (forall k :: k in w.cache ==> k in done && done[k] == w.cache[k])
      && done.Keys == w.cache.Keys + {t}
      && (Children(t) != [] && !t.IsValue() ==> done[t] == App(t.op, CachedAll(w.cache, Children(t))))
      && (t !in w.cache && (Children(t) == [] || t.IsValue()) ==> done[t] == t)
  {
    if t !in sub {
      SaveFaithful(RebuildNode, sub, t, w);
    }
  }

  /** The second visit of a node, all of whose children have entries. */
  method RebuildEntry(cache: map<Term, Term>, t: Term) returns (after: map<Term, Term>)
    requires forall c :: c in Children(t) ==> c in cache
    ensures after == Rebuilt(cache, t)
  {
    var cachedChildren := [];
    for i := 0 to |Children(t)|
      invariant cachedChildren == CachedAll(cache, Children(t))[..i]
    {
      cachedChildren := cachedChildren + [cache[Children(t)[i]]];
    }
    TakeAll(CachedAll(cache, Children(t)));
    after := cache;
    if |cachedChildren| > 0 && !t.IsValue() {
      after := cache[t := App(t.op, cachedChildren)];
    }
  }

  method Substitute(term: Term, sub: Subst) returns (res: Term)
    requires SymbolKeys(sub)
    ensures res == Substituted(sub, term)
  {
    var cache := sub;
    var toVisit := [term];
    ghost var w, visited: set<Term>, post := WalkState(sub, ()), {}, [false];
    DfsFaithful(RebuildNode, sub, term, w);
    WalkIsSubstituted(sub, term);
    WalkStart(Stateless(RebuildNode), term, w);
    while |toVisit| > 0
      invariant Substituting(sub, term, toVisit, post, visited, w, cache)
      decreases Subterms(term) - visited, |toVisit|
    {
      var t := toVisit[|toVisit| - 1];
      ghost var stack, top := toVisit, |toVisit| - 1;
      toVisit := toVisit[..|toVisit| - 1];
      if t !in cache {
        SubstituteEnter(sub, term, stack, post, visited, w, cache);
        post, visited := EnteredPost(post[..top], t), visited + {t};
        cache := cache[t := t];
        toVisit := toVisit + [t] + Children(t);
      } else {
        SubstituteLeave(sub, term, stack, post, visited, w, cache);
        post, w := post[..top], Post(Stateless(RebuildNode), t, w);
        cache := RebuildEntry(cache, t);
      }
    }
    res := cache[term];
  }

  // ----- SubstitutionWalker -----

  /** Every key is replaced by a term of its own sort. */
  predicate SortsMatch(sub: Subst) {
    forall k :: k in sub ==> SortOf(k) == SortOf(sub[k])
  }

  /** An identity walker whose cache is filled with the substitution and kept between visits. */
  class SubstitutionWalker {
    const walker: IdentityWalker<()>
    ghost const sub: Subst

    ghost predicate Valid()
      reads walker
    {
      && walker.step == Stateless(RebuildNode) && !walker.clearCache
      && Faithful(RebuildNode, sub, walker.cache)
    }

    constructor (sub: Subst)
      ensures Valid() && this.sub == sub && fresh(walker)
    {
      walker := new IdentityWalker<()>(false, Stateless(RebuildNode), sub, ());
      this.sub := sub;
    }

    /** The constructor of the original: a sort mismatch is an error. */
    static method Create(sub: Subst) returns (r: Option<SubstitutionWalker>)
      ensures r.Some? <==> SortsMatch(sub)
      ensures r.Some? ==> r.value.Valid() && r.value.sub == sub && fresh(r.value) && fresh(r.value.walker)
    {
      var keys := sub.Keys;
      var cache: Subst := map[];
      while keys != {}
        invariant keys <= sub.Keys && cache.Keys == sub.Keys - keys
        invariant forall k :: k in cache ==> cache[k] == sub[k] && SortOf(k) == SortOf(sub[k])
        decreases keys
      {
        var k :| k in keys;
        if SortOf(k) != SortOf(sub[k]) {
          return None;
        }
        cache := cache[k := sub[k]];
        keys := keys - {k};
      }
      assert cache == sub;
      var w := new SubstitutionWalker(cache);
      return Some(w);
    }

    /** Each of any number of visits returns the substituted term and leaves a correct cache. */
    method Visit(term: Term) returns (out: Term)
      requires Valid()
      modifies walker
      ensures Valid()
      ensures out == Substituted(sub, term)
      ensures old(walker.cache.Keys) + {term} <= walker.cache.Keys
    {
      DfsFaithful(RebuildNode, sub, term, walker.State());
      WalkIsSubstituted(sub, term);
      out := walker.Visit(term);
    }
  }
}
