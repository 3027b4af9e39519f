/** TermTranslator of src/term_translator.cpp: terms move to a solver that keeps Booleans and
    one-bit vectors apart. */
module Translator {
  import opened Terms
  import opened Sorts
  import opened Walker
  import opened Aliases
  import opened Casts

  /** The step of transfer_term for one node, from the translations of its children and the sorts of the
      symbols of the target solver. None stands for an exception. */
  function NodeOf(hex: bool, declared: map<string, Sort>, t: Term, cs: seq<Term>): Option<Term> {
    match t
    case Symbol(n, _) => if n in declared then Some(Symbol(n, declared[n])) else None
    case ConstArray(_, s) =>
      if |cs| == 1 && s.ArraySort? && TargetSort(cs[0]) == s.elem && !s.elem.ArraySort? then Some(ConstArray(cs[0], s))
      else None
    case App(op, _) => if CheckSorted(op, TargetSorts(cs)) then Some(App(op, cs)) else CastedOp(hex, op, cs)
    case _ => Some(t)
  }

  /** An entry is what its node step makes of the entries of its children. */
  ghost predicate Built(hex: bool, declared: map<string, Sort>, cache: map<Term, Term>, k: Term) {
    && k in cache && (forall c :: c in Children(k) ==> c in cache)
    && NodeOf(hex, declared, k, CachedAll(cache, Children(k))) == Some(cache[k])
  }

  /** The caches that can be reached: every entry was given by the user or built. */
  ghost predicate Consistent(hex: bool, declared: map<string, Sort>, given: map<Term, Term>, cache: map<Term, Term>) {
    && (forall k :: k in given ==> k in cache && cache[k] == given[k])
    && (forall k :: k in cache && k !in given ==> Built(hex, declared, cache, k))
  }

  /** A node that cannot be translated although its children are. */
  ghost predicate Refused(hex: bool, declared: map<string, Sort>, cache: map<Term, Term>, t: Term) {
    && t !in cache && !t.Symbol? && (forall c :: c in Children(t) ==> c in cache)
    && NodeOf(hex, declared, t, CachedAll(cache, Children(t))) == None
  }

  ghost predicate Extends<K, V>(a: map<K, V>, b: map<K, V>) {
    forall k :: k in a ==> k in b && b[k] == a[k]
  }

  /** Only what occurs in the term is new. */
  ghost predicate Grown(term: Term, cache: map<Term, Term>, declared: map<string, Sort>,
                        cache': map<Term, Term>, declared': map<string, Sort>)
  {
    && Extends(cache, cache') && Extends(declared, declared')
    && (forall k :: k in cache' && k !in cache ==> k in Subterms(term))
    && (forall n :: n in declared' && n !in declared ==> Symbol(n, declared'[n]) in Subterms(term))
  }

  /** Entries stay built when symbols and entries are added. */
  lemma BuiltGrows(hex: bool, declared: map<string, Sort>, cache: map<Term, Term>, k: Term,
                   declared': map<string, Sort>, cache': map<Term, Term>)
    requires Built(hex, declared, cache, k) && Extends(declared, declared') && Extends(cache, cache')
    ensures Built(hex, declared', cache', k)
  {
    assert CachedAll(cache', Children(k)) == CachedAll(cache, Children(k));
  }

  lemma ConsistentGrows(hex: bool, declared: map<string, Sort>, given: map<Term, Term>, cache: map<Term, Term>,
                        declared': map<string, Sort>, t: Term, r: Term)
    requires Consistent(hex, declared, given, cache) && Extends(declared, declared') && t !in cache
    requires forall c :: c in Children(t) ==> c in cache
    requires NodeOf(hex, declared', t, CachedAll(cache, Children(t))) == Some(r)
    ensures Consistent(hex, declared', given, cache[t := r])
  {
    var cache' := cache[t := r];
    forall k | k in cache' && k !in given
      ensures Built(hex, declared', cache', k)
    {
      if k in cache {
        BuiltGrows(hex, declared, cache, k, declared', cache');
      } else {
        assert CachedAll(cache', Children(t)) == CachedAll(cache, Children(t));
      }
    }
  }

  // ----- the worklist -----

  function Reversed(ts: seq<Term>): (r: seq<Term>)
    ensures |r| == |ts|
    ensures forall i :: 0 <= i < |ts| ==> r[i] == ts[|ts| - 1 - i]
    ensures forall t :: t in r <==> t in ts
  {
    var r := seq(|ts|, i requires 0 <= i < |ts| => ts[|ts| - 1 - i]);
    assert forall i :: 0 <= i < |ts| ==> ts[i] == r[|ts| - 1 - i];
    r
  }

  lemma EnteredReversed(stack: seq<Term>, t: Term)
    ensures var s, s' := Entered(stack, t), stack + [t] + Reversed(Children(t));
      && |s'| == |s| && (forall i :: 0 <= i <= |stack| ==> s'[i] == s[i])
      && (forall i :: |stack| < i < |s| ==> s'[i] in Children(t))
      && (forall c :: c in Children(t) ==> exists j :: |stack| < j < |s| && s'[j] == c)
  {
    var s', cs := stack + [t] + Reversed(Children(t)), Children(t);
    forall c | c in cs
      ensures exists j :: |stack| < j < |s'| && s'[j] == c
    {
      var i :| 0 <= i < |cs| && Reversed(cs)[i] == c;
      assert s'[|stack| + 1 + i] == c;
    }
  }

  /** The order of the children on the stack does not matter. */
  lemma MarkedReversed(root: Term, stack: seq<Term>, post: seq<bool>, visited: set<Term>, cache: map<Term, Term>,
                       t: Term)
    requires |stack| == |post| && Marked(root, Entered(stack, t), EnteredPost(post, t), visited, cache)
    ensures Marked(root, stack + [t] + Reversed(Children(t)), EnteredPost(post, t), visited, cache)
  {
    var k, s, s', p := |stack|, Entered(stack, t), stack + [t] + Reversed(Children(t)), EnteredPost(post, t);
    EnterPrefix(stack, post, t);
    EnteredReversed(stack, t);
    assert s[k] == t;
    EnterInTree(root, t);
    forall u | u in visited && u !in cache
      ensures MarkedAt(s', p, u)
    {
      var i :| 0 <= i < |s| && p[i] && s[i] == u;
      assert s'[i] == u;
    }
    ReversedNested(stack, post, t);
    ReversedPending(stack, post, cache, t);
  }

  lemma ReversedNested(stack: seq<Term>, post: seq<bool>, t: Term)
    requires |stack| == |post| && |Entered(stack, t)| == |EnteredPost(post, t)|
      && Nested(Entered(stack, t), EnteredPost(post, t))
    ensures |stack + [t] + Reversed(Children(t))| == |EnteredPost(post, t)|
    ensures Nested(stack + [t] + Reversed(Children(t)), EnteredPost(post, t))
  {
    var k, s, s', p := |stack|, Entered(stack, t), stack + [t] + Reversed(Children(t)), EnteredPost(post, t);
    EnterPrefix(stack, post, t);
    EnteredReversed(stack, t);
    forall i, j | 0 <= i < j < |s'| && p[i]
      ensures Size(s'[j]) < Size(s'[i])
    {
      assert i <= k;
      if j > k {
        var j' :| 0 <= j' < |Children(t)| && Children(t)[j'] == s'[j];
        assert s[k + 1 + j'] == s'[j];
      }
    }
  }

  lemma ReversedPending(stack: seq<Term>, post: seq<bool>, cache: map<Term, Term>, t: Term)
    requires |stack| == |post| && |Entered(stack, t)| == |EnteredPost(post, t)|
    requires ChildrenPending(Entered(stack, t), EnteredPost(post, t), cache)
    ensures |stack + [t] + Reversed(Children(t))| == |EnteredPost(post, t)|
    ensures ChildrenPending(stack + [t] + Reversed(Children(t)), EnteredPost(post, t), cache)
  {
    var k, s, s', p := |stack|, Entered(stack, t), stack + [t] + Reversed(Children(t)), EnteredPost(post, t);
    EnterPrefix(stack, post, t);
    EnteredReversed(stack, t);
    forall i, c | 0 <= i < |s'| && p[i] && c in Children(s'[i])
      ensures c in cache || Above(s', i, c)
    {
      assert i <= k && s'[i] == s[i];
      if c !in cache {
        var j :| i < j < |s| && s[j] == c;
        if j <= k {
          assert s'[j] == c;
        }
      }
    }
  }

  /** The loop invariant of transfer_term. */
  ghost predicate Transferring(root: Term, stack: seq<Term>, post: seq<bool>, visited: set<Term>,
                               cache: map<Term, Term>) {
    Marked(root, stack, post, visited, cache) && (root in visited || root in cache || stack == [root])
  }

  lemma TransferStart(root: Term, cache: map<Term, Term>)
    ensures Transferring(root, [root], [false], {}, cache)
  {
  }

  /** The top entry is visited for the first time. */
  lemma {:induction false} TransferEnter(root: Term, stack: seq<Term>, post: seq<bool>, visited: set<Term>,
                                         cache: map<Term, Term>)
    requires Transferring(root, stack, post, visited, cache) && stack != []
    requires stack[|stack| - 1] !in cache && stack[|stack| - 1] !in visited
    ensures var t, k := stack[|stack| - 1], |stack| - 1;
      && Transferring(root, stack[..k] + [t] + Reversed(Children(t)), EnteredPost(post[..k], t), visited + {t}, cache)
      && Subterms(root) - (visited + {t}) < Subterms(root) - visited
  {
    var t, k := stack[|stack| - 1], |stack| - 1;
    MarkedTop(root, stack, post, visited, cache);
    assert stack == stack[..k] + [t] && post == post[..k] + [false];
    MarkedEnter(root, stack[..k], post[..k], visited, cache, t);
    MarkedReversed(root, stack[..k], post[..k], visited + {t}, cache, t);
    assert t in Subterms(root) - visited;
  }

  /** A top entry that was visited before and is not done has all its children done. */
  lemma {:induction false} TransferTop(root: Term, stack: seq<Term>, post: seq<bool>, visited: set<Term>,
                                       cache: map<Term, Term>)
    requires Transferring(root, stack, post, visited, cache) && stack != []
    ensures stack[|stack| - 1] in Subterms(root)
    ensures stack[|stack| - 1] !in cache && stack[|stack| - 1] in visited ==>
      forall c :: c in Children(stack[|stack| - 1]) ==> c in cache
  {
    if stack[|stack| - 1] !in cache {
      MarkedTop(root, stack, post, visited, cache);
    }
  }

  /** The top entry was done before or is done now. */
  lemma TransferLeave(root: Term, stack: seq<Term>, post: seq<bool>, visited: set<Term>,
                      cache: map<Term, Term>, cache': map<Term, Term>)
    requires Transferring(root, stack, post, visited, cache) && stack != []
    requires cache'.Keys == cache.Keys + {stack[|stack| - 1]}
    ensures Transferring(root, stack[..|stack| - 1], post[..|stack| - 1], visited, cache')
  {
    MarkedPop(root, stack, post, visited, cache, cache');
  }

  lemma {:induction false} GrownFurther(term: Term, t: Term, c: map<Term, Term>, d: map<string, Sort>,
                                        c': map<Term, Term>,
                                        d': map<string, Sort>, c'': map<Term, Term>, d'': map<string, Sort>)
    requires Grown(term, c, d, c', d') && Grown(t, c', d', c'', d'') && t in Subterms(term)
    ensures Grown(term, c, d, c'', d'')
  {
    SubtermsTransitive(term, t);
  }

  // ----- the translation keeps the meaning -----

  /** The translation is strictly well-sorted, at the sort of the source term up to aliasing,
      and has the same value. */
  ghost predicate Corresponds<V>(st: Structure<V>, t: Term, r: Term) {
    && AliasedSort(t).Some? && SortOf(r).Some?
    && Erase(SortOf(r).value) == AliasedSort(t).value
    && Eval(st.m, r) == Eval(st.m, t)
  }

  /** Symbols that the target solver has already were declared there at an aliased sort. */
  ghost predicate SymbolsAgree(declared: map<string, Sort>, t: Term) {
    forall s :: s in Subterms(t) && s.Symbol? && s.name in declared ==> Erase(declared[s.name]) == Erase(s.sort)
  }

  /** The entries that the user gave are right. */
  ghost predicate GivenRight<V(!new)>(st: Structure<V>, given: map<Term, Term>) {
    forall k :: k in given && AliasedSort(k).Some? ==> Corresponds(st, k, given[k])
  }

  lemma {:induction false} ApplicationMeans<V(!new)>(st: Structure<V>, hex: bool, declared: map<string, Sort>, op: Op,
                                                     ts: seq<Term>,
                                              cs: seq<Term>)
    requires Aliasing(st) && AliasedSort(App(op, ts)).Some? && |cs| == |ts|
    requires forall i :: 0 <= i < |ts| ==> Corresponds(st, ts[i], cs[i])
    requires NodeOf(hex, declared, App(op, ts), cs).Some?
    ensures Corresponds(st, App(op, ts), NodeOf(hex, declared, App(op, ts), cs).value)
  {
    var es := AliasedArguments(op, ts);
    var ss := TargetSorts(cs);
    assert HaveSorts(cs, ss);
    assert EraseAll(ss) == es;
    assert EvalAll(st.m, cs) == EvalAll(st.m, ts);
    EvalApp(st.m, op, ts);
    EvalApp(st.m, op, cs);
    SortOfNode(op, cs, ss);
    if CheckSorted(op, ss) {
      CheckErased(op, ss);
    } else {
      CastOpMeans(st, hex, op, cs, ss);
    }
  }

  lemma {:induction false} ConstArrayMeans<V(!new)>(st: Structure<V>, hex: bool, declared: map<string, Sort>, e: Term,
                                                    s: Sort, c: Term)
    requires AliasedSort(ConstArray(e, s)).Some? && Corresponds(st, e, c)
    requires NodeOf(hex, declared, ConstArray(e, s), [c]).Some?
    ensures Corresponds(st, ConstArray(e, s), NodeOf(hex, declared, ConstArray(e, s), [c]).value)
  {
  }

  lemma {:induction false} LeafMeans<V(!new)>(st: Structure<V>, hex: bool, declared: map<string, Sort>, t: Term)
    requires Aliasing(st) && t.IsLeaf() && AliasedSort(t).Some? && SymbolsAgree(declared, t)
    requires NodeOf(hex, declared, t, []).Some?
    ensures Corresponds(st, t, NodeOf(hex, declared, t, []).value)
  {
  }

  /** Every entry of every reachable cache corresponds to its key. */
  lemma {:induction false} TranslationMeans<V(!new)>(st: Structure<V>, hex: bool, declared: map<string, Sort>,
                                                     given: map<Term, Term>, cache: map<Term, Term>, t: Term)
    requires Aliasing(st) && Consistent(hex, declared, given, cache) && GivenRight(st, given)
    requires t in cache && AliasedSort(t).Some? && SymbolsAgree(declared, t)
    ensures Corresponds(st, t, cache[t])
    decreases Size(t)
  {
    if t !in given {
      ChildSmaller(t);
      ChildSubterms(t);
      assert Built(hex, declared, cache, t);
      match t
      case App(op, ts) =>
        var es := AliasedArguments(op, ts);
        forall i | 0 <= i < |ts|
          ensures Corresponds(st, ts[i], cache[ts[i]])
        {
          assert ts[i] in Children(t);
          TranslationMeans(st, hex, declared, given, cache, ts[i]);
        }
        ApplicationMeans(st, hex, declared, op, ts, CachedAll(cache, ts));
      case ConstArray(e, s) =>
        assert e in Children(t) && CachedAll(cache, Children(t)) == [cache[e]];
        TranslationMeans(st, hex, declared, given, cache, e);
        ConstArrayMeans(st, hex, declared, e, s, cache[e]);
      case _ =>
        LeafMeans(st, hex, declared, t);
    }
  }

  /** Which applications are refused. */
  lemma {:induction false} ApplicationRefusedExactly<V(!new)>(st: Structure<V>, hex: bool, declared: map<string, Sort>,
                                                              op: Op,
                                                       ts: seq<Term>, cs: seq<Term>)
    requires AliasedSort(App(op, ts)).Some? && |cs| == |ts|
    requires forall i :: 0 <= i < |ts| ==> Corresponds(st, ts[i], cs[i])
    requires forall c :: c in cs ==> GoodElement(c)
    ensures NodeOf(hex, declared, App(op, ts), cs).None?
       <==> !CheckSorted(op, TargetSorts(cs)) && RefusesCast(op, cs, TargetSorts(cs))
  {
    var es := AliasedArguments(op, ts);
    var ss := TargetSorts(cs);
    assert HaveSorts(cs, ss);
    assert EraseAll(ss) == es;
    if !CheckSorted(op, ss) {
      CastOpRefusesExactly(hex, op, cs, ss);
    }
  }

  // ----- what cannot be translated -----

  /** Constant arrays hold values, and one-bit values are 0 and 1, in all of a term. */
  predicate GoodSource(t: Term) {
    GoodElement(t) &&
    match t
    case App(_, cs) => forall c :: c in cs ==> GoodSource(c)
    case ConstArray(e, _) => GoodSource(e)
    case _ => true
  }

  /** This is so of the entries that the user gave, and values have been given for values. */
  ghost predicate GivenGood(given: map<Term, Term>) {
    forall k :: k in given ==> GoodElement(given[k]) && (k.IsValue() ==> given[k].IsValue())
  }

  lemma {:induction false} TranslationGood(hex: bool, declared: map<string, Sort>, given: map<Term, Term>,
                                           cache: map<Term, Term>, t: Term)
    requires Consistent(hex, declared, given, cache) && GivenGood(given) && t in cache && GoodSource(t)
    ensures GoodElement(cache[t]) && (t.IsValue() ==> cache[t].IsValue())
    decreases Size(t)
  {
    if t !in given {
      assert Built(hex, declared, cache, t);
      if t.ConstArray? {
        ChildSmaller(t);
        assert t.elem in Children(t) && CachedAll(cache, Children(t)) == [cache[t.elem]];
        TranslationGood(hex, declared, given, cache, t.elem);
      }
    }
  }

  /** An application whose translated arguments cannot be cast, or a constant array whose translated element has
      another sort than the elements, or is an array. */
  ghost predicate Untranslatable(cache: map<Term, Term>, t: Term) {
    match t
    case App(op, ts) =>
      var cs := CachedAll(cache, ts);
      !CheckSorted(op, TargetSorts(cs)) && RefusesCast(op, cs, TargetSorts(cs))
    case ConstArray(e, s) => s.ArraySort? ==> TargetSort(Cached(cache, e)) != s.elem || s.elem.ArraySort?
    case _ => false
  }

  ghost predicate ChildrenDone<V(!new)>(st: Structure<V>, cache: map<Term, Term>, t: Term) {
    forall c :: c in Children(t) ==> c in cache && Corresponds(st, c, cache[c]) && GoodElement(cache[c])
  }

  /** The step of transfer_term fails for exactly these nodes; in particular for no leaf. */
  lemma {:induction false} NodeRefusedExactly<V(!new)>(st: Structure<V>, hex: bool, declared: map<string, Sort>,
                                                       cache: map<Term, Term>,
                                                       t: Term)
    requires AliasedSort(t).Some? && ChildrenDone(st, cache, t) && (t.Symbol? ==> t.name in declared)
    ensures NodeOf(hex, declared, t, CachedAll(cache, Children(t))).None? <==> Untranslatable(cache, t)
  {
    match t
    case App(op, ts) =>
      var cs := CachedAll(cache, ts);
      forall i | 0 <= i < |ts|
        ensures Corresponds(st, ts[i], cs[i]) && GoodElement(cs[i])
      {
        assert ts[i] in Children(t);
      }
      ApplicationRefusedExactly(st, hex, declared, op, ts, cs);
    case ConstArray(e, _) =>
      assert e in Children(t) && CachedAll(cache, Children(t)) == [cache[e]];
    case _ =>
  }

  /** Parts of a term that is well-sorted up to aliasing are so. */
  lemma {:induction false} AliasedSubterms(t: Term, u: Term)
    requires AliasedSort(t).Some? && u in Subterms(t)
    ensures AliasedSort(u).Some?
    decreases Size(t)
  {
    if u != t {
      ChildSmaller(t);
      var c :| c in Children(t) && u in Subterms(c);
      match t
      case App(op, cs) =>
        var es := AliasedArguments(op, cs);
        AliasedSubterms(c, u);
      case ConstArray(_, _) => AliasedSubterms(c, u);
    }
  }

  lemma {:induction false} GoodSubterms(t: Term, u: Term)
    requires GoodSource(t) && u in Subterms(t)
    ensures GoodSource(u)
    decreases Size(t)
  {
    if u != t {
      ChildSmaller(t);
      var c :| c in Children(t) && u in Subterms(c);
      GoodSubterms(c, u);
    }
  }

  /** The children of any node of the term that are in the cache correspond to their translations. */
  lemma {:induction false} ChildrenTranslated<V(!new)>(st: Structure<V>, hex: bool, declared: map<string, Sort>,
                                                       given: map<Term, Term>,
                                                       cache: map<Term, Term>, term: Term, t: Term)
    requires Aliasing(st) && Consistent(hex, declared, given, cache) && GivenRight(st, given) && GivenGood(given)
    requires AliasedSort(term).Some? && SymbolsAgree(declared, term) && GoodSource(term) && t in Subterms(term)
    requires forall c :: c in Children(t) ==> c in cache
    ensures AliasedSort(t).Some? && ChildrenDone(st, cache, t)
  {
    AliasedSubterms(term, t);
    forall c | c in Children(t)
      ensures Corresponds(st, c, cache[c]) && GoodElement(cache[c])
    {
      ChildSubterms(t);
      SubtermsTransitive(term, t);
      SubtermsTransitive(term, c);
      AliasedSubterms(term, c);
      GoodSubterms(term, c);
      TranslationMeans(st, hex, declared, given, cache, c);
      TranslationGood(hex, declared, given, cache, c);
    }
  }

  /** When a call stops, it is at such a node; when it does not, no node that it translated is one. */
  lemma {:induction false} RefusedMeans<V(!new)>(st: Structure<V>, hex: bool, declared: map<string, Sort>,
                                                 given: map<Term, Term>,
                                                 cache: map<Term, Term>, term: Term, t: Term)
    requires Aliasing(st) && Consistent(hex, declared, given, cache) && GivenRight(st, given) && GivenGood(given)
    requires AliasedSort(term).Some? && SymbolsAgree(declared, term) && GoodSource(term) && t in Subterms(term)
    ensures Refused(hex, declared, cache, t) ==> Untranslatable(cache, t)
    ensures t in cache && t !in given ==> !Untranslatable(cache, t)
  {
    if Refused(hex, declared, cache, t) || (t in cache && t !in given) {
      assert t in cache && t !in given ==> Built(hex, declared, cache, t);
      ChildrenTranslated(st, hex, declared, given, cache, term, t);
      NodeRefusedExactly(st, hex, declared, cache, t);
    }
  }

  /** Some node of the term is not translated, although its children are, because it cannot be. */
  ghost predicate Blocked(cache: map<Term, Term>, term: Term) {
    exists t :: t in Subterms(term) && t !in cache && (forall c :: c in Children(t) ==> c in cache) &&
      Untranslatable(cache, t)
  }

  /** No translated node is one that cannot be. */
  ghost predicate Unblocked(given: map<Term, Term>, cache: map<Term, Term>, term: Term) {
    forall t :: t in Subterms(term) && t in cache && t !in given ==> !Untranslatable(cache, t)
  }

  lemma {:induction false} CallMeans<V(!new)>(st: Structure<V>, hex: bool, declared: map<string, Sort>,
                                              given: map<Term, Term>,
                                              cache: map<Term, Term>, term: Term)
    requires Aliasing(st) && Consistent(hex, declared, given, cache) && GivenRight(st, given) && GivenGood(given)
    requires AliasedSort(term).Some? && SymbolsAgree(declared, term) && GoodSource(term)
    ensures Unblocked(given, cache, term)
    ensures (exists t :: t in Subterms(term) && Refused(hex, declared, cache, t)) ==> Blocked(cache, term)
  {
    forall t | t in Subterms(term)
      ensures Refused(hex, declared, cache, t) ==> Untranslatable(cache, t)
      ensures t in cache && t !in given ==> !Untranslatable(cache, t)
    {
      RefusedMeans(st, hex, declared, given, cache, term, t);
    }
  }

  // ----- terms of a solver that keeps Booleans and one-bit vectors apart -----

  /** Well-sorted, and without constant arrays of arrays. */
  ghost predicate Plain(t: Term) {
    SortOf(t).Some? && forall u :: u in Subterms(t) && u.ConstArray? ==> u.sort.ArraySort? && !u.sort.elem.ArraySort?
  }

  /** The target solver has the symbols of the term at the same sorts, or not at all. */
  ghost predicate SymbolsSame(declared: map<string, Sort>, t: Term) {
    forall s :: s in Subterms(t) && s.Symbol? && s.name in declared ==> declared[s.name] == s.sort
  }

  lemma PlainChild(t: Term, c: Term)
    requires Plain(t) && c in Children(t)
    ensures Plain(c)
  {
    ChildSubterms(t);
    SubtermsTransitive(t, c);
    if t.App? {
      var ss := StrictArguments(t.op, t.children);
    }
  }

  /** The step makes the node again from its children. */
  lemma NodeSame(hex: bool, declared: map<string, Sort>, t: Term)
    requires Plain(t) && (t.Symbol? ==> t.name in declared && declared[t.name] == t.sort)
    ensures NodeOf(hex, declared, t, Children(t)) == Some(t)
  {
    assert t in Subterms(t);
    if t.App? {
      var ss := StrictArguments(t.op, t.children);
      assert TargetSorts(t.children) == ss;
    }
  }

  lemma {:induction false} TranslationSame(hex: bool, declared: map<string, Sort>, given: map<Term, Term>,
                                           cache: map<Term, Term>, t: Term)
    requires Consistent(hex, declared, given, cache) && (forall k :: k in given ==> given[k] == k)
    requires t in cache && Plain(t) && SymbolsSame(declared, t)
    ensures cache[t] == t
    decreases Size(t)
  {
    if t !in given {
      assert Built(hex, declared, cache, t);
      ChildrenSame(hex, declared, given, cache, t);
      assert t in Subterms(t);
      NodeSame(hex, declared, t);
    }
  }

  lemma {:induction false} ChildrenSame(hex: bool, declared: map<string, Sort>, given: map<Term, Term>,
                                        cache: map<Term, Term>, t: Term)
    requires Consistent(hex, declared, given, cache) && (forall k :: k in given ==> given[k] == k)
    requires Plain(t) && SymbolsSame(declared, t) && forall c :: c in Children(t) ==> c in cache
    ensures CachedAll(cache, Children(t)) == Children(t)
    decreases Size(t), 0
  {
    ChildSmaller(t);
    forall i | 0 <= i < |Children(t)|
      ensures cache[Children(t)[i]] == Children(t)[i]
    {
      var c := Children(t)[i];
      PlainChild(t, c);
      ChildSubterms(t);
      SubtermsTransitive(t, c);
      TranslationSame(hex, declared, given, cache, c);
    }
  }

  lemma {:induction false} PlainSubterm(t: Term, u: Term)
    requires Plain(t) && u in Subterms(t)
    ensures Plain(u)
    decreases Size(t)
  {
    if u != t {
      ChildSmaller(t);
      var c :| c in Children(t) && u in Subterms(c);
      PlainChild(t, c);
      PlainSubterm(c, u);
    }
  }

  /** No node of such a term is refused. */
  lemma {:induction false} PlainNotRefused(hex: bool, declared: map<string, Sort>, given: map<Term, Term>,
                                           cache: map<Term, Term>,
                                           term: Term, t: Term)
    requires Consistent(hex, declared, given, cache) && (forall k :: k in given ==> given[k] == k)
    requires Plain(term) && SymbolsSame(declared, term) && t in Subterms(term)
    ensures !Refused(hex, declared, cache, t)
  {
    if Refused(hex, declared, cache, t) {
      PlainSubterm(term, t);
      SubtermsTransitive(term, t);
      ChildrenSame(hex, declared, given, cache, t);
      NodeSame(hex, declared, t);
    }
  }

  lemma SymbolsStillSame(term: Term, cache: map<Term, Term>, declared: map<string, Sort>,
                         cache': map<Term, Term>, declared': map<string, Sort>)
    requires Grown(term, cache, declared, cache', declared') && SymbolsSame(declared, term) && UniqueNames(term)
    ensures SymbolsSame(declared', term)
  {
    forall s | s in Subterms(term) && s.Symbol? && s.name in declared'
      ensures declared'[s.name] == s.sort
    {
      if s.name !in declared {
        assert Symbol(s.name, declared'[s.name]) in Subterms(term);
      }
    }
  }

  // ----- one call of transfer_term -----

  /** No two symbols of the term have the same name and different sorts. */
  ghost predicate UniqueNames(t: Term) {
    forall s, s' :: s in Subterms(t) && s' in Subterms(t) && s.Symbol? && s'.Symbol? && s.name == s'.name ==>
      s.sort == s'.sort
  }

  /** Symbols that the translation declares itself have the sorts of the term's. */
  lemma SymbolsStillAgree(term: Term, cache: map<Term, Term>, declared: map<string, Sort>,
                          cache': map<Term, Term>, declared': map<string, Sort>)
    requires Grown(term, cache, declared, cache', declared') && SymbolsAgree(declared, term) && UniqueNames(term)
    ensures SymbolsAgree(declared', term)
  {
    forall s | s in Subterms(term) && s.Symbol? && s.name in declared'
      ensures Erase(declared'[s.name]) == Erase(s.sort)
    {
      if s.name !in declared {
        assert Symbol(s.name, declared'[s.name]) in Subterms(term);
      }
    }
  }

  /** What transfer_term returns corresponds to the term it is given, when the symbols that the target solver had
      before have aliased sorts. */
  lemma {:induction false} TransferredMeans<V(!new)>(st: Structure<V>, hex: bool, given: map<Term, Term>, term: Term,
                                                     cache: map<Term, Term>, declared: map<string, Sort>,
                                                     cache': map<Term, Term>, declared': map<string, Sort>)
    requires Aliasing(st) && GivenRight(st, given) && AliasedSort(term).Some?
    requires SymbolsAgree(declared, term) && UniqueNames(term)
    requires Grown(term, cache, declared, cache', declared') && Consistent(hex, declared', given, cache')
      && term in cache'
    ensures Corresponds(st, term, cache'[term])
  {
    SymbolsStillAgree(term, cache, declared, cache', declared');
    TranslationMeans(st, hex, declared', given, cache', term);
  }

  datatype SortKind = BoolKind | IntKind | BVKind | ArrayKind | FunctionKind | UninterpretedKind

  function KindOf(s: Sort): SortKind {
    match s
    case BoolSort => BoolKind
    case IntSort => IntKind
    case BVSort(_) => BVKind
    case ArraySort(_, _) => ArrayKind
    case FunctionSort(_, _) => FunctionKind
    case UninterpretedSort(_) => UninterpretedKind
  }

  /** The last step of transfer_term with a sort kind. */
  function AsKind(hex: bool, t: Term, kind: SortKind): Option<Term> {
    var s := TargetSort(t);
    if KindOf(s) == kind then Some(t)
    else if s == BVSort(1) && kind == BoolKind then CastTerm(hex, t, BoolSort)
    else if s == BoolSort && kind == BVKind then CastTerm(hex, t, BVSort(1))
    else None
  }

  /** A translation asked for at a kind has that kind, and is refused exactly when the
      kind is not the one of the source up to aliasing. */
  lemma {:induction false} AsKindMeans<V(!new)>(st: Structure<V>, hex: bool, t: Term, r: Term, kind: SortKind)
    requires Aliasing(st) && Corresponds(st, t, r) && GoodValue(r)
    ensures var k := AsKind(hex, r, kind);
      && (k.Some? ==> Corresponds(st, t, k.value) && KindOf(SortOf(k.value).value) == kind)
      && (k.Some? <==>
        KindOf(SortOf(r).value) == kind || (AliasedSort(t) == Some(BVSort(1)) && kind in {BoolKind, BVKind}))
  {
    if Erase(SortOf(r).value) == BVSort(1) && (kind == BoolKind || kind == BVKind) {
      AsScalarMeans(st, hex, t, r, kind);
    }
  }

  /** Booleans and one-bit vectors are had at either kind. */
  lemma {:induction false} AsScalarMeans<V(!new)>(st: Structure<V>, hex: bool, t: Term, r: Term, kind: SortKind)
    requires Aliasing(st) && Corresponds(st, t, r) && GoodValue(r)
    requires Erase(SortOf(r).value) == BVSort(1) && (kind == BoolKind || kind == BVKind)
    ensures var k := AsKind(hex, r, kind);
      k.Some? && Corresponds(st, t, k.value) && KindOf(SortOf(k.value).value) == kind
  {
    var target := if kind == BoolKind then BoolSort else BVSort(1);
    ErasedScalar(SortOf(r).value);
    CastTermRefuses(hex, r, target);
    CastTermMeans(st, hex, r, target);
    assert AsKind(hex, r, kind) == CastTerm(hex, r, target);
  }

  class TermTranslator {
    var cache: map<Term, Term>
    /** The symbols of the target solver. */
    var declared: map<string, Sort>
    /** Whether the target solver prints bit-vector values in hexadecimal. */
    const hex: bool
    /** The entries put into the cache through get_cache. */
    ghost var given: map<Term, Term>

    constructor (declared: map<string, Sort>, hex: bool)
      ensures Valid() && cache == map[] == given && this.declared == declared && this.hex == hex
    {
      this.declared, this.hex, cache, given := declared, hex, map[], map[];
    }

    ghost predicate Valid()
      reads this
    {
      Consistent(hex, declared, given, cache)
    }

    /** An entry the user adds to the cache for a term that is not in it yet. */
    method Populate(t: Term, r: Term)
      requires Valid() && t !in cache
      modifies `cache, `given
      ensures Valid() && cache == old(cache)[t := r] && given == old(given)[t := r]
    {
      forall k | k in cache && k !in given
        ensures Built(hex, declared, cache[t := r], k)
      {
        BuiltGrows(hex, declared, cache, k, declared, cache[t := r]);
      }
      cache, given := cache[t := r], given[t := r];
    }

    /** A node whose children are all in the cache. */
    method TransferNode(t: Term) returns (ok: bool)
      requires Valid() && t !in cache && forall c :: c in Children(t) ==> c in cache
      modifies `cache, `declared
      ensures Valid()
      ensures ok ==> cache.Keys == old(cache).Keys + {t} && Grown(t, old(cache), old(declared), cache, declared)
      ensures !ok ==> cache == old(cache) && declared == old(declared) && Refused(hex, declared, cache, t)
    {
      var cachedChildren := CachedAll(cache, Children(t));
      ghost var before := declared;
      if t.Symbol? && t.name !in declared {
        declared := declared[t.name := t.sort];
      }
      var r: Option<Term>;
      if t.App? && !CheckSorted(t.op, TargetSorts(cachedChildren)) {
        r := CastOp(hex, t.op, cachedChildren);
      } else {
        r := NodeOf(hex, declared, t, cachedChildren);
      }
      if r.None? {
        return false;
      }
      ConsistentGrows(hex, before, given, cache, declared, t, r.value);
      cache := cache[t := r.value];
      ok := true;
    }

    /** A node met while the term given first is transferred, which began with the cache c and the symbols d. */
    method TransferBelow(ghost term: Term, t: Term, ghost c: map<Term, Term>, ghost d: map<string, Sort>)
      returns (ok: bool)
      requires Valid() && t in Subterms(term) && Grown(term, c, d, cache, declared)
      requires t !in cache ==> forall k :: k in Children(t) ==> k in cache
      modifies `cache, `declared
      ensures Valid() && Grown(term, c, d, cache, declared)
      ensures ok ==> cache.Keys == old(cache).Keys + {t}
      ensures !ok ==> Refused(hex, declared, cache, t)
    {
      if t in cache {
        return true;
      }
      ok := TransferNode(t);
      if ok {
        GrownFurther(term, t, c, d, old(cache), old(declared), cache, declared);
      }
    }

    /** transfer_term. On failure, the translation stops at a node that cannot be translated. */
    method TransferTerm(term: Term) returns (r: Option<Term>)
      requires Valid()
      modifies `cache, `declared
      ensures Valid() && Grown(term, old(cache), old(declared), cache, declared)
      ensures r.Some? ==> term in cache && r.value == cache[term]
      ensures r.None? ==> exists t :: t in Subterms(term) && Refused(hex, declared, cache, t)
    {
      if term in cache {
        return Some(cache[term]);
      }
      var toVisit := [term];
      var visited: set<Term> := {};
      ghost var post := [false];
      TransferStart(term, cache);
      while |toVisit| > 0
        invariant Valid() && Grown(term, old(cache), old(declared), cache, declared)
        invariant Transferring(term, toVisit, post, visited, cache)
        decreases Subterms(term) - visited, |toVisit|
      {
        var t := toVisit[|toVisit| - 1];
        ghost var stack, c := toVisit, cache;
        toVisit := toVisit[..|toVisit| - 1];
        TransferTop(term, stack, post, visited, cache);
        if t !in cache && t !in visited {
          TransferEnter(term, stack, post, visited, cache);
          post := EnteredPost(post[..|toVisit|], t);
          visited := visited + {t};
          toVisit := PushReversed(toVisit + [t], Children(t));
          continue;
        }
        var ok := TransferBelow(term, t, old(cache), old(declared));
        if !ok {
          return None;
        }
        TransferLeave(term, stack, post, visited, c, cache);
        post := post[..|toVisit|];
      }
      r := Some(cache[term]);
    }

    /** transfer_term with a sort kind. */
    method TransferTermAs(term: Term, kind: SortKind) returns (r: Option<Term>)
      requires Valid()
      modifies `cache, `declared
      ensures Valid() && Grown(term, old(cache), old(declared), cache, declared)
      ensures r.Some? ==> term in cache && r == AsKind(hex, cache[term], kind)
      ensures r.None? ==>
        || (exists t :: t in Subterms(term) && Refused(hex, declared, cache, t))
        || (term in cache && AsKind(hex, cache[term], kind) == None)
    {
      r := TransferTerm(term);
      if r.Some? {
        r := AsKind(hex, r.value, kind);
      }
    }

    /** A term that is well-sorted up to aliasing: the result is strictly well-sorted, at the same sort up to aliasing,
        and has the same value in the given structure. */
    method TransferMeaning<V(!new)>(ghost st: Structure<V>, term: Term) returns (r: Option<Term>)
      requires Valid() && Aliasing(st) && GivenRight(st, given) && AliasedSort(term).Some?
      requires SymbolsAgree(declared, term) && UniqueNames(term)
      modifies `cache, `declared
      ensures Valid() && (r.Some? ==> Corresponds(st, term, r.value))
      ensures r.None? ==> exists t :: t in Subterms(term) && Refused(hex, declared, cache, t)
      ensures GoodSource(term) && GivenGood(given) ==>
        if r.Some? then Unblocked(given, cache, term) else Blocked(cache, term)
    {
      ghost var c, d := cache, declared;
      r := TransferTerm(term);
      SymbolsStillAgree(term, c, d, cache, declared);
      if r.Some? {
        TransferredMeans(st, hex, given, term, c, d, cache, declared);
      }
      if GoodSource(term) && GivenGood(given) {
        CallMeans(st, hex, declared, given, cache, term);
      }
    }

    /** A well-sorted term of a solver that keeps Booleans and one-bit vectors apart is translated to itself. */
    method TransferPlain(term: Term) returns (r: Option<Term>)
      requires Valid() && (forall k :: k in given ==> given[k] == k)
      requires Plain(term) && SymbolsSame(declared, term) && UniqueNames(term)
      modifies `cache, `declared
      ensures Valid() && r == Some(term)
    {
      ghost var c, d := cache, declared;
      r := TransferTerm(term);
      SymbolsStillSame(term, c, d, cache, declared);
      if r.Some? {
        TranslationSame(hex, declared, given, cache, term);
      } else {
        ghost var t :| t in Subterms(term) && Refused(hex, declared, cache, t);
        PlainNotRefused(hex, declared, given, cache, term, t);
      }
    }

    method PushReversed(stack: seq<Term>, children: seq<Term>) returns (r: seq<Term>)
      ensures r == stack + Reversed(children)
    {
      r := stack;
      for i := 0 to |children|
        invariant r == stack + Reversed(children)[..i]
      {
        r := r + [children[|children| - 1 - i]];
      }
    }
  }
}
