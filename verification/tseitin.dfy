/** TseitinTraversal of src/utils.cpp: every distinct application in a formula gets a fresh name
    and a definition over names. */
module Tseitin {
  import opened Terms
  import opened Walker
  import opened Symbols

  const PREFIX := "tseitin_to_cnf_"

  /** A name and the application, over names, that it stands for. */
  type Definition = (Term, Term)

  datatype NamingState = NamingState(declared: set<string>, reduced: seq<Definition>)

  /** visit_term of TseitinTraversal: an application gets a fresh name, a symbol keeps its own. */
  function NameNode(t: Term, cs: seq<Term>, s: NamingState): (Term, NamingState) {
    if t.App? then
      var x := Symbol(FreshName(s.declared, PREFIX, 1), BoolSort);
      (x, NamingState(s.declared + {x.name}, s.reduced + [(x, App(t.op, cs))]))
    else (t, s)
  }

  type Naming = WalkState<NamingState>

  ghost function NameAll(g: Term, declared: set<string>): Naming {
    Dfs(NameNode, g, Unnamed(declared))
  }

  // ----- what a naming is -----

  ghost function Applications(ts: set<Term>): set<Term> {
    set t | t in ts && t.App?
  }

  ghost predicate Defines(cache: map<Term, Term>, t: Term, d: Definition) {
    && t in cache && t.App?
    && (forall c :: c in t.children ==> c in cache)
    && d == (cache[t], App(t.op, CachedAll(cache, t.children)))
  }

  /** Every application has a name of its own, taken neither by a symbol nor by another
      application, and the definitions are exactly those of the named applications. */
  ghost predicate GoodNaming(declared: set<string>, w: Naming) {
    && Closed(w.cache)
    && (forall t :: t in w.cache && !t.App? ==> w.cache[t] == t)
    && (forall t :: t in w.cache && t.App? ==> w.cache[t].Symbol? && w.cache[t].sort == BoolSort)
    && (forall t :: t in w.cache && t.App? ==> w.cache[t].name in w.aux.declared - declared)
    && (forall t, u :: t in w.cache && u in w.cache && t.App? && u.App? && w.cache[t] == w.cache[u] ==> t == u)
    && declared <= w.aux.declared
    && (forall n :: n in w.aux.declared - declared ==> exists t :: t in w.cache && t.App? && w.cache[t].name == n)
  }

  ghost predicate HasDefinition(w: Naming, t: Term) {
    exists i :: 0 <= i < |w.aux.reduced| && Defines(w.cache, t, w.aux.reduced[i])
  }

  ghost predicate IsDefinition(w: Naming, d: Definition) {
    exists t :: Defines(w.cache, t, d)
  }

  ghost predicate GoodDefinitions(w: Naming) {
    && (forall t :: t in w.cache && t.App? ==> HasDefinition(w, t))
    && (forall i :: 0 <= i < |w.aux.reduced| ==> IsDefinition(w, w.aux.reduced[i]))
    && |w.aux.reduced| == |Applications(w.cache.Keys)|
  }

  lemma DefinesKept(cache: map<Term, Term>, cache': map<Term, Term>, t: Term, d: Definition)
    requires Defines(cache, t, d)
    requires forall k :: k in cache ==> k in cache' && cache'[k] == cache[k]
    ensures Defines(cache', t, d)
  {
    assert CachedAll(cache', t.children) == CachedAll(cache, t.children);
  }

  lemma SaveNames(declared: set<string>, t: Term, w: Naming)
    requires GoodNaming(declared, w) && t !in w.cache && forall c :: c in Children(t) ==> c in w.cache
    ensures GoodNaming(declared, Save(NameNode, t, w))
  {
    var w' := Save(NameNode, t, w);
    forall n | n in w'.aux.declared - declared
      ensures exists u :: u in w'.cache && u.App? && w'.cache[u].name == n
    {
      if n in w.aux.declared {
        assert n in w.aux.declared - declared;
        var u :| u in w.cache && u.App? && w.cache[u].name == n;
        assert w'.cache[u].name == n;
      } else {
        assert w'.cache[t].name == n;
      }
    }
  }

  lemma SaveNew(t: Term, w: Naming)
    requires t.App? && t !in w.cache && forall c :: c in t.children ==> c in w.cache
    ensures var w' := Save(NameNode, t, w);
      && |w'.aux.reduced| == |w.aux.reduced| + 1
      && Defines(w'.cache, t, w'.aux.reduced[|w.aux.reduced|])
  {
    var w' := Save(NameNode, t, w);
    assert CachedAll(w'.cache, t.children) == CachedAll(w.cache, t.children);
  }

  lemma SaveOld(t: Term, w: Naming, u: Term, i: nat)
    requires t !in w.cache && i < |w.aux.reduced| && Defines(w.cache, u, w.aux.reduced[i])
    ensures var w' := Save(NameNode, t, w);
      i < |w'.aux.reduced| && w'.aux.reduced[i] == w.aux.reduced[i] && Defines(w'.cache, u, w'.aux.reduced[i])
  {
    DefinesKept(w.cache, Save(NameNode, t, w).cache, u, w.aux.reduced[i]);
  }

  lemma SaveHasDefinition(t: Term, w: Naming, u: Term)
    requires t !in w.cache && forall c :: c in Children(t) ==> c in w.cache
    requires u.App? && (u == t || HasDefinition(w, u))
    ensures HasDefinition(Save(NameNode, t, w), u)
  {
    if u == t {
      SaveNew(t, w);
    } else {
      var i :| 0 <= i < |w.aux.reduced| && Defines(w.cache, u, w.aux.reduced[i]);
      SaveOld(t, w, u, i);
    }
  }

  lemma SaveIsDefinition(t: Term, w: Naming, i: nat)
    requires t !in w.cache && forall c :: c in Children(t) ==> c in w.cache
    requires i < |Save(NameNode, t, w).aux.reduced|
    requires i < |w.aux.reduced| ==> IsDefinition(w, w.aux.reduced[i])
    ensures IsDefinition(Save(NameNode, t, w), Save(NameNode, t, w).aux.reduced[i])
  {
    if i < |w.aux.reduced| {
      var u :| Defines(w.cache, u, w.aux.reduced[i]);
      SaveOld(t, w, u, i);
    } else {
      SaveNew(t, w);
    }
  }

  lemma SaveCount(t: Term, w: Naming)
    requires t !in w.cache && |w.aux.reduced| == |Applications(w.cache.Keys)|
    ensures |Save(NameNode, t, w).aux.reduced| == |Applications(Save(NameNode, t, w).cache.Keys)|
  {
    assert Applications(Save(NameNode, t, w).cache.Keys)
        == Applications(w.cache.Keys) + (if t.App? then {t} else {});
  }

  lemma SaveDefines(t: Term, w: Naming)
    requires GoodDefinitions(w) && t !in w.cache && forall c :: c in Children(t) ==> c in w.cache
    ensures GoodDefinitions(Save(NameNode, t, w))
  {
    var w' := Save(NameNode, t, w);
    SaveCount(t, w);
    forall u | u in w'.cache && u.App?
      ensures HasDefinition(w', u)
    {
      SaveHasDefinition(t, w, u);
    }
    forall i | 0 <= i < |w'.aux.reduced|
      ensures IsDefinition(w', w'.aux.reduced[i])
    {
      SaveIsDefinition(t, w, i);
    }
  }

  lemma {:induction false} DfsNames(declared: set<string>, t: Term, w: Naming)
    requires GoodNaming(declared, w) && GoodDefinitions(w)
    ensures var r := Dfs(NameNode, t, w); GoodNaming(declared, r) && GoodDefinitions(r)
    decreases Size(t), 0
  {
    if t !in w.cache {
      DfsSaves(NameNode, t, w);
      DfsAllNames(declared, Size(t), ChildrenBelow(t), w);
      var before := DfsAll(NameNode, Size(t), ChildrenBelow(t), w);
      SaveNames(declared, t, before);
      SaveDefines(t, before);
    }
  }

  lemma {:induction false} DfsAllNames(declared: set<string>, bound: nat, ts: seq<Term>, w: Naming)
    requires GoodNaming(declared, w) && GoodDefinitions(w)
    requires forall c :: c in ts ==> Size(c) < bound
    ensures var r := DfsAll(NameNode, bound, ts, w); GoodNaming(declared, r) && GoodDefinitions(r)
    decreases bound, 0, |ts|
  {
    if ts != [] {
      DfsNames(declared, ts[|ts| - 1], w);
      DfsAllNames(declared, bound, ts[..|ts| - 1], Dfs(NameNode, ts[|ts| - 1], w));
    }
  }

  ghost function Unnamed(declared: set<string>): (w: Naming)
    ensures GoodNaming(declared, w) && GoodDefinitions(w)
  {
    WalkState(map[], NamingState(declared, []))
  }

  ghost predicate RootLast(g: Term, w: Naming) {
    w.aux.reduced != [] && g in w.cache && w.aux.reduced[|w.aux.reduced| - 1].0 == w.cache[g]
  }

  /** The naming of a formula: one fresh name for each distinct application in it,
      the last definition being that of the formula itself. */
  lemma {:induction false} NamingOf(g: Term, declared: set<string>)
    requires g.App?
    ensures var w := NameAll(g, declared);
      && GoodNaming(declared, w) && GoodDefinitions(w) && RootLast(g, w)
      && w.cache.Keys == Subterms(g)
      && |w.aux.reduced| == |Applications(Subterms(g))|
  {
    var start := Unnamed(declared);
    DfsNames(declared, g, start);
    DfsKeys(NameNode, g, start);
    NamingRoot(g, declared);
  }

  lemma NamingRoot(g: Term, declared: set<string>)
    requires g.App?
    ensures RootLast(g, NameAll(g, declared))
  {
    DfsSaves(NameNode, g, Unnamed(declared));
  }
}
