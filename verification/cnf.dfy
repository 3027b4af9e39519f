/** to_cnf: the defining clauses of a naming, the formula they make up, and its meaning. */
module Cnf {
  import opened Terms
  import opened Walker
  import opened Booleans
  import opened Simplify
  import opened Tseitin

  // ----- the meaning that clause generation gives to a formula -----

  /** Clause generation looks at the first two members of an Xor only. */
  function CutApply(op: Op, vs: seq<bool>): bool {
    if op.prim == Xor then |vs| > 1 && vs[0] != vs[1] else BoolApply(op, vs)
  }

  function CutInterp(env: Env): Interp<bool> {
    BoolInterp(env).(apply := CutApply)
  }

  predicate CutHolds(env: Env, t: Term) {
    Eval(CutInterp(env), t)
  }

  function CutTruths(env: Env, ts: seq<Term>): (vs: seq<bool>)
    ensures |vs| == |ts|
    ensures forall i :: 0 <= i < |ts| ==> vs[i] == CutHolds(env, ts[i])
  {
    EvalAll(CutInterp(env), ts)
  }

  lemma CutApp(env: Env, op: Op, ts: seq<Term>)
    ensures CutHolds(env, App(op, ts)) == CutApply(op, CutTruths(env, ts))
  {
    EvalApp(CutInterp(env), op, ts);
  }

  lemma {:induction false} ParityOfPair(vs: seq<bool>)
    requires |vs| == 2
    ensures Parity(vs) == (vs[0] != vs[1])
  {
    assert vs[..1] == [vs[0]] && [vs[0]][..0] == [];
    assert Parity([vs[0]]) == vs[0];
  }

  /** Where every Xor has two members that is the usual meaning. */
  lemma {:induction false} NarrowCut(env: Env, t: Term)
    requires Narrow(t) && ConstantFree(t)
    ensures CutHolds(env, t) == Holds(env, t)
  {
    if t.App? {
      var cs := t.children;
      forall i | 0 <= i < |cs|
        ensures CutHolds(env, cs[i]) == Holds(env, cs[i])
      {
        NarrowCut(env, cs[i]);
      }
      CutApp(env, t.op, cs);
      HoldsApp(env, t.op, cs);
      assert CutTruths(env, cs) == Truths(env, cs);
      if t.op.prim == Xor {
        ParityOfPair(Truths(env, cs));
      }
    }
  }

  // ----- definitions -----

  ghost predicate DefinitionHolds(env: Env, d: Definition) {
    CutHolds(env, d.0) == CutHolds(env, d.1)
  }

  ghost predicate AllDefinitionsHold(env: Env, ds: seq<Definition>) {
    forall i :: 0 <= i < |ds| ==> DefinitionHolds(env, ds[i])
  }

  /** Every node is as true as the name it was given. */
  ghost predicate NamesMean(env: Env, w: Naming) {
    forall t :: t in w.cache ==> CutHolds(env, w.cache[t]) == CutHolds(env, t)
  }

  lemma NamedApp(env: Env, w: Naming, t: Term, d: Definition)
    requires Defines(w.cache, t, d)
    requires forall c :: c in t.children ==> CutHolds(env, w.cache[c]) == CutHolds(env, c)
    ensures CutHolds(env, d.1) == CutHolds(env, t)
  {
    CutApp(env, t.op, t.children);
    CutApp(env, t.op, CachedAll(w.cache, t.children));
    assert CutTruths(env, CachedAll(w.cache, t.children)) == CutTruths(env, t.children);
  }

  lemma DefinitionOf(env: Env, w: Naming, t: Term) returns (d: Definition)
    requires GoodDefinitions(w) && t in w.cache && t.App? && AllDefinitionsHold(env, w.aux.reduced)
    ensures Defines(w.cache, t, d) && DefinitionHolds(env, d)
  {
    assert HasDefinition(w, t);
    var i :| 0 <= i < |w.aux.reduced| && Defines(w.cache, t, w.aux.reduced[i]);
    d := w.aux.reduced[i];
  }

  lemma {:induction false} NameMeans(env: Env, w: Naming, t: Term)
    requires forall u :: u in w.cache && !u.App? ==> w.cache[u] == u
    requires GoodDefinitions(w) && AllDefinitionsHold(env, w.aux.reduced)
    requires t in w.cache
    ensures CutHolds(env, w.cache[t]) == CutHolds(env, t)
    decreases Size(t)
  {
    if t.App? {
      var d := DefinitionOf(env, w, t);
      NamedChildrenMean(env, w, t, d);
      NamedApp(env, w, t, d);
    }
  }

  lemma {:induction false} NamedChildrenMean(env: Env, w: Naming, t: Term, d: Definition)
    requires forall u :: u in w.cache && !u.App? ==> w.cache[u] == u
    requires GoodDefinitions(w) && AllDefinitionsHold(env, w.aux.reduced)
    requires Defines(w.cache, t, d)
    ensures forall c :: c in t.children ==> CutHolds(env, w.cache[c]) == CutHolds(env, c)
    decreases Size(t), 0
  {
    forall c | c in t.children
      ensures CutHolds(env, w.cache[c]) == CutHolds(env, c)
    {
      ChildSmaller(t);
      assert c in Children(t);
      NameMeans(env, w, c);
    }
  }

  lemma DefinitionsGiveMeaning(env: Env, declared: set<string>, w: Naming)
    requires GoodNaming(declared, w) && GoodDefinitions(w) && AllDefinitionsHold(env, w.aux.reduced)
    ensures NamesMean(env, w)
  {
    forall t | t in w.cache
      ensures CutHolds(env, w.cache[t]) == CutHolds(env, t)
    {
      NameMeans(env, w, t);
    }
  }

  lemma MeaningGivesDefinitions(env: Env, declared: set<string>, w: Naming)
    requires GoodNaming(declared, w) && GoodDefinitions(w) && NamesMean(env, w)
    ensures AllDefinitionsHold(env, w.aux.reduced)
  {
    forall i | 0 <= i < |w.aux.reduced|
      ensures DefinitionHolds(env, w.aux.reduced[i])
    {
      assert IsDefinition(w, w.aux.reduced[i]);
      var t :| Defines(w.cache, t, w.aux.reduced[i]);
      NamedApp(env, w, t, w.aux.reduced[i]);
    }
  }

  /** The definitions hold exactly when each name has the truth value of its subterm. */
  lemma DefinitionsMean(env: Env, declared: set<string>, w: Naming)
    requires GoodNaming(declared, w) && GoodDefinitions(w)
    ensures AllDefinitionsHold(env, w.aux.reduced) <==> NamesMean(env, w)
  {
    if AllDefinitionsHold(env, w.aux.reduced) {
      DefinitionsGiveMeaning(env, declared, w);
    }
    if NamesMean(env, w) {
      MeaningGivesDefinitions(env, declared, w);
    }
  }

  // ----- clauses -----

  function NotAll(ts: seq<Term>): (r: seq<Term>)
    ensures |r| == |ts|
    ensures forall i :: 0 <= i < |ts| ==> r[i] == Make(Not, [ts[i]])
  {
    seq(|ts|, i requires 0 <= i < |ts| => Make(Not, [ts[i]]))
  }

  function OrNotEach(x: Term, ts: seq<Term>): (r: seq<Term>)
    ensures |r| == |ts|
    ensures forall i :: 0 <= i < |ts| ==> r[i] == Make(Or, [x, Make(Not, [ts[i]])])
  {
    seq(|ts|, i requires 0 <= i < |ts| => Make(Or, [x, Make(Not, [ts[i]])]))
  }

  function OrEachNot(ts: seq<Term>, x: Term): (r: seq<Term>)
    ensures |r| == |ts|
    ensures forall i :: 0 <= i < |ts| ==> r[i] == Make(Or, [ts[i], Make(Not, [x])])
  {
    seq(|ts|, i requires 0 <= i < |ts| => Make(Or, [ts[i], Make(Not, [x])]))
  }

  function Or3(a: Term, b: Term, c: Term): Term {
    Make(Or, [Make(Or, [a, b]), c])
  }

  function Neg(t: Term): Term {
    Make(Not, [t])
  }

  /** The clauses that make x name the application of op to cs. */
  function DefinitionClauses(x: Term, op: Op, cs: seq<Term>): seq<Term> {
    var le, ri := At(cs, 0), At(cs, 1);
    if op == Op(Or, []) then
      [Make(Or, [Neg(x)] + cs), Make(And, OrNotEach(x, cs))]
    else if op == Op(And, []) then
      [Make(Or, [x] + NotAll(cs)), Make(And, OrEachNot(cs, x))]
    else if op == Op(Xor, []) then
      [Or3(Neg(le), Neg(ri), Neg(x)), Or3(le, ri, Neg(x)), Or3(x, ri, Neg(le)), Or3(x, le, Neg(ri))]
    else if op == Op(Implies, []) then
      [Or3(Neg(le), ri, Neg(x)), Make(Or, [le, x]), Make(Or, [Neg(ri), x])]
    else if op == Op(Equal, []) then
      [Or3(Neg(le), Neg(ri), x), Or3(le, ri, x),
       Make(Or, [Make(Or, [le, Neg(ri)]), Neg(x)]), Make(Or, [Make(Or, [Neg(le), ri]), Neg(x)])]
    else
      [Make(Or, [Neg(le), Neg(x)]), Make(Or, [le, x])]
  }

  function AllClauses(ds: seq<Definition>): seq<Term> {
    if ds == [] then []
    else
      var d := ds[|ds| - 1];
      AllClauses(ds[..|ds| - 1]) + if d.1.App? then DefinitionClauses(d.0, d.1.op, d.1.children) else []
  }

  lemma HoldsOr2(env: Env, a: Term, b: Term)
    ensures Holds(env, Make(Or, [a, b])) == (Holds(env, a) || Holds(env, b))
  {
    HoldsOr(env, [a, b]);
    assert a in [a, b] && b in [a, b];
  }

  lemma HoldsOr3(env: Env, a: Term, b: Term, c: Term)
    ensures Holds(env, Or3(a, b, c)) == (Holds(env, a) || Holds(env, b) || Holds(env, c))
  {
    HoldsOr2(env, a, b);
    HoldsOr2(env, Make(Or, [a, b]), c);
  }

  lemma OrClauses(env: Env, x: Term, cs: seq<Term>)
    ensures Holds(env, Make(Or, [Neg(x)] + cs)) && Holds(env, Make(And, OrNotEach(x, cs)))
       <==> Holds(env, x) == exists c :: c in cs && Holds(env, c)
  {
    HoldsNot(env, x);
    HoldsOr(env, [Neg(x)] + cs);
    HoldsAnd(env, OrNotEach(x, cs));
    assert Neg(x) in [Neg(x)] + cs;
    assert forall c :: c in [Neg(x)] + cs <==> c == Neg(x) || c in cs;
    forall i | 0 <= i < |cs|
      ensures OrNotEach(x, cs)[i] in OrNotEach(x, cs)
      ensures Holds(env, OrNotEach(x, cs)[i]) == (Holds(env, x) || !Holds(env, cs[i]))
    {
      HoldsNot(env, cs[i]);
      HoldsOr2(env, x, Neg(cs[i]));
    }
  }

  lemma AndClauses(env: Env, x: Term, cs: seq<Term>)
    ensures Holds(env, Make(Or, [x] + NotAll(cs))) && Holds(env, Make(And, OrEachNot(cs, x)))
       <==> Holds(env, x) == forall c :: c in cs ==> Holds(env, c)
  {
    HoldsNot(env, x);
    HoldsOr(env, [x] + NotAll(cs));
    HoldsAnd(env, OrEachNot(cs, x));
    assert x in [x] + NotAll(cs);
    assert forall c :: c in [x] + NotAll(cs) <==> c == x || c in NotAll(cs);
    forall i | 0 <= i < |cs|
      ensures OrEachNot(cs, x)[i] in OrEachNot(cs, x) && NotAll(cs)[i] in NotAll(cs)
      ensures Holds(env, OrEachNot(cs, x)[i]) == (Holds(env, cs[i]) || !Holds(env, x))
      ensures Holds(env, NotAll(cs)[i]) == !Holds(env, cs[i])
    {
      HoldsNot(env, cs[i]);
      HoldsOr2(env, cs[i], Neg(x));
    }
  }

  ghost predicate AllHold(env: Env, ts: seq<Term>) {
    forall t :: t in ts ==> Holds(env, t)
  }

  ghost predicate ClausesDefine(env: Env, x: Term, op: Op, cs: seq<Term>) {
    AllHold(env, DefinitionClauses(x, op, cs)) <==> Holds(env, x) == CutApply(op, Truths(env, cs))
  }

  lemma OrDefines(env: Env, x: Term, cs: seq<Term>)
    ensures ClausesDefine(env, x, Op(Or, []), cs)
  {
    var ds := DefinitionClauses(x, Op(Or, []), cs);
    assert ds[0] in ds && ds[1] in ds;
    OrClauses(env, x, cs);
    JunctionTruths(env, cs);
  }

  lemma AndDefines(env: Env, x: Term, cs: seq<Term>)
    ensures ClausesDefine(env, x, Op(And, []), cs)
  {
    var ds := DefinitionClauses(x, Op(And, []), cs);
    assert ds[0] in ds && ds[1] in ds;
    AndClauses(env, x, cs);
    JunctionTruths(env, cs);
  }

  lemma FourHold(env: Env, ds: seq<Term>)
    requires |ds| == 4
    ensures AllHold(env, ds) <==> Holds(env, ds[0]) && Holds(env, ds[1]) && Holds(env, ds[2]) && Holds(env, ds[3])
  {
    assert ds[0] in ds && ds[1] in ds && ds[2] in ds && ds[3] in ds;
  }

  lemma XorDefines(env: Env, x: Term, cs: seq<Term>)
    requires |cs| >= 2
    ensures ClausesDefine(env, x, Op(Xor, []), cs)
  {
    var ds, le, ri := DefinitionClauses(x, Op(Xor, []), cs), cs[0], cs[1];
    FourHold(env, ds);
    NegationsHold(env, x, le, ri);
    HoldsOr3(env, Neg(le), Neg(ri), Neg(x));
    HoldsOr3(env, le, ri, Neg(x));
    HoldsOr3(env, x, ri, Neg(le));
    HoldsOr3(env, x, le, Neg(ri));
  }

  lemma ImpliesDefines(env: Env, x: Term, cs: seq<Term>)
    requires |cs| == 2
    ensures ClausesDefine(env, x, Op(Implies, []), cs)
  {
    var ds, le, ri := DefinitionClauses(x, Op(Implies, []), cs), cs[0], cs[1];
    assert ds[0] in ds && ds[1] in ds && ds[2] in ds;
    NegationsHold(env, x, le, ri);
    HoldsOr3(env, Neg(le), ri, Neg(x));
    HoldsOr2(env, le, x);
    HoldsOr2(env, Neg(ri), x);
  }

  lemma EqualDefines(env: Env, x: Term, cs: seq<Term>)
    requires |cs| == 2
    ensures ClausesDefine(env, x, Op(Equal, []), cs)
  {
    var ds, le, ri := DefinitionClauses(x, Op(Equal, []), cs), cs[0], cs[1];
    FourHold(env, ds);
    NegationsHold(env, x, le, ri);
    HoldsOr3(env, Neg(le), Neg(ri), x);
    HoldsOr3(env, le, ri, x);
    HoldsOr3(env, le, Neg(ri), Neg(x));
    HoldsOr3(env, Neg(le), ri, Neg(x));
  }

  lemma NotDefines(env: Env, x: Term, cs: seq<Term>)
    requires |cs| == 1
    ensures ClausesDefine(env, x, Op(Not, []), cs)
  {
    var ds, le := DefinitionClauses(x, Op(Not, []), cs), cs[0];
    assert ds[0] in ds && ds[1] in ds;
    NegationsHold(env, x, le, le);
    HoldsOr2(env, Neg(le), Neg(x));
    HoldsOr2(env, le, x);
  }

  lemma NegationsHold(env: Env, x: Term, le: Term, ri: Term)
    ensures Holds(env, Neg(x)) == !Holds(env, x)
    ensures Holds(env, Neg(le)) == !Holds(env, le)
    ensures Holds(env, Neg(ri)) == !Holds(env, ri)
  {
    HoldsNot(env, x);
    HoldsNot(env, le);
    HoldsNot(env, ri);
  }

  /** The clauses of a definition hold exactly when the name is as true as what it names. */
  lemma DefinitionClausesHold(env: Env, x: Term, op: Op, cs: seq<Term>)
    requires BoolNode(op, |cs|) && (op.prim == Xor ==> |cs| >= 2)
    ensures AllHold(env, DefinitionClauses(x, op, cs)) <==> Holds(env, x) == CutApply(op, Truths(env, cs))
  {
    match op.prim
    case Or => OrDefines(env, x, cs);
    case And => AndDefines(env, x, cs);
    case Xor => XorDefines(env, x, cs);
    case Implies => ImpliesDefines(env, x, cs);
    case Equal => EqualDefines(env, x, cs);
    case Not => NotDefines(env, x, cs);
  }

  lemma JunctionTruths(env: Env, cs: seq<Term>)
    ensures true in Truths(env, cs) <==> exists c :: c in cs && Holds(env, c)
    ensures false !in Truths(env, cs) <==> forall c :: c in cs ==> Holds(env, c)
  {
    HoldsOr(env, cs);
    HoldsAnd(env, cs);
    HoldsApp(env, Op(Or, []), cs);
    HoldsApp(env, Op(And, []), cs);
  }
}
