/** to_cnf as a whole: the method, the shape of its result and what the result means. */
module ToCnf {
  import opened Terms
  import opened Walker
  import opened Booleans
  import opened Symbols
  import opened Simplify
  import opened CnfForm
  import opened Tseitin
  import opened Cnf

  // ----- the formula made of a list of definitions -----

  /** The name of the last definition, and all defining clauses. */
  function CnfOf(ds: seq<Definition>): Term {
    if ds == [] then TRUE else Make(And, [ds[|ds| - 1].0, Make(And, AllClauses(ds))])
  }

  predicate IsBoolSymbol(t: Term) {
    t.Symbol? && t.sort == BoolSort
  }

  /** An application of a Boolean operator to symbols, and its name. */
  predicate FlatDefinition(d: Definition) {
    && IsBoolSymbol(d.0) && d.1.App? && BoolNode(d.1.op, |d.1.children|)
    && (IsJunction(d.1.op.prim) ==> |d.1.children| >= 2)
    && forall c :: c in d.1.children ==> IsBoolSymbol(c)
  }

  ghost predicate FlatDefinitions(ds: seq<Definition>) {
    forall i :: 0 <= i < |ds| ==> FlatDefinition(ds[i])
  }

  lemma {:induction false} SubtermsConstantFree(t: Term)
    requires ConstantFree(t)
    ensures forall s :: s in Subterms(t) ==> ConstantFree(s)
  {
    forall s | s in Subterms(t) && s != t
      ensures ConstantFree(s)
    {
      var c :| c in t.children && s in Subterms(c);
      SubtermsConstantFree(c);
    }
  }

  lemma NamingIsFlat(declared: set<string>, w: Naming, i: nat)
    requires GoodNaming(declared, w) && GoodDefinitions(w) && i < |w.aux.reduced|
    requires forall t :: t in w.cache ==> ConstantFree(t)
    ensures FlatDefinition(w.aux.reduced[i])
  {
    assert IsDefinition(w, w.aux.reduced[i]);
    var t :| Defines(w.cache, t, w.aux.reduced[i]);
    forall j | 0 <= j < |t.children|
      ensures IsBoolSymbol(CachedAll(w.cache, t.children)[j])
    {
      assert t.children[j] in t.children && ConstantFree(t.children[j]);
    }
  }

  lemma FlatDefinitionHolds(env: Env, d: Definition)
    requires FlatDefinition(d)
    ensures AllHold(env, DefinitionClauses(d.0, d.1.op, d.1.children)) <==> DefinitionHolds(env, d)
  {
    var cs := d.1.children;
    DefinitionClausesHold(env, d.0, d.1.op, cs);
    CutApp(env, d.1.op, cs);
    forall i | 0 <= i < |cs|
      ensures Holds(env, cs[i]) == CutHolds(env, cs[i])
    {
      assert IsBoolSymbol(cs[i]);
    }
    assert Truths(env, cs) == CutTruths(env, cs);
  }

  lemma {:induction false} AllClausesHold(env: Env, ds: seq<Definition>)
    requires FlatDefinitions(ds)
    ensures AllHold(env, AllClauses(ds)) <==> AllDefinitionsHold(env, ds)
    decreases |ds|
  {
    if ds != [] {
      var d, init := ds[|ds| - 1], ds[..|ds| - 1];
      AllClausesHold(env, init);
      assert FlatDefinition(d);
      FlatDefinitionHolds(env, d);
      SplitLast(ds);
      DefinitionsSnoc(env, init, d);
      AllHoldConcat(env, AllClauses(init), DefinitionClauses(d.0, d.1.op, d.1.children));
    }
  }

  lemma AllHoldConcat(env: Env, a: seq<Term>, b: seq<Term>)
    ensures AllHold(env, a + b) <==> AllHold(env, a) && AllHold(env, b)
  {
    assert forall t :: t in a + b <==> t in a || t in b;
  }

  lemma DefinitionsSnoc(env: Env, ds: seq<Definition>, d: Definition)
    ensures AllDefinitionsHold(env, ds + [d]) <==> AllDefinitionsHold(env, ds) && DefinitionHolds(env, d)
  {
    assert (ds + [d])[|ds|] == d;
    assert forall i :: 0 <= i < |ds| ==> (ds + [d])[i] == ds[i];
  }

  /** The formula says that all definitions hold and the last name is true. */
  lemma CnfOfHolds(env: Env, ds: seq<Definition>)
    requires FlatDefinitions(ds) && ds != []
    ensures Holds(env, CnfOf(ds)) <==> AllDefinitionsHold(env, ds) && Holds(env, ds[|ds| - 1].0)
  {
    var root, rest := ds[|ds| - 1].0, Make(And, AllClauses(ds));
    HoldsAnd(env, [root, rest]);
    assert root in [root, rest] && rest in [root, rest];
    HoldsAnd(env, AllClauses(ds));
    AllClausesHold(env, ds);
  }

  // ----- the result is in CNF, and how large it is -----

  lemma {:induction false} LeavesAllIn(p: PrimOp, ts: seq<Term>, l: Term)
    ensures l in LeavesAll(p, ts) ==> exists t :: t in ts && l in Leaves(p, t)
    decreases |ts|
  {
    if ts != [] && l in LeavesAll(p, ts) {
      var init, last := ts[..|ts| - 1], ts[|ts| - 1];
      LeavesAllIn(p, init, l);
      if l in Leaves(p, last) {
        assert last in ts;
      } else {
        var t :| t in init && l in Leaves(p, t);
        assert t in ts;
      }
    }
  }

  lemma OrIsClause(ts: seq<Term>)
    requires forall t :: t in ts ==> IsClause(t)
    ensures IsClause(Make(Or, ts))
  {
    forall l | l in Leaves(Or, Make(Or, ts))
      ensures IsLiteral(l)
    {
      LeavesAllIn(Or, ts, l);
    }
  }

  lemma AndIsCnf(ts: seq<Term>)
    requires forall t :: t in ts ==> IsCnf(t)
    ensures IsCnf(Make(And, ts))
  {
    forall c | c in Leaves(And, Make(And, ts))
      ensures IsClause(c)
    {
      LeavesAllIn(And, ts, c);
    }
  }

  predicate ClauseOrLiteral(t: Term) {
    IsClause(t) && !t.HasOp(And)
  }

  lemma LiteralsAreClauses(x: Term)
    requires IsBoolSymbol(x)
    ensures ClauseOrLiteral(x) && ClauseOrLiteral(Neg(x))
  {
  }

  lemma OrOfTwo(a: Term, b: Term)
    requires IsClause(a) && IsClause(b)
    ensures ClauseOrLiteral(Make(Or, [a, b]))
  {
    OrIsClause([a, b]);
  }

  lemma OrOfThree(a: Term, b: Term, c: Term)
    requires IsClause(a) && IsClause(b) && IsClause(c)
    ensures ClauseOrLiteral(Or3(a, b, c))
  {
    OrOfTwo(a, b);
    OrOfTwo(Make(Or, [a, b]), c);
  }

  lemma {:induction false} LeavesOfClauses(ts: seq<Term>)
    requires forall t :: t in ts ==> ClauseOrLiteral(t)
    ensures |LeavesAll(And, ts)| == |ts|
    decreases |ts|
  {
    if ts != [] {
      assert ts[|ts| - 1] in ts;
      LeavesOfClauses(ts[..|ts| - 1]);
    }
  }

  lemma JunctionClausesInCnf(x: Term, cs: seq<Term>)
    requires IsBoolSymbol(x) && forall c :: c in cs ==> IsBoolSymbol(c)
    ensures ClauseOrLiteral(Make(Or, [Neg(x)] + cs)) && ClauseOrLiteral(Make(Or, [x] + NotAll(cs)))
    ensures IsCnf(Make(And, OrNotEach(x, cs))) && IsCnf(Make(And, OrEachNot(cs, x)))
    ensures |Leaves(And, Make(And, OrNotEach(x, cs)))| == |Leaves(And, Make(And, OrEachNot(cs, x)))| == |cs|
  {
    LiteralsAreClauses(x);
    forall i | 0 <= i < |cs|
      ensures ClauseOrLiteral(cs[i]) && ClauseOrLiteral(NotAll(cs)[i])
      ensures ClauseOrLiteral(OrNotEach(x, cs)[i]) && ClauseOrLiteral(OrEachNot(cs, x)[i])
    {
      LiteralsAreClauses(cs[i]);
      OrOfTwo(x, Neg(cs[i]));
      OrOfTwo(cs[i], Neg(x));
    }
    OrIsClause([Neg(x)] + cs);
    OrIsClause([x] + NotAll(cs));
    AndIsCnf(OrNotEach(x, cs));
    AndIsCnf(OrEachNot(cs, x));
    LeavesOfClauses(OrNotEach(x, cs));
    LeavesOfClauses(OrEachNot(cs, x));
  }

  /** The number of clauses a definition takes. */
  function ClauseCount(op: Op, n: nat): nat {
    match op.prim
    case And | Or => n + 1
    case Xor | Equal => 4
    case Implies => 3
    case _ => 2
  }

  lemma DefinitionClausesInCnf(d: Definition)
    requires FlatDefinition(d)
    ensures var ts := DefinitionClauses(d.0, d.1.op, d.1.children);
      && (forall t :: t in ts ==> IsCnf(t))
      && |LeavesAll(And, ts)| == ClauseCount(d.1.op, |d.1.children|)
  {
    var x, cs := d.0, d.1.children;
    var ts := DefinitionClauses(x, d.1.op, cs);
    if d.1.op.prim == And || d.1.op.prim == Or {
      JunctionDefinitionInCnf(x, d.1.op, cs);
    } else {
      FixedClausesInCnf(d);
      LeavesOfClauses(ts);
    }
  }

  lemma JunctionDefinitionInCnf(x: Term, op: Op, cs: seq<Term>)
    requires op == Op(And, []) || op == Op(Or, [])
    requires IsBoolSymbol(x) && forall c :: c in cs ==> IsBoolSymbol(c)
    ensures var ts := DefinitionClauses(x, op, cs);
      (forall t :: t in ts ==> IsCnf(t)) && |LeavesAll(And, ts)| == |cs| + 1
  {
    var ts := DefinitionClauses(x, op, cs);
    JunctionClausesInCnf(x, cs);
    PairSplit(ts);
    LeavesOfPair(And, ts[0], ts[1]);
  }

  lemma PairSplit(ts: seq<Term>)
    requires |ts| == 2
    ensures ts == [ts[0], ts[1]]
  {
  }

  lemma FourClauses(a: Term, b: Term, c: Term, d: Term)
    requires ClauseOrLiteral(a) && ClauseOrLiteral(b) && ClauseOrLiteral(c) && ClauseOrLiteral(d)
    ensures forall t :: t in [a, b, c, d] ==> ClauseOrLiteral(t)
  {
  }

  /** The clauses of a definition by Xor. */
  lemma XorClausesInCnf(x: Term, le: Term, ri: Term)
    requires IsBoolSymbol(x) && IsBoolSymbol(le) && IsBoolSymbol(ri)
    ensures forall t :: t in [Or3(Neg(le), Neg(ri), Neg(x)), Or3(le, ri, Neg(x)), Or3(x, ri, Neg(le)),
      Or3(x, le, Neg(ri))] ==>
      ClauseOrLiteral(t)
  {
    OrOfThree(Neg(le), Neg(ri), Neg(x));
    OrOfThree(le, ri, Neg(x));
    OrOfThree(x, ri, Neg(le));
    OrOfThree(x, le, Neg(ri));
    FourClauses(Or3(Neg(le), Neg(ri), Neg(x)), Or3(le, ri, Neg(x)), Or3(x, ri, Neg(le)), Or3(x, le, Neg(ri)));
  }

  /** The clauses of a definition by Equal. */
  lemma EqualClausesInCnf(x: Term, le: Term, ri: Term)
    requires IsBoolSymbol(x) && IsBoolSymbol(le) && IsBoolSymbol(ri)
    ensures forall t :: t in [Or3(Neg(le), Neg(ri), x), Or3(le, ri, x), Or3(le, Neg(ri), Neg(x)),
      Or3(Neg(le), ri, Neg(x))] ==>
      ClauseOrLiteral(t)
  {
    OrOfThree(Neg(le), Neg(ri), x);
    OrOfThree(le, ri, x);
    OrOfThree(le, Neg(ri), Neg(x));
    OrOfThree(Neg(le), ri, Neg(x));
    FourClauses(Or3(Neg(le), Neg(ri), x), Or3(le, ri, x), Or3(le, Neg(ri), Neg(x)), Or3(Neg(le), ri, Neg(x)));
  }

  /** The clauses of a definition by Implies. */
  lemma ImpliesClausesInCnf(x: Term, le: Term, ri: Term)
    requires IsBoolSymbol(x) && IsBoolSymbol(le) && IsBoolSymbol(ri)
    ensures forall t :: t in [Or3(Neg(le), ri, Neg(x)), Make(Or, [le, x]), Make(Or, [Neg(ri), x])] ==>
      ClauseOrLiteral(t)
  {
    OrOfThree(Neg(le), ri, Neg(x));
    OrOfTwo(le, x);
    OrOfTwo(Neg(ri), x);
  }

  lemma FixedClausesInCnf(d: Definition)
    requires FlatDefinition(d) && d.1.op.prim != And && d.1.op.prim != Or
    ensures forall t :: t in DefinitionClauses(d.0, d.1.op, d.1.children) ==> ClauseOrLiteral(t)
  {
    var x, le, ri := d.0, At(d.1.children, 0), At(d.1.children, 1);
    assert forall c :: c in d.1.children ==> IsBoolSymbol(c);
    assert le in d.1.children && (d.1.op.prim != Not ==> ri in d.1.children);
    match d.1.op.prim
    case Xor => XorClausesInCnf(x, le, ri);
    case Implies => ImpliesClausesInCnf(x, le, ri);
    case Equal => EqualClausesInCnf(x, le, ri);
    case Not =>
      OrOfTwo(Neg(le), Neg(x));
      OrOfTwo(le, x);
  }

  function TotalClauses(ds: seq<Definition>): nat {
    if ds == [] then 0
    else
      var d := ds[|ds| - 1].1;
      TotalClauses(ds[..|ds| - 1]) + if d.App? then ClauseCount(d.op, |d.children|) else 0
  }

  lemma {:induction false} AllClausesInCnf(ds: seq<Definition>)
    requires FlatDefinitions(ds)
    ensures forall t :: t in AllClauses(ds) ==> IsCnf(t)
    ensures |LeavesAll(And, AllClauses(ds))| == TotalClauses(ds)
    decreases |ds|
  {
    if ds != [] {
      var d, init := ds[|ds| - 1], ds[..|ds| - 1];
      AllClausesInCnf(init);
      DefinitionClausesInCnf(d);
      LeavesAllConcat(And, AllClauses(init), DefinitionClauses(d.0, d.1.op, d.1.children));
    }
  }

  /** The formula is in CNF, with one clause for the last name besides the defining ones. */
  lemma {:induction false} CnfOfInCnf(ds: seq<Definition>)
    requires FlatDefinitions(ds) && ds != []
    ensures IsCnf(CnfOf(ds)) && |Leaves(And, CnfOf(ds))| == 1 + TotalClauses(ds)
  {
    var root, rest := ds[|ds| - 1].0, Make(And, AllClauses(ds));
    AllClausesInCnf(ds);
    AndIsCnf(AllClauses(ds));
    LiteralsAreClauses(root);
    AndIsCnf([root, rest]);
    LeavesOfPair(And, root, rest);
  }

  // ----- to_cnf -----

  /** The formula to_cnf returns and the symbols declared afterwards. */
  datatype Conversion = Conversion(cnf: Term, declared: set<string>)

  /** Where to_cnf returns the simplified formula as it is. */
  predicate ReturnedAsIs(g: Term) {
    g.IsSymbolicConst() || g.BoolValue? || IsCnf(g)
  }

  ghost function Convert(f: Term, declared: set<string>): Conversion {
    var g := Eliminate(f);
    if ReturnedAsIs(g) then Conversion(g, declared)
    else
      var w := NameAll(Binarize(g), declared);
      Conversion(CnfOf(w.aux.reduced), w.aux.declared)
  }

  /** A stateless walk with an empty cache. */
  method RunWalk(f: Rebuild, t: Term) returns (r: Term)
    ensures r == Walk(f, map[], t)
  {
    var walker := new IdentityWalker<()>(false, Stateless(f), map[], ());
    DfsFaithful(f, map[], t, walker.State());
    r := walker.Visit(t);
  }

  method RunNaming(g: Term, s: SymbolTable) returns (reduced: seq<Definition>)
    requires g.App?
    modifies s
    ensures NamingState(s.declared, reduced) == NameAll(g, old(s.declared)).aux
    ensures reduced != []
  {
    var obj := new IdentityWalker<NamingState>(false, NameNode, map[], NamingState(s.declared, []));
    NamingOf(g, s.declared);
    var _ := obj.Visit(g);
    reduced := obj.aux.reduced;
    s.declared := obj.aux.declared;
  }

  method ToCnf(formula: Term, s: SymbolTable) returns (ret: Term)
    requires BoolFormula(formula)
    modifies s
    ensures Conversion(ret, s.declared) == Convert(formula, old(s.declared))
  {
    var g := RunWalk(EliminateNode, formula);
    if g.IsSymbolicConst() {
      return g;
    }
    if g == FALSE || g == TRUE {
      return g;
    }
    var cnf := CheckCnf(g);
    if cnf {
      return g;
    }
    EliminateSimplifies(formula);
    BinarizeConstantFree(g);
    var formula2 := RunWalk(BinarizeNode, g);
    var reduced := RunNaming(formula2, s);
    var parent := reduced[|reduced| - 1].0;
    var clauses := GenerateClauses(reduced);
    ret := Make(And, [parent, Make(And, clauses)]);
  }

  /** The clause generation loop. */
  method GenerateClauses(reduced: seq<Definition>) returns (clauses: seq<Term>)
    ensures clauses == AllClauses(reduced)
  {
    clauses := [];
    for i := 0 to |reduced|
      invariant clauses == AllClauses(reduced[..i])
    {
      assert reduced[..i + 1][..i] == reduced[..i];
      var fi, se := reduced[i].0, reduced[i].1;
      if se.App? {
        var more := ClausesFor(fi, se.op, se.children);
        clauses := clauses + more;
      }
    }
    assert reduced[..|reduced|] == reduced;
  }

  method ClausesFor(fi: Term, op: Op, cs: seq<Term>) returns (clauses: seq<Term>)
    ensures clauses == DefinitionClauses(fi, op, cs)
  {
    if op == Op(Or, []) {
      clauses := OrClausesFor(fi, cs);
    } else if op == Op(And, []) {
      clauses := AndClausesFor(fi, cs);
    } else {
      var le, ri := At(cs, 0), At(cs, 1);
      if op == Op(Xor, []) {
        clauses := [Or3(Neg(le), Neg(ri), Neg(fi)), Or3(le, ri, Neg(fi)), Or3(fi, ri, Neg(le)), Or3(fi, le, Neg(ri))];
      } else if op == Op(Implies, []) {
        clauses := [Or3(Neg(le), ri, Neg(fi)), Make(Or, [le, fi]), Make(Or, [Neg(ri), fi])];
      } else if op == Op(Equal, []) {
        clauses := [Or3(Neg(le), Neg(ri), fi), Or3(le, ri, fi), Or3(le, Neg(ri), Neg(fi)), Or3(Neg(le), ri, Neg(fi))];
      } else {
        clauses := [Make(Or, [Neg(le), Neg(fi)]), Make(Or, [le, fi])];
      }
    }
  }

  method OrClausesFor(fi: Term, cs: seq<Term>) returns (clauses: seq<Term>)
    ensures clauses == [Make(Or, [Neg(fi)] + cs), Make(And, OrNotEach(fi, cs))]
  {
    var vec, vec2 := [Make(Not, [fi])], [];
    for j := 0 to |cs|
      invariant vec == [Neg(fi)] + cs[..j] && vec2 == OrNotEach(fi, cs)[..j]
    {
      vec := vec + [cs[j]];
      vec2 := vec2 + [Make(Or, [fi, Make(Not, [cs[j]])])];
    }
    assert cs[..|cs|] == cs && OrNotEach(fi, cs)[..|cs|] == OrNotEach(fi, cs);
    clauses := [Make(Or, vec), Make(And, vec2)];
  }

  method AndClausesFor(fi: Term, cs: seq<Term>) returns (clauses: seq<Term>)
    ensures clauses == [Make(Or, [fi] + NotAll(cs)), Make(And, OrEachNot(cs, fi))]
  {
    var vec, vec2 := [fi], [];
    for j := 0 to |cs|
      invariant vec == [fi] + NotAll(cs)[..j] && vec2 == OrEachNot(cs, fi)[..j]
    {
      vec := vec + [Make(Not, [cs[j]])];
      vec2 := vec2 + [Make(Or, [cs[j], Make(Not, [fi])])];
    }
    assert NotAll(cs)[..|cs|] == NotAll(cs) && OrEachNot(cs, fi)[..|cs|] == OrEachNot(cs, fi);
    clauses := [Make(Or, vec), Make(And, vec2)];
  }

  // ----- what the result means -----

  /** The assignments that differ from env on the fresh names only. */
  ghost predicate Extends(env: Env, env': Env, added: set<string>) {
    forall n :: n !in added ==> env'(n) == env(n)
  }

  /** The subterm that a fresh name stands for. */
  ghost function Named(declared: set<string>, w: Naming, n: string): (t: Term)
    requires GoodNaming(declared, w) && n in w.aux.declared - declared
    ensures t in w.cache && t.App? && w.cache[t].name == n
  {
    var t :| t in w.cache && t.App? && w.cache[t].name == n;
    t
  }

  /** Each fresh name gets the truth value of its subterm. */
  ghost function Canonical(env: Env, declared: set<string>, w: Naming): (env': Env)
    requires GoodNaming(declared, w)
    ensures Extends(env, env', w.aux.declared - declared)
  {
    (n: string) => if n in w.aux.declared - declared then CutHolds(env, Named(declared, w, n)) else env(n)
  }

  ghost predicate NamesWithin(w: Naming, declared: set<string>) {
    forall t :: t in w.cache ==> Names(t) <= declared
  }

  lemma CutSameNames(env: Env, env': Env, t: Term)
    requires forall n :: n in Names(t) ==> env(n) == env'(n)
    ensures CutHolds(env, t) == CutHolds(env', t)
  {
    forall s | s in Subterms(t) && s.IsLeaf()
      ensures BoolLeaf(env, s) == BoolLeaf(env', s)
    {
      if s.Symbol? {
        assert s.name in Names(t);
      }
    }
    Coincidence(CutInterp(env), CutInterp(env'), t);
  }

  /** The subterms mean the same under any extension. */
  lemma ExtensionKeeps(env: Env, env': Env, declared: set<string>, w: Naming, t: Term)
    requires Extends(env, env', w.aux.declared - declared) && NamesWithin(w, declared) && t in w.cache
    ensures CutHolds(env', t) == CutHolds(env, t)
  {
    CutSameNames(env, env', t);
  }

  lemma NameEntry(env: Env, declared: set<string>, w: Naming, t: Term)
    requires GoodNaming(declared, w) && t in w.cache && t.App?
    ensures w.cache[t].name in w.aux.declared - declared
    ensures Named(declared, w, w.cache[t].name) == t
    ensures CutHolds(env, w.cache[t]) == env(w.cache[t].name)
  {
    var u := Named(declared, w, w.cache[t].name);
    assert w.cache[u] == w.cache[t];
  }

  /** Each fresh name has the truth value that env gives its subterm. */
  ghost predicate NamesRight(env: Env, env': Env, declared: set<string>, w: Naming)
    requires GoodNaming(declared, w)
  {
    forall n :: n in w.aux.declared - declared ==> env'(n) == CutHolds(env, Named(declared, w, n))
  }

  lemma RightIfMeant(env: Env, env': Env, declared: set<string>, w: Naming)
    requires GoodNaming(declared, w) && NamesWithin(w, declared) && NamesMean(env', w)
    requires Extends(env, env', w.aux.declared - declared)
    ensures NamesRight(env, env', declared, w)
  {
    forall n | n in w.aux.declared - declared
      ensures env'(n) == CutHolds(env, Named(declared, w, n))
    {
      var t := Named(declared, w, n);
      NameEntry(env', declared, w, t);
      ExtensionKeeps(env, env', declared, w, t);
    }
  }

  lemma MeantIfRight(env: Env, env': Env, declared: set<string>, w: Naming)
    requires GoodNaming(declared, w) && NamesWithin(w, declared) && NamesRight(env, env', declared, w)
    requires Extends(env, env', w.aux.declared - declared)
    ensures NamesMean(env', w)
  {
    forall t | t in w.cache
      ensures CutHolds(env', w.cache[t]) == CutHolds(env', t)
    {
      if t.App? {
        NameEntry(env', declared, w, t);
        ExtensionKeeps(env, env', declared, w, t);
      }
    }
  }

  /** Among the extensions of an assignment the definitions hold in one and one only. */
  lemma DefinitionsPickOne(env: Env, env': Env, declared: set<string>, w: Naming)
    requires GoodNaming(declared, w) && GoodDefinitions(w) && NamesWithin(w, declared)
    requires Extends(env, env', w.aux.declared - declared)
    ensures AllDefinitionsHold(env', w.aux.reduced) <==> NamesRight(env, env', declared, w)
  {
    DefinitionsMean(env', declared, w);
    if NamesMean(env', w) {
      RightIfMeant(env, env', declared, w);
    }
    if NamesRight(env, env', declared, w) {
      MeantIfRight(env, env', declared, w);
    }
  }

  /** What to_cnf takes the formula to mean. */
  ghost predicate Taken(env: Env, f: Term) {
    var g := Eliminate(f);
    if ReturnedAsIs(g) then Holds(env, g) else CutHolds(env, Binarize(g))
  }

  /** The naming of the formula behind a conversion that does run the clause generation. */
  lemma ConversionNaming(f: Term, declared: set<string>) returns (g2: Term, w: Naming)
    requires BoolFormula(f) && Names(f) <= declared && !ReturnedAsIs(Eliminate(f))
    ensures g2 == Binarize(Eliminate(f)) && g2.App? && ConstantFree(g2) && w == NameAll(g2, declared)
    ensures GoodNaming(declared, w) && GoodDefinitions(w) && RootLast(g2, w) && NamesWithin(w, declared)
    ensures FlatDefinitions(w.aux.reduced)
    ensures |w.aux.reduced| == |Applications(Subterms(g2))|
  {
    var g := Eliminate(f);
    g2 := Binarize(g);
    w := NameAll(g2, declared);
    EliminateSimplifies(f);
    EliminateNames(f);
    BinarizeConstantFree(g);
    BinarizeNames(g);
    NamingOf(g2, declared);
    SubtermsConstantFree(g2);
    forall t | t in w.cache
      ensures Names(t) <= declared
    {
      SubtermsTransitive(g2, t);
    }
    forall i | 0 <= i < |w.aux.reduced|
      ensures FlatDefinition(w.aux.reduced[i])
    {
      NamingIsFlat(declared, w, i);
    }
  }

  /** The one extension of env that can satisfy the result, and when it does. */
  lemma ConversionMeans(f: Term, declared: set<string>, env: Env) returns (one: Env)
    requires BoolFormula(f) && Names(f) <= declared
    ensures var r := Convert(f, declared); var added := r.declared - declared;
      && declared <= r.declared
      && Extends(env, one, added)
      && (Holds(one, r.cnf) <==> Taken(env, f))
      && (forall env' :: Extends(env, env', added) && Holds(env', r.cnf) ==> forall n :: n in added ==>
        env'(n) == one(n))
  {
    var r := Convert(f, declared);
    if ReturnedAsIs(Eliminate(f)) {
      one := env;
      assert r.declared - declared == {};
    } else {
      var g2, w := ConversionNaming(f, declared);
      one := Canonical(env, declared, w);
      CanonicalCnf(declared, w, env, g2);
      assert Extends(env, one, w.aux.declared - declared);
      forall env' | Extends(env, env', w.aux.declared - declared) && Holds(env', r.cnf)
        ensures forall n :: n in w.aux.declared - declared ==> env'(n) == one(n)
      {
        CanonicalCnfOnly(declared, w, env, env');
      }
    }
  }

  lemma CanonicalCnf(declared: set<string>, w: Naming, env: Env, g2: Term)
    requires GoodNaming(declared, w) && GoodDefinitions(w) && NamesWithin(w, declared) && FlatDefinitions(w.aux.reduced)
    requires RootLast(g2, w) && g2.App? && w.aux.reduced != []
    ensures Holds(Canonical(env, declared, w), CnfOf(w.aux.reduced)) <==> CutHolds(env, g2)
  {
    var one := Canonical(env, declared, w);
    CanonicalHolds(declared, w, env, g2);
    CnfOfHolds(one, w.aux.reduced);
    AllClausesHold(one, w.aux.reduced);
  }

  lemma CanonicalCnfOnly(declared: set<string>, w: Naming, env: Env, env': Env)
    requires GoodNaming(declared, w) && GoodDefinitions(w) && NamesWithin(w, declared) && FlatDefinitions(w.aux.reduced)
    requires w.aux.reduced != [] && Extends(env, env', w.aux.declared - declared) && Holds(env', CnfOf(w.aux.reduced))
    ensures forall n :: n in w.aux.declared - declared ==> env'(n) == Canonical(env, declared, w)(n)
  {
    CnfOfHolds(env', w.aux.reduced);
    AllClausesHold(env', w.aux.reduced);
    CanonicalOnly(declared, w, env, env');
  }

  /** What satisfies the defining clauses of a naming and extends env agrees with the canonical extension. */
  lemma CanonicalOnly(declared: set<string>, w: Naming, env: Env, env': Env)
    requires GoodNaming(declared, w) && GoodDefinitions(w) && NamesWithin(w, declared) && FlatDefinitions(w.aux.reduced)
    requires Extends(env, env', w.aux.declared - declared) && AllHold(env', AllClauses(w.aux.reduced))
    ensures forall n :: n in w.aux.declared - declared ==> env'(n) == Canonical(env, declared, w)(n)
  {
    AllClausesHold(env', w.aux.reduced);
    DefinitionsPickOne(env, env', declared, w);
  }

  lemma CanonicalHolds(declared: set<string>, w: Naming, env: Env, g2: Term)
    requires GoodNaming(declared, w) && GoodDefinitions(w) && NamesWithin(w, declared) && FlatDefinitions(w.aux.reduced)
    requires RootLast(g2, w) && g2.App?
    ensures var one := Canonical(env, declared, w);
      && AllHold(one, AllClauses(w.aux.reduced))
      && (Holds(one, w.aux.reduced[|w.aux.reduced| - 1].0) <==> CutHolds(env, g2))
  {
    var one := Canonical(env, declared, w);
    assert NamesRight(env, one, declared, w);
    DefinitionsPickOne(env, one, declared, w);
    AllClausesHold(one, w.aux.reduced);
    CanonicalRoot(declared, w, env, g2);
  }

  lemma CanonicalRoot(declared: set<string>, w: Naming, env: Env, t: Term)
    requires GoodNaming(declared, w) && t in w.cache && t.App?
    ensures Holds(Canonical(env, declared, w), w.cache[t]) <==> CutHolds(env, t)
  {
    NameEntry(env, declared, w, t);
  }

  /** The assignment env' extends env and satisfies the defining clauses. */
  ghost predicate DefinedExtension(f: Term, declared: set<string>, env: Env, env': Env) {
    var w := NameAll(Binarize(Eliminate(f)), declared);
    Extends(env, env', w.aux.declared - declared) && AllHold(env', AllClauses(w.aux.reduced))
  }

  /** Whatever the assignment, exactly one extension of it satisfies the defining clauses,
      and there the name of the root has the truth value of the formula. */
  lemma DefiningClausesDetermine(f: Term, declared: set<string>, env: Env) returns (one: Env)
    requires BoolFormula(f) && Names(f) <= declared && XorsInReach(f) && !ReturnedAsIs(Eliminate(f))
    ensures DefinedExtension(f, declared, env, one)
    ensures forall env' | DefinedExtension(f, declared, env, env') ::
      forall n :: n in Convert(f, declared).declared - declared ==> env'(n) == one(n)
    ensures var ds := NameAll(Binarize(Eliminate(f)), declared).aux.reduced;
      ds != [] && (Holds(one, ds[|ds| - 1].0) <==> Holds(env, f))
  {
    var g2, w := ConversionNaming(f, declared);
    one := Canonical(env, declared, w);
    CanonicalHolds(declared, w, env, g2);
    TakenAsMeant(env, f);
    forall env' | DefinedExtension(f, declared, env, env')
      ensures forall n :: n in w.aux.declared - declared ==> env'(n) == one(n)
    {
      CanonicalOnly(declared, w, env, env');
    }
  }

  /** For which formulas the clauses mean the formula: an Xor with more than two members may
      occur, once the constants are gone, at the root and below other Xors of the root only. */
  ghost predicate XorsInReach(f: Term) {
    ReturnedAsIs(Eliminate(f)) || WideOnlyAtRoot(Eliminate(f))
  }

  lemma {:induction false} TakenAsMeant(env: Env, f: Term)
    requires BoolFormula(f) && XorsInReach(f)
    ensures Taken(env, f) == Holds(env, f)
  {
    var g := Eliminate(f);
    EliminateHolds(env, f);
    EliminateSimplifies(f);
    if !ReturnedAsIs(g) {
      BinarizeHolds(env, g);
      BinarizeNarrow(g);
      NarrowCut(env, Binarize(g));
    }
  }

  /** Formulas without Xors of more than two members are all in reach. */
  lemma {:induction false} PairsInReach(f: Term)
    requires BoolFormula(f) && AtMostPairs(f)
    ensures XorsInReach(f)
  {
    EliminateSimplifies(f);
    EliminateKeepsPairs(f);
    if !ReturnedAsIs(Eliminate(f)) {
      PairsAreNarrow(Eliminate(f));
      NarrowIsWideOnlyAtRoot(Eliminate(f));
    }
  }

  /** Every model of the formula extends to exactly one model of the result,
      and every model of the result is a model of the formula. */
  lemma {:induction false} ToCnfMeans(f: Term, declared: set<string>, env: Env)
    requires BoolFormula(f) && Names(f) <= declared && XorsInReach(f)
    ensures var r := Convert(f, declared); var added := r.declared - declared;
      && added !! Names(f)
      && (Holds(env, f) <==> exists env' :: Extends(env, env', added) && Holds(env', r.cnf))
      && (forall e, e' :: Extends(env, e, added) && Holds(e, r.cnf) && Extends(env, e', added) && Holds(e', r.cnf)
            ==> forall n :: n in added ==> e(n) == e'(n))
  {
    var r := Convert(f, declared);
    var added := r.declared - declared;
    var one := ConversionMeans(f, declared, env);
    TakenAsMeant(env, f);
    if env' :| Extends(env, env', added) && Holds(env', r.cnf) {
      SameExtension(env, one, env', added, r.cnf);
    }
  }

  lemma SameExtension(env: Env, e: Env, e': Env, added: set<string>, t: Term)
    requires Extends(env, e, added) && Extends(env, e', added) && forall n :: n in added ==> e'(n) == e(n)
    ensures Holds(e, t) == Holds(e', t)
  {
    forall n
      ensures e(n) == e'(n)
    {
      if n !in added {
        assert e(n) == env(n) && e'(n) == env(n);
      }
    }
    SameNames(e, e', t);
  }

  /** Without the restriction on Xor: the result stands for the formula exactly when cutting the
      Xors that stay wide to their first two members does not change its truth value. */
  lemma {:induction false} ToCnfExactlyWhen(f: Term, declared: set<string>, env: Env)
    requires BoolFormula(f) && Names(f) <= declared
    ensures var r := Convert(f, declared); var added := r.declared - declared;
      (Holds(env, f) <==> exists env' :: Extends(env, env', added) && Holds(env', r.cnf))
      <==> (Holds(env, f) <==> Taken(env, f))
  {
    var r := Convert(f, declared);
    var added := r.declared - declared;
    var one := ConversionMeans(f, declared, env);
    if env' :| Extends(env, env', added) && Holds(env', r.cnf) {
      SameExtension(env, one, env', added, r.cnf);
    }
  }

  /** The result is a constant or in CNF. */
  lemma {:induction false} ToCnfInCnf(f: Term, declared: set<string>)
    requires BoolFormula(f) && Names(f) <= declared
    ensures Convert(f, declared).cnf.BoolValue? || IsCnf(Convert(f, declared).cnf)
  {
    if !ReturnedAsIs(Eliminate(f)) {
      var g2, w := ConversionNaming(f, declared);
      CnfOfInCnf(w.aux.reduced);
    }
  }

  /** When clauses are generated there is one fresh name for each distinct application in the
      binarised formula, and one clause more than the definitions take. */
  lemma {:induction false} ToCnfSize(f: Term, declared: set<string>)
    requires BoolFormula(f) && Names(f) <= declared && !ReturnedAsIs(Eliminate(f))
    ensures var r, g2 := Convert(f, declared), Binarize(Eliminate(f)); var ds := NameAll(g2, declared).aux.reduced;
      && |r.declared - declared| == |Applications(Subterms(g2))| == |ds|
      && |Leaves(And, r.cnf)| == 1 + TotalClauses(ds)
  {
    var g2, w := ConversionNaming(f, declared);
    CnfOfInCnf(w.aux.reduced);
    NamesCounted(declared, w);
  }

  lemma NamesCounted(declared: set<string>, w: Naming)
    requires GoodNaming(declared, w)
    ensures |w.aux.declared - declared| == |Applications(w.cache.Keys)|
  {
    var apps := Applications(w.cache.Keys);
    NamesOfCounted(w.cache, apps);
    assert NamesOf(w.cache, apps) == w.aux.declared - declared by {
      forall n | n in w.aux.declared - declared
        ensures n in NamesOf(w.cache, apps)
      {
        assert Named(declared, w, n) in apps;
      }
    }
  }

  ghost function NamesOf(cache: map<Term, Term>, ts: set<Term>): set<string> {
    set t | t in ts && t in cache && cache[t].Symbol? :: cache[t].name
  }

  lemma {:induction false} NamesOfCounted(cache: map<Term, Term>, ts: set<Term>)
    requires forall t :: t in ts ==> t in cache && IsBoolSymbol(cache[t])
    requires forall t, u :: t in ts && u in ts && cache[t] == cache[u] ==> t == u
    ensures |NamesOf(cache, ts)| == |ts|
  {
    if ts != {} {
      var t :| t in ts;
      NamesOfCounted(cache, ts - {t});
      assert NamesOf(cache, ts) == NamesOf(cache, ts - {t}) + {cache[t].name};
    }
  }

  // ----- an Xor that the conversion misreads -----

  /** (and x (xor x y z)): the Xor is not at the root, so it keeps its three members,
      and the clauses generated for it speak of the first two. */
  ghost function Misread(x: Term, y: Term, z: Term): Term {
    Make(And, [x, Make(Xor, [x, y, z])])
  }

  lemma {:induction false} NonConstantsStay(ts: seq<Term>)
    requires forall t :: t in ts ==> !t.BoolValue?
    ensures NonConstants(ts) == ts && CountTrue(ts) == 0
    decreases |ts|
  {
    if ts != [] {
      var front, last := ts[..|ts| - 1], ts[|ts| - 1];
      SplitLast(ts);
      NonConstantsStay(front);
      assert !last.BoolValue?;
    }
  }

  /** A junction of unchanged non-constants is unchanged. */
  lemma JunctionStays(p: PrimOp, ts: seq<Term>)
    requires IsJunction(p) && |ts| >= 2
    requires forall t :: t in ts ==> !t.BoolValue? && Eliminate(t) == t
    ensures Eliminate(Make(p, ts)) == Make(p, ts)
  {
    EliminateApp(Make(p, ts));
    assert EliminateAll(ts) == ts;
    NonConstantsStay(ts);
    ConstantsAbsent(ts);
  }

  lemma ConstantsAbsent(ts: seq<Term>)
    requires forall t :: t in ts ==> !t.BoolValue?
    ensures TRUE !in ts && FALSE !in ts
  {
  }

  lemma MisreadStays(x: Term, y: Term, z: Term)
    requires IsBoolSymbol(x) && IsBoolSymbol(y) && IsBoolSymbol(z)
    ensures Eliminate(Misread(x, y, z)) == Misread(x, y, z) && Binarize(Misread(x, y, z)) == Misread(x, y, z)
  {
    JunctionStays(Xor, [x, y, z]);
    JunctionStays(And, [x, Make(Xor, [x, y, z])]);
    BinarizeApp(Misread(x, y, z));
  }

  lemma MisreadNotCnf(x: Term, y: Term, z: Term)
    ensures !IsCnf(Misread(x, y, z))
  {
    var wide := Make(Xor, [x, y, z]);
    LeavesOfPair(And, x, wide);
    assert Leaves(Or, wide) == [wide];
    assert wide in Leaves(Or, wide) && !IsLiteral(wide);
    assert !IsClause(wide);
    assert Leaves(And, Misread(x, y, z))[0] == wide;
  }

  lemma MisreadMeaning(env: Env, x: Term, y: Term, z: Term)
    requires Holds(env, x) && !Holds(env, y) && Holds(env, z) && CutHolds(env, x) && !CutHolds(env, y)
    ensures !Holds(env, Misread(x, y, z)) && CutHolds(env, Misread(x, y, z))
  {
    var wide := Make(Xor, [x, y, z]);
    XorPairHolds(env, x, y);
    ParitySnoc(env, [x, y], z);
    assert [x, y] + [z] == [x, y, z];
    HoldsApp(env, Op(Xor, []), [x, y]);
    HoldsApp(env, Op(Xor, []), [x, y, z]);
    HoldsAnd(env, [x, wide]);
    assert wide in [x, wide] && !Holds(env, wide);
    CutApp(env, Op(Xor, []), [x, y, z]);
    CutApp(env, Op(And, []), [x, wide]);
    assert CutTruths(env, [x, wide]) == [true, true];
  }

  lemma MisreadFormula(x: Term, y: Term, z: Term)
    requires IsBoolSymbol(x) && IsBoolSymbol(y) && IsBoolSymbol(z)
    ensures BoolFormula(Misread(x, y, z)) && Names(Misread(x, y, z)) <= {x.name, y.name, z.name}
  {
    NamesApp(Op(Xor, []), [x, y, z]);
    NamesApp(Op(And, []), [x, Make(Xor, [x, y, z])]);
    assert BoolFormula(Make(Xor, [x, y, z]));
  }

  /** With x and z true and y false the formula is false, but its conversion is satisfiable
      without changing x, y or z. */
  lemma WideXorMisread(x: Term, y: Term, z: Term, declared: set<string>, env: Env)
    requires IsBoolSymbol(x) && IsBoolSymbol(y) && IsBoolSymbol(z) && {x.name, y.name, z.name} <= declared
    requires env(x.name) && !env(y.name) && env(z.name)
    ensures BoolFormula(Misread(x, y, z)) && !Holds(env, Misread(x, y, z))
    ensures var r := Convert(Misread(x, y, z), declared);
      exists env' :: Extends(env, env', r.declared - declared) && Holds(env', r.cnf)
  {
    MisreadStays(x, y, z);
    MisreadNotCnf(x, y, z);
    MisreadMeaning(env, x, y, z);
    MisreadFormula(x, y, z);
    var one := ConversionMeans(Misread(x, y, z), declared, env);
  }
}
