/** Converting a formula with to_cnf and printing the result with cnf_to_dimacs (src/utils.cpp):
    a SAT solver's answer on the printed text is the answer for the formula. */
module CnfPrinting {
  import opened Terms
  import opened Booleans
  import opened Simplify
  import opened CnfForm
  import opened Tseitin
  import opened Cnf
  import opened ToCnf
  import D = Dimacs

  // ----- the result of the conversion is over Boolean symbols -----

  ghost predicate BoolSymbols(t: Term) {
    match t
    case Symbol(_, s) => s == BoolSort
    case App(_, cs) => forall c :: c in cs ==> BoolSymbols(c)
    case _ => true
  }

  ghost predicate AllBoolSymbols(ts: seq<Term>) {
    forall t :: t in ts ==> BoolSymbols(t)
  }

  lemma {:induction false} FormulaBoolSymbols(t: Term)
    requires BoolFormula(t)
    ensures BoolSymbols(t)
  {
    if t.App? {
      forall c | c in t.children
        ensures BoolSymbols(c)
      {
        FormulaBoolSymbols(c);
      }
    }
  }

  lemma JunctionBoolSymbols(p: PrimOp, neutral: bool, cs: seq<Term>)
    requires AllBoolSymbols(cs)
    ensures BoolSymbols(EliminateJunction(p, BoolValue(neutral), BoolValue(!neutral), cs))
  {
    var vec := NonConstants(cs);
    if |vec| == 1 {
      assert vec[0] in vec;
    }
  }

  lemma XorBoolSymbols(cs: seq<Term>)
    requires AllBoolSymbols(cs)
    ensures BoolSymbols(EliminateXor(cs))
  {
    var vec := NonConstants(cs);
    if vec != [] {
      assert vec[0] in vec;
      var flipped := vec[0 := Make(Not, [vec[0]])];
      forall t | t in flipped
        ensures BoolSymbols(t)
      {
        assert t == Make(Not, [vec[0]]) || t in vec;
      }
    }
  }

  lemma EliminateNodeBoolSymbols(t: Term, cs: seq<Term>)
    requires t.App? && BoolNode(t.op, |cs|) && AllBoolSymbols(cs)
    ensures BoolSymbols(EliminateNode(t, cs))
  {
    match t.op.prim
    case Not => assert cs[0] in cs;
    case And => JunctionBoolSymbols(And, true, cs);
    case Or => JunctionBoolSymbols(Or, false, cs);
    case Xor => XorBoolSymbols(cs);
    case Equal | Implies => assert cs[0] in cs && cs[1] in cs;
  }

  lemma {:induction false} EliminateBoolSymbols(t: Term)
    requires BoolFormula(t)
    ensures BoolSymbols(Eliminate(t))
  {
    if t.App? {
      var cs := EliminateAll(t.children);
      forall c | c in cs
        ensures BoolSymbols(c)
      {
        var i :| 0 <= i < |cs| && cs[i] == c;
        EliminateBoolSymbols(t.children[i]);
      }
      EliminateApp(t);
      EliminateNodeBoolSymbols(t, cs);
    } else {
      FormulaBoolSymbols(t);
    }
  }

  lemma {:induction false} OrBoolSymbols(a: Term, b: Term, c: Term)
    requires BoolSymbols(a) && BoolSymbols(b) && BoolSymbols(c)
    ensures BoolSymbols(Neg(a)) && BoolSymbols(Make(Or, [a, b])) && BoolSymbols(Or3(a, b, c))
  {
    assert BoolSymbols(Make(Or, [a, b]));
  }

  lemma {:induction false} JunctionClausesBoolSymbols(x: Term, cs: seq<Term>)
    requires BoolSymbols(x) && AllBoolSymbols(cs)
    ensures BoolSymbols(Make(Or, [Neg(x)] + cs)) && BoolSymbols(Make(Or, [x] + NotAll(cs)))
    ensures BoolSymbols(Make(And, OrNotEach(x, cs))) && BoolSymbols(Make(And, OrEachNot(cs, x)))
  {
    forall i | 0 <= i < |cs|
      ensures BoolSymbols(NotAll(cs)[i]) && BoolSymbols(OrNotEach(x, cs)[i]) && BoolSymbols(OrEachNot(cs, x)[i])
    {
      assert cs[i] in cs;
      OrBoolSymbols(cs[i], x, x);
      OrBoolSymbols(x, Neg(cs[i]), x);
      OrBoolSymbols(cs[i], Neg(x), x);
    }
  }

  lemma {:induction false} MakeBoolSymbols(p: PrimOp, a: Term, b: Term)
    requires BoolSymbols(a) && BoolSymbols(b)
    ensures BoolSymbols(Make(p, [a, b]))
  {
  }

  lemma {:induction false} FourBoolSymbols(a: Term, b: Term, c: Term, d: Term)
    requires BoolSymbols(a) && BoolSymbols(b) && BoolSymbols(c) && BoolSymbols(d)
    ensures AllBoolSymbols([a, b, c, d]) && AllBoolSymbols([a, b, c]) && AllBoolSymbols([a, b])
  {
  }

  lemma {:induction false} XorClausesBoolSymbols(x: Term, le: Term, ri: Term, nx: Term, nl: Term, nr: Term)
    requires BoolSymbols(x) && BoolSymbols(le) && BoolSymbols(ri) && BoolSymbols(nx) && BoolSymbols(nl)
      && BoolSymbols(nr)
    ensures AllBoolSymbols([Or3(nl, nr, nx), Or3(le, ri, nx), Or3(x, ri, nl), Or3(x, le, nr)])
  {
    OrBoolSymbols(nl, nr, nx);
    OrBoolSymbols(le, ri, nx);
    OrBoolSymbols(x, ri, nl);
    OrBoolSymbols(x, le, nr);
    FourBoolSymbols(Or3(nl, nr, nx), Or3(le, ri, nx), Or3(x, ri, nl), Or3(x, le, nr));
  }

  lemma {:induction false} EqualClausesBoolSymbols(x: Term, le: Term, ri: Term, nx: Term, nl: Term, nr: Term)
    requires BoolSymbols(x) && BoolSymbols(le) && BoolSymbols(ri) && BoolSymbols(nx) && BoolSymbols(nl)
      && BoolSymbols(nr)
    ensures AllBoolSymbols([Or3(nl, nr, x), Or3(le, ri, x), Or3(le, nr, nx), Or3(nl, ri, nx)])
  {
    OrBoolSymbols(nl, nr, x);
    OrBoolSymbols(le, ri, x);
    OrBoolSymbols(le, nr, nx);
    OrBoolSymbols(nl, ri, nx);
    FourBoolSymbols(Or3(nl, nr, x), Or3(le, ri, x), Or3(le, nr, nx), Or3(nl, ri, nx));
  }

  lemma {:induction false} ImpliesClausesBoolSymbols(x: Term, le: Term, ri: Term, nx: Term, nl: Term, nr: Term)
    requires BoolSymbols(x) && BoolSymbols(le) && BoolSymbols(ri) && BoolSymbols(nx) && BoolSymbols(nl)
      && BoolSymbols(nr)
    ensures AllBoolSymbols([Or3(nl, ri, nx), Make(Or, [le, x]), Make(Or, [nr, x])])
  {
    OrBoolSymbols(nl, ri, nx);
    MakeBoolSymbols(Or, le, x);
    MakeBoolSymbols(Or, nr, x);
    FourBoolSymbols(Or3(nl, ri, nx), Make(Or, [le, x]), Make(Or, [nr, x]), x);
  }

  lemma {:induction false} NotClausesBoolSymbols(x: Term, le: Term, nx: Term, nl: Term)
    requires BoolSymbols(x) && BoolSymbols(le) && BoolSymbols(nx) && BoolSymbols(nl)
    ensures AllBoolSymbols([Make(Or, [nl, nx]), Make(Or, [le, x])])
  {
    MakeBoolSymbols(Or, nl, nx);
    MakeBoolSymbols(Or, le, x);
    FourBoolSymbols(Make(Or, [nl, nx]), Make(Or, [le, x]), x, x);
  }

  lemma {:induction false} FixedClausesBoolSymbols(x: Term, op: Op, cs: seq<Term>)
    requires BoolSymbols(x) && AllBoolSymbols(cs) && op != Op(And, []) && op != Op(Or, [])
    ensures AllBoolSymbols(DefinitionClauses(x, op, cs))
  {
    var le, ri := At(cs, 0), At(cs, 1);
    assert BoolSymbols(le) && BoolSymbols(ri);
    OrBoolSymbols(x, x, x);
    OrBoolSymbols(le, x, x);
    OrBoolSymbols(ri, x, x);
    XorClausesBoolSymbols(x, le, ri, Neg(x), Neg(le), Neg(ri));
    EqualClausesBoolSymbols(x, le, ri, Neg(x), Neg(le), Neg(ri));
    ImpliesClausesBoolSymbols(x, le, ri, Neg(x), Neg(le), Neg(ri));
    NotClausesBoolSymbols(x, le, Neg(x), Neg(le));
  }

  lemma DefinitionBoolSymbols(d: Definition)
    requires FlatDefinition(d)
    ensures AllBoolSymbols(DefinitionClauses(d.0, d.1.op, d.1.children))
  {
    var cs := d.1.children;
    assert AllBoolSymbols(cs);
    JunctionClausesBoolSymbols(d.0, cs);
    if d.1.op != Op(And, []) && d.1.op != Op(Or, []) {
      FixedClausesBoolSymbols(d.0, d.1.op, cs);
    }
  }

  lemma {:induction false} AllClausesBoolSymbols(ds: seq<Definition>)
    requires FlatDefinitions(ds)
    ensures AllBoolSymbols(AllClauses(ds))
    decreases |ds|
  {
    if ds != [] {
      AllClausesBoolSymbols(ds[..|ds| - 1]);
      assert FlatDefinition(ds[|ds| - 1]);
      DefinitionBoolSymbols(ds[|ds| - 1]);
    }
  }

  lemma {:induction false} ConvertBoolSymbols(f: Term, declared: set<string>)
    requires BoolFormula(f) && Names(f) <= declared
    ensures BoolSymbols(Convert(f, declared).cnf)
  {
    EliminateBoolSymbols(f);
    if !ReturnedAsIs(Eliminate(f)) {
      var g2, w := ConversionNaming(f, declared);
      var ds := w.aux.reduced;
      AllClausesBoolSymbols(ds);
      assert FlatDefinition(ds[|ds| - 1]);
      MakeBoolSymbols(And, ds[|ds| - 1].0, Make(And, AllClauses(ds)));
    }
  }

  lemma {:induction false} LeavesBoolSymbols(p: PrimOp, t: Term)
    requires BoolSymbols(t)
    ensures AllBoolSymbols(Leaves(p, t))
    decreases t, 1
  {
    if t.HasOp(p) {
      LeavesAllBoolSymbols(p, t.children);
    }
  }

  lemma {:induction false} LeavesAllBoolSymbols(p: PrimOp, ts: seq<Term>)
    requires AllBoolSymbols(ts)
    ensures AllBoolSymbols(LeavesAll(p, ts))
    decreases ts, 0
  {
    if ts != [] {
      LeavesBoolSymbols(p, ts[|ts| - 1]);
      LeavesAllBoolSymbols(p, ts[..|ts| - 1]);
    }
  }

  // ----- the printed conversion -----

  /** Every result of the conversion can be printed: constants too, and formulas that are returned as they are. */
  lemma {:induction false} ConversionPrintable(f: Term, declared: set<string>)
    requires BoolFormula(f) && Names(f) <= declared
    ensures var cnf := Convert(f, declared).cnf;
      (cnf == TRUE || D.PrintableCnf(cnf)) && D.BooleanAtoms(D.NumberingOf(cnf))
  {
    var cnf := Convert(f, declared).cnf;
    ToCnfInCnf(f, declared);
    CnfPrintable(cnf);
    ConvertBoolSymbols(f, declared);
    NumberedBoolean(cnf);
  }

  lemma CnfPrintable(cnf: Term)
    requires cnf.BoolValue? || IsCnf(cnf)
    ensures cnf == TRUE || D.PrintableCnf(cnf)
  {
    if IsCnf(cnf) {
      forall c | c in Leaves(And, cnf)
        ensures D.PrintableClause(Leaves(Or, c))
      {
        assert IsClause(c);
      }
    } else if cnf == FALSE {
      assert Leaves(And, cnf) == [FALSE] && Leaves(Or, FALSE) == [FALSE];
    }
  }

  lemma {:induction false} NumberedBoolean(cnf: Term)
    requires cnf == TRUE || D.PrintableCnf(cnf)
    requires BoolSymbols(cnf)
    ensures D.BooleanAtoms(D.NumberingOf(cnf))
  {
    D.ClausesPrintable(cnf);
    var cs := D.Clauses(cnf);
    forall c | c in cs
      ensures AllBoolSymbols(c)
    {
      var i :| 0 <= i < |cs| && cs[i] == c;
      LeavesBoolSymbols(And, cnf);
      assert Leaves(And, cnf)[i] in Leaves(And, cnf);
      LeavesBoolSymbols(Or, Leaves(And, cnf)[i]);
    }
    NumberAllBoolean(cs);
  }

  lemma {:induction false} NumberLiteralBoolean(ma: D.Numbering, l: Term)
    requires D.Printable(l) && BoolSymbols(l) && D.BooleanAtoms(ma)
    ensures D.BooleanAtoms(D.NumberLiteral(ma, l))
  {
    if IsLiteral(l) {
      var a := D.Atom(l);
      assert l.App? ==> l.children[0] in l.children;
      assert BoolSymbols(a) && a.Symbol?;
    }
  }

  lemma {:induction false} NumberClauseBoolean(ma: D.Numbering, ls: seq<Term>)
    requires D.PrintableClause(ls) && AllBoolSymbols(ls) && D.BooleanAtoms(ma)
    ensures D.BooleanAtoms(D.NumberClause(ma, ls))
    decreases |ls|
  {
    if ls != [] {
      NumberClauseBoolean(ma, ls[..|ls| - 1]);
      assert ls[|ls| - 1] in ls;
      NumberLiteralBoolean(D.NumberClause(ma, ls[..|ls| - 1]), ls[|ls| - 1]);
    }
  }

  lemma {:induction false} NumberAllBoolean(cs: seq<seq<Term>>)
    requires D.PrintableClauses(cs) && forall c :: c in cs ==> AllBoolSymbols(c)
    ensures D.BooleanAtoms(D.NumberAll(cs))
    decreases |cs|
  {
    if cs != [] {
      NumberAllBoolean(cs[..|cs| - 1]);
      NumberClauseBoolean(D.NumberAll(cs[..|cs| - 1]), cs[|cs| - 1]);
    }
  }

  /** A valuation that satisfies the printed conversion gives an assignment that satisfies the formula. */
  lemma {:induction false} ModelOfText(f: Term, declared: set<string>, v: nat -> bool)
    requires BoolFormula(f) && Names(f) <= declared && XorsInReach(f)
    requires var cnf := Convert(f, declared).cnf;
      (cnf == TRUE || D.PrintableCnf(cnf)) && D.ProblemHolds(v, D.Printed(cnf))
    ensures Holds(D.AssignmentOf(v, D.NumberingOf(Convert(f, declared).cnf)), f)
  {
    var r := Convert(f, declared);
    var env := D.AssignmentOf(v, D.NumberingOf(r.cnf));
    ConversionPrintable(f, declared);
    D.ValuationMeansCnf(r.cnf, v);
    ToCnfMeans(f, declared, env);
    assert Extends(env, env, r.declared - declared);
  }

  /** Every assignment that satisfies the formula extends to the new symbols so that the numbers of the text,
      read with it, satisfy the text. */
  lemma ModelOfFormula(f: Term, declared: set<string>, env: Env) returns (env': Env)
    requires BoolFormula(f) && Names(f) <= declared && XorsInReach(f) && Holds(env, f)
    ensures var r := Convert(f, declared);
      && (r.cnf == TRUE || D.PrintableCnf(r.cnf)) && Extends(env, env', r.declared - declared)
      && D.ProblemHolds(D.Reading(env', D.NumberingOf(r.cnf)), D.Printed(r.cnf))
  {
    var r := Convert(f, declared);
    ConversionPrintable(f, declared);
    ToCnfMeans(f, declared, env);
    env' :| Extends(env, env', r.declared - declared) && Holds(env', r.cnf);
    D.DimacsMeansCnf(r.cnf, env');
  }

  /** The printed conversion is satisfiable exactly when the formula is. */
  lemma {:induction false} PrintedEquisatisfiable(f: Term, declared: set<string>)
    requires BoolFormula(f) && Names(f) <= declared && XorsInReach(f)
    ensures var cnf := Convert(f, declared).cnf;
      && (cnf == TRUE || D.PrintableCnf(cnf))
      && (D.SatisfiableProblem(D.Printed(cnf)) <==> D.SatisfiableFormula(f))
  {
    var cnf := Convert(f, declared).cnf;
    ConversionPrintable(f, declared);
    if v: nat -> bool :| D.ProblemHolds(v, D.Printed(cnf)) {
      ModelOfText(f, declared, v);
    }
    if env: Env :| Holds(env, f) {
      var env' := ModelOfFormula(f, declared, env);
      assert D.ProblemHolds(D.Reading(env', D.NumberingOf(cnf)), D.Printed(cnf));
    }
  }
}
