/** The MathSAT backend's bookkeeping of assumption clauses: msat/include/msat_solver.h and
    msat/src/msat_solver.cpp. MathSAT itself is an exact oracle over a stack of assertions. */
module Msat {
  import opened Terms
  import opened Sorts
  import opened Text
  import opened Logic
  import opened Solvers

  const LABEL_PREFIX := ".assump_lbl{"

  predicate IsLabelName(n: string) {
    LABEL_PREFIX <= n
  }

  predicate IsBoolConstant(t: Term) {
    t.Symbol? && t.sort == BoolSort
  }

  predicate IsBoolLiteral(t: Term) {
    IsBoolConstant(t) || (t.App? && t.op == Op(Not, []) && |t.children| == 1 && IsBoolConstant(t.children[0]))
  }

  /** The literals are the Boolean constants and their negations. */
  lemma LiteralShapes(t: Term)
    ensures IsBoolLiteral(t) <==> exists n :: t == Symbol(n, BoolSort) || t == Make(Not, [Symbol(n, BoolSort)])
  {
    if IsBoolLiteral(t) {
      var x := if t.Symbol? then t else t.children[0];
      assert t == Symbol(x.name, BoolSort) || t == Make(Not, [Symbol(x.name, BoolSort)]);
    }
  }

  /** label: a literal is its own label, any other term has the symbol made of its id. */
  function LabelOf(id: Term -> nat, p: Term): Term {
    if IsBoolLiteral(p) then p else Symbol(LABEL_PREFIX + Decimal(id(p)) + "}", BoolSort)
  }

  function AssumptionClause(id: Term -> nat, p: Term): Term {
    Make(Or, [Make(Not, [LabelOf(id, p)]), p])
  }

  ghost predicate Injective(id: Term -> nat) {
    forall a, b :: id(a) == id(b) ==> a == b
  }

  /** A term of the user: it does not mention a label. */
  ghost predicate UserTerm(t: Term) {
    forall n :: n in Names(t) ==> !IsLabelName(n)
  }

  ghost predicate UserTerms(ts: set<Term>) {
    forall t :: t in ts ==> UserTerm(t)
  }

  ghost predicate IsAssumptionClause(id: Term -> nat, t: Term) {
    exists p :: UserTerm(p) && t == AssumptionClause(id, p)
  }

  /** What is asserted beside the user's assertions is assumption clauses. */
  ghost predicate Padded(id: Term -> nat, user: set<Term>, asserted: set<Term>) {
    && UserTerms(user) && user <= asserted
    && forall t :: t in asserted && t !in user ==> IsAssumptionClause(id, t)
  }

  lemma LabelApart(id: Term -> nat, p: Term, q: Term)
    requires Injective(id) && UserTerm(p) && UserTerm(q) && LabelOf(id, p) == LabelOf(id, q)
    ensures p == q
  {
    if IsBoolLiteral(p) != IsBoolLiteral(q) {
      var l, s := if IsBoolLiteral(p) then p else q, if IsBoolLiteral(p) then q else p;
      assert l == LabelOf(id, s) && LabelOf(id, s).name in Names(l);
      assert IsLabelName(LabelOf(id, s).name);
      assert false;
    } else if !IsBoolLiteral(p) {
      var a, b := Decimal(id(p)) + "}", Decimal(id(q)) + "}";
      assert (LABEL_PREFIX + Decimal(id(p)) + "}")[|LABEL_PREFIX|..] == a;
      assert (LABEL_PREFIX + Decimal(id(q)) + "}")[|LABEL_PREFIX|..] == b;
      assert a[..|a| - 1] == Decimal(id(p)) && b[..|b| - 1] == Decimal(id(q));
      PrintedApart(id(p), id(q));
    }
  }

  /** The label names in a set of terms. */
  ghost function LabelNamesIn(ts: set<Term>): set<string> {
    set t, n | t in ts && n in Names(t) && IsLabelName(n) :: n
  }

  ghost function LabelsOf(id: Term -> nat, ps: set<Term>): set<Term> {
    set p | p in ps :: LabelOf(id, p)
  }

  /** The model with every label false but those of the assumed terms. */
  ghost function Assuming<V>(th: Theory<V>, m: Model<V>, id: Term -> nat, all: set<Term>,
                             assumed: set<Term>): Model<V> {
    Reassign(th, m, LabelNamesIn(all), set p | p in assumed && !IsBoolLiteral(p) :: LabelOf(id, p).name)
  }

  lemma UserTermKept<V(!new)>(th: Theory<V>, m: Model<V>, id: Term -> nat, all: set<Term>, assumed: set<Term>, t: Term)
    requires UserTerm(t)
    ensures True(th, Assuming(th, m, id, all, assumed), t) == True(th, m, t)
  {
    ReassignKeeps(th, m, LabelNamesIn(all), set p | p in assumed && !IsBoolLiteral(p) :: LabelOf(id, p).name, t);
  }

  lemma ClauseNames(id: Term -> nat, p: Term)
    requires !IsBoolLiteral(p)
    ensures LabelOf(id, p).name in Names(AssumptionClause(id, p)) && IsLabelName(LabelOf(id, p).name)
  {
    var l := LabelOf(id, p);
    var n := Make(Not, [l]);
    ChildNames(AssumptionClause(id, p));
    ChildNames(n);
    assert n in Children(AssumptionClause(id, p)) && l in Children(n) && l.name in Names(l);
  }

  /** An assumption clause holds where its label is true only if its term is. */
  lemma ClauseTrue<V(!new)>(th: Theory<V>, m: Model<V>, id: Term -> nat, all: set<Term>, assumed: set<Term>, p: Term)
    requires Standard(th) && Injective(id) && UserTerm(p) && UserTerms(assumed) && AssumptionClause(id, p) in all
    requires forall q :: q in assumed ==> True(th, m, q)
    ensures True(th, Assuming(th, m, id, all, assumed), AssumptionClause(id, p))
  {
    var m' := Assuming(th, m, id, all, assumed);
    var l := LabelOf(id, p);
    TruePair(th, m', Make(Not, [l]), p);
    TrueNot(th, m', l);
    UserTermKept(th, m, id, all, assumed, p);
    if !IsBoolLiteral(p) {
      ClauseNames(id, p);
      assert l.name in LabelNamesIn(all);
      var chosen := set q | q in assumed && !IsBoolLiteral(q) :: LabelOf(id, q).name;
      LabelTrue(th, m, LabelNamesIn(all), chosen, l);
      if l.name in chosen {
        var q :| q in assumed && !IsBoolLiteral(q) && LabelOf(id, q).name == l.name;
        LabelApart(id, p, q);
      }
    }
  }

  /** A model of the user's terms and the assumed ones is, but for labels, one of everything
      asserted and of the labels of the assumed ones. */
  lemma AssumingModels<V(!new)>(th: Theory<V>, m: Model<V>, id: Term -> nat, user: set<Term>, asserted: set<Term>,
                                assumed: set<Term>)
    requires Standard(th) && Injective(id) && Padded(id, user, asserted) && UserTerms(assumed)
    requires forall p :: p in assumed ==> AssumptionClause(id, p) in asserted
    requires Models(th, m, user + assumed)
    ensures Models(th, Assuming(th, m, id, asserted, assumed), asserted + LabelsOf(id, assumed))
  {
    var m' := Assuming(th, m, id, asserted, assumed);
    var chosen := set q | q in assumed && !IsBoolLiteral(q) :: LabelOf(id, q).name;
    ReassignFits(th, m, LabelNamesIn(asserted), chosen);
    forall t | t in asserted + LabelsOf(id, assumed)
      ensures True(th, m', t)
    {
      if t in user {
        UserTermKept(th, m, id, asserted, assumed, t);
      } else if t in asserted {
        var p :| UserTerm(p) && t == AssumptionClause(id, p);
        ClauseTrue(th, m, id, asserted, assumed, p);
      } else {
        var p :| p in assumed && t == LabelOf(id, p);
        if IsBoolLiteral(p) {
          UserTermKept(th, m, id, asserted, assumed, p);
        } else {
          ClauseNames(id, p);
          assert t.name in LabelNamesIn(asserted);
          LabelTrue(th, m, LabelNamesIn(asserted), chosen, t);
        }
      }
    }
  }

  /** Assuming labels on top of what is asserted is assuming their terms on top of what the user asserted. */
  lemma AssumingExact<V(!new)>(th: Theory<V>, id: Term -> nat, user: set<Term>, asserted: set<Term>, assumed: set<Term>)
    requires Standard(th) && Injective(id) && Padded(id, user, asserted) && UserTerms(assumed)
    requires forall p :: p in assumed ==> AssumptionClause(id, p) in asserted
    ensures Sat(th, asserted + LabelsOf(id, assumed)) <==> Sat(th, user + assumed)
  {
    if m :| Models(th, m, user + assumed) {
      AssumingModels(th, m, id, user, asserted, assumed);
    }
    if m :| Models(th, m, asserted + LabelsOf(id, assumed)) {
      forall t | t in user + assumed
        ensures True(th, m, t)
      {
        if t in assumed {
          var l := LabelOf(id, t);
          TruePair(th, m, Make(Not, [l]), t);
          TrueNot(th, m, l);
          assert l in LabelsOf(id, assumed) && AssumptionClause(id, t) in asserted;
        }
      }
      assert Models(th, m, user + assumed);
    }
  }

  /** The assertions are a conservative extension of the user's: every model of those becomes one
      of everything asserted by changing labels only. */
  lemma ConservativeExtension<V(!new)>(th: Theory<V>, m: Model<V>, id: Term -> nat, user: set<Term>,
                                       asserted: set<Term>)
    requires Standard(th) && Injective(id) && Padded(id, user, asserted) && Models(th, m, user)
    ensures exists m' :: Models(th, m', asserted) && forall n, s :: !IsLabelName(n) ==> m'(n, s) == m(n, s)
  {
    assert user + {} == user && asserted + LabelsOf(id, {}) == asserted;
    AssumingModels(th, m, id, user, asserted, {});
    var m' := Assuming(th, m, id, asserted, {});
    assert forall n, s :: !IsLabelName(n) ==> m'(n, s) == m(n, s);
  }

  ghost predicate PaddedLevels(id: Term -> nat, user: seq<set<Term>>, env: seq<set<Term>>) {
    |user| == |env| > 0 && forall i :: 0 <= i < |env| ==> Padded(id, user[i], env[i])
  }

  lemma {:induction false} PaddedUnion(id: Term -> nat, user: seq<set<Term>>, env: seq<set<Term>>)
    requires PaddedLevels(id, user, env)
    ensures Padded(id, Union(user), Union(env))
    decreases |user|
  {
    var k := |user| - 1;
    assert Padded(id, user[k], env[k]);
    if k > 0 {
      PaddedUnion(id, user[..k], env[..k]);
    } else {
      assert user[..0] == [] && env[..0] == [];
    }
  }

  function AddToTop(levels: seq<set<Term>>, t: Term): seq<set<Term>>
    requires levels != []
  {
    levels[|levels| - 1 := levels[|levels| - 1] + {t}]
  }

  lemma PaddedAssert(id: Term -> nat, user: seq<set<Term>>, env: seq<set<Term>>, t: Term)
    requires PaddedLevels(id, user, env)
    ensures UserTerm(t) ==> PaddedLevels(id, AddToTop(user, t), AddToTop(env, t))
    ensures IsAssumptionClause(id, t) ==> PaddedLevels(id, user, AddToTop(env, t))
  {
    var k := |user| - 1;
    assert Padded(id, user[k], env[k]);
    if UserTerm(t) {
      assert Padded(id, user[k] + {t}, env[k] + {t});
    }
    if IsAssumptionClause(id, t) {
      assert Padded(id, user[k], env[k] + {t});
    }
  }

  /** With nothing assumed. */
  lemma AssertedExact<V(!new)>(th: Theory<V>, id: Term -> nat, user: set<Term>, asserted: set<Term>)
    requires Standard(th) && Injective(id) && Padded(id, user, asserted)
    ensures Sat(th, asserted + {}) <==> Sat(th, user)
  {
    AssumingExact(th, id, user, asserted, {});
    assert user + {} == user && asserted + LabelsOf(id, {}) == asserted + {};
  }

  class MsatSolver<V(!new)> {
    ghost const th: Theory<V>
    const oracle: Oracle
    const termId: Term -> nat
    var env: seq<set<Term>>                // MathSAT's assertions, one set for each backtrack point and the base
    var core: set<Term>                    // what msat_get_unsat_assumptions returns
    var baseAssertions: seq<Term>
    var assumptionMap: map<nat, Term>
    var numAssumpClauses: nat
    var maxAssumpClauses: nat
    var lastQueryAssuming: bool
    ghost var user: seq<set<Term>>         // the user's assertion stack
    ghost var assumed: set<Term>           // the assumptions of the last query

    /** The foreign solver decides, and terms have ids of their own. */
    ghost predicate Sound() {
      Standard(th) && Exact(th, oracle) && Injective(termId)
    }

    ghost predicate Valid()
      reads this
    {
      && Sound()
      && PaddedLevels(termId, user, env)
      && SetOf(baseAssertions) == user[0]
    }

    constructor (ghost th: Theory<V>, oracle: Oracle, termId: Term -> nat)
      requires Standard(th) && Exact(th, oracle) && Injective(termId)
      ensures Valid() && user == [{}]
    {
      this.th, this.oracle, this.termId := th, oracle, termId;
      env, core, baseAssertions, assumptionMap := [{}], {}, [], map[];
      numAssumpClauses, maxAssumpClauses, lastQueryAssuming := 0, 10000, true;
      user, assumed := [{}], {};
    }

    method AssertFormula(t: Term)
      requires Valid() && UserTerm(t)
      modifies this`env, this`baseAssertions, this`user
      ensures Valid() && user == AddToTop(old(user), t)
      ensures baseAssertions == old(baseAssertions) + if |user| == 1 then [t] else []
    {
      PaddedAssert(termId, user, env, t);
      MsatAssert(t);
      user := AddToTop(user, t);
      if |env| == 1 {
        baseAssertions := baseAssertions + [t];
      }
    }

    method MsatAssert(t: Term)
      requires env != []
      modifies this`env
      ensures env == AddToTop(old(env), t)
    {
      env := AddToTop(env, t);
    }

    method Push(num: nat)
      requires Valid()
      modifies this`env, this`user
      ensures Valid() && |user| == |old(user)| + num && user[..|old(user)|] == old(user)
      ensures forall i :: |old(user)| <= i < |user| ==> user[i] == {}
    {
      for i := 0 to num
        invariant Valid() && |user| == |old(user)| + i && user[..|old(user)|] == old(user)
        invariant forall j :: |old(user)| <= j < |user| ==> user[j] == {}
      {
        env, user := env + [{}], user + [{}];
      }
    }

    method Pop(num: nat)
      requires Valid() && num < |user|
      modifies this`env, this`user
      ensures Valid() && user == old(user)[..|old(user)| - num]
    {
      for i := 0 to num
        invariant Valid() && user == old(user)[..|old(user)| - i]
      {
        env, user := env[..|env| - 1], user[..|user| - 1];
      }
    }

    method ResetAssertions()
      requires Valid()
      modifies this`env, this`baseAssertions, this`user
      ensures Valid() && user == [{}]
    {
      env, user := [{}], [{}];
      baseAssertions := [];
    }

    /** So many assumption clauses are asserted that the next query at the base level drops them. */
    predicate DueForClearing()
      reads this
    {
      |env| == 1 && numAssumpClauses >= maxAssumpClauses
    }

    /** The assumption clauses that the next query leaves. */
    function ClausesLeft(): nat
      reads this
    {
      if DueForClearing() then 0 else numAssumpClauses
    }

    /** Forgets old assumption clauses by asserting the base anew, at the base level only. */
    method ClearAssumptionClauses()
      requires Valid()
      modifies this`env, this`numAssumpClauses
      ensures Valid()
      ensures old(DueForClearing()) ==> env == user && numAssumpClauses == 0
      ensures !old(DueForClearing()) ==> env == old(env) && numAssumpClauses == old(numAssumpClauses)
    {
      if |env| == 1 && numAssumpClauses >= maxAssumpClauses {
        numAssumpClauses := 0;
        env := [{}];
        assert SetOf(baseAssertions[..0]) == {};
        for i := 0 to |baseAssertions|
          invariant env == [SetOf(baseAssertions[..i])] && numAssumpClauses == 0
        {
          assert baseAssertions[..i + 1] == baseAssertions[..i] + [baseAssertions[i]];
          assert SetOf(baseAssertions[..i + 1]) == SetOf(baseAssertions[..i]) + {baseAssertions[i]};
          MsatAssert(baseAssertions[i]);
        }
        assert baseAssertions[..|baseAssertions|] == baseAssertions;
        assert Padded(termId, user[0], user[0]);
      }
    }

    method CheckSat() returns (sat: bool)
      requires Valid()
      modifies this`env, this`numAssumpClauses, this`lastQueryAssuming
      ensures Valid() && sat == Sat(th, Union(user)) && !lastQueryAssuming
      ensures numAssumpClauses == old(ClausesLeft())
    {
      lastQueryAssuming := false;
      ClearAssumptionClauses();
      assert ExactAt(th, oracle, Union(env), {});
      sat := oracle.sat(Union(env), {});
      assert Union(env) + {} == Union(env);
      PaddedUnion(termId, user, env);
      AssertedExact(th, termId, Union(user), Union(env));
    }

    /** The last query assumed the terms in assumed and was unsatisfiable. */
    ghost predicate UnsatReady()
      reads this
    {
      && Assumed(termId, assumed, Union(env)) && MapsBack(termId, assumptionMap, assumed)
      && core <= LabelsOf(termId, assumed) && !Sat(th, Union(env) + core)
      && core == oracle.core(Union(env), LabelsOf(termId, assumed))
    }

    /** The assumption clause of one more term. */
    method AssumeOne(ma: Term) returns (lbl: Term)
      requires Valid() && UserTerm(ma)
      requires Assumed(termId, assumed, Union(env)) && MapsBack(termId, assumptionMap, assumed)
      modifies this`env, this`numAssumpClauses, this`assumptionMap, this`assumed
      ensures Valid() && lbl == LabelOf(termId, ma) && assumed == old(assumed) + {ma}
      ensures numAssumpClauses == old(numAssumpClauses) + 1
      ensures assumptionMap == old(assumptionMap)[termId(lbl) := ma]
      ensures Assumed(termId, assumed, Union(env)) && MapsBack(termId, assumptionMap, assumed)
    {
      lbl := LabelOf(termId, ma);
      AssumeNext(termId, user, env, assumed, assumptionMap, ma);
      MsatAssert(AssumptionClause(termId, ma));
      numAssumpClauses := numAssumpClauses + 1;
      assumptionMap := assumptionMap[termId(lbl) := ma];
      assumed := assumed + {ma};
    }

    method AssumeAll(assumps: seq<Term>) returns (lbls: seq<Term>)
      requires Valid() && UserTerms(SetOf(assumps))
      modifies this`env, this`numAssumpClauses, this`assumptionMap, this`assumed
      ensures Valid() && assumed == SetOf(assumps) && SetOf(lbls) == LabelsOf(termId, assumed)
      ensures numAssumpClauses == old(numAssumpClauses) + |assumps|
      ensures LabelsEach(termId, assumps, lbls) && OnlyLabels(termId, assumptionMap, lbls)
      ensures Assumed(termId, assumed, Union(env)) && MapsBack(termId, assumptionMap, assumed)
    {
      assumptionMap := map[];
      lbls := [];
      assumed := {};
      for i := 0 to |assumps|
        invariant Valid() && assumed == SetOf(assumps[..i]) && SetOf(lbls) == LabelsOf(termId, assumed)
        invariant Assumed(termId, assumed, Union(env)) && MapsBack(termId, assumptionMap, assumed)
        invariant numAssumpClauses == old(numAssumpClauses) + i
        invariant LabelsEach(termId, assumps[..i], lbls) && OnlyLabels(termId, assumptionMap, lbls)
      {
        TakeNext(assumps, i);
        assert assumps[i] in assumps;
        SetOfSnoc(assumps[..i], assumps[i]);
        LabelsOfAdd(termId, assumed, assumps[i]);
        LabelsSnoc(termId, assumps[..i], assumps[i], lbls, assumptionMap);
        var lbl := AssumeOne(assumps[i]);
        SetOfSnoc(lbls, lbl);
        lbls := lbls + [lbl];
      }
      TakeAll(assumps);
    }

    method CheckSatAssumingMsatvec(assumps: seq<Term>) returns (sat: bool)
      requires Valid() && UserTerms(SetOf(assumps))
      modifies this`env, this`numAssumpClauses, this`assumptionMap, this`core, this`assumed
      ensures Valid() && sat == Sat(th, Union(user) + SetOf(assumps))
      ensures assumed == SetOf(assumps) && (!sat ==> UnsatReady())
      ensures numAssumpClauses == old(numAssumpClauses) + |assumps|
    {
      var lbls := AssumeAll(assumps);
      sat := SolveWithAssumptions(lbls);
      PaddedUnion(termId, user, env);
      AssumingExact(th, termId, Union(user), Union(env), assumed);
    }

    /** msat_solve_with_assumptions. */
    method SolveWithAssumptions(lbls: seq<Term>) returns (sat: bool)
      requires Exact(th, oracle)
      modifies this`core
      ensures sat == Sat(th, Union(env) + SetOf(lbls))
      ensures !sat ==> core <= SetOf(lbls) && !Sat(th, Union(env) + core)
      ensures !sat ==> core == oracle.core(Union(env), SetOf(lbls))
    {
      assert ExactAt(th, oracle, Union(env), SetOf(lbls));
      sat := oracle.sat(Union(env), SetOf(lbls));
      if !sat {
        core := oracle.core(Union(env), SetOf(lbls));
      }
    }

    /** check_sat_assuming: satisfiable exactly when the user's assertions and the assumptions are. */
    method CheckSatAssuming(assumptions: seq<Term>) returns (sat: bool)
      requires Valid() && UserTerms(SetOf(assumptions))
      modifies this`env, this`numAssumpClauses, this`assumptionMap, this`core, this`assumed, this`lastQueryAssuming
      ensures Valid() && sat == Sat(th, Union(user) + SetOf(assumptions))
      ensures lastQueryAssuming && assumed == SetOf(assumptions) && (!sat ==> UnsatReady())
      ensures numAssumpClauses == old(ClausesLeft()) + |assumptions|
    {
      lastQueryAssuming := true;
      ClearAssumptionClauses();
      sat := CheckSatAssumingMsatvec(assumptions);
    }

    /** check_sat_assuming_list and check_sat_assuming_set: literals only, None for the exception.
        They do not record that the last query assumed something. */
    method CheckSatAssumingLiterals(assumptions: seq<Term>) returns (sat: Option<bool>)
      requires Valid() && UserTerms(SetOf(assumptions))
      modifies this`env, this`numAssumpClauses, this`assumptionMap, this`core, this`assumed
      ensures Valid()
      ensures sat.Some? <==> forall a :: a in assumptions ==> IsBoolLiteral(a)
      ensures sat.Some? ==> sat.value == Sat(th, Union(user) + SetOf(assumptions))
      ensures sat == Some(false) ==> assumed == SetOf(assumptions) && UnsatReady()
      ensures numAssumpClauses == old(ClausesLeft()) + if sat.Some? then |assumptions| else 0
    {
      ClearAssumptionClauses();
      for i := 0 to |assumptions|
        invariant forall j :: 0 <= j < i ==> IsBoolLiteral(assumptions[j])
      {
        if !IsBoolLiteral(assumptions[i]) {
          assert assumptions[i] in assumptions;
          return None;
        }
      }
      var r := CheckSatAssumingMsatvec(assumptions);
      return Some(r);
    }

    /** get_unsat_assumptions: None for the exception when the last query is not on record as an
        assuming one; otherwise the assumptions behind the core of the solver, which are unsatisfiable with the
        user's assertions. */
    method GetUnsatAssumptions() returns (r: Option<set<Term>>)
      requires Valid() && UnsatReady()
      ensures r.Some? <==> lastQueryAssuming
      ensures r.Some? ==> r.value <= assumed && !Sat(th, Union(user) + r.value)
      ensures r.Some? ==> LabelsOf(termId, r.value) == core
    {
      if !lastQueryAssuming {
        return None;
      }
      var result := MapBack(core);
      PaddedUnion(termId, user, env);
      AssumingExact(th, termId, Union(user), Union(env), result);
      return Some(result);
    }

    /** After a plain query, the assumptions behind an unsatisfiable query in list form cannot be asked for:
        get_unsat_assumptions still takes the last query for a plain one. */
    method ListQueryForgotten(assumptions: seq<Term>) returns (sat: Option<bool>, unsat: Option<set<Term>>)
      requires Valid() && UserTerms(SetOf(assumptions))
      modifies this`env, this`numAssumpClauses, this`assumptionMap, this`core, this`assumed, this`lastQueryAssuming
      ensures Valid() && (sat == Some(false) ==> !Sat(th, Union(user) + SetOf(assumptions)) && unsat == None)
      ensures sat.None? <==> exists a :: a in assumptions && !IsBoolLiteral(a)
    {
      var plain := CheckSat();
      sat := CheckSatAssumingLiterals(assumptions);
      unsat := None;
      if sat == Some(false) {
        unsat := GetUnsatAssumptions();
      }
    }

    /** The terms assumed with the labels of a core. */
    method MapBack(labels: set<Term>) returns (result: set<Term>)
      requires MapsBack(termId, assumptionMap, assumed) && labels <= LabelsOf(termId, assumed)
      ensures result <= assumed && LabelsOf(termId, result) == labels
    {
      var todo := labels;
      result := {};
      while todo != {}
        invariant todo <= labels && result <= assumed && LabelsOf(termId, result) == labels - todo
        decreases todo
      {
        var l :| l in todo;
        ghost var p :| p in assumed && LabelOf(termId, p) == l;
        LabelsOfAdd(termId, result, p);
        todo := todo - {l};
        result := result + {assumptionMap[termId(l)]};
      }
    }
  }

  /** The clauses of the assumed terms are asserted. */
  ghost predicate Assumed(id: Term -> nat, assumed: set<Term>, asserted: set<Term>) {
    UserTerms(assumed) && forall p :: p in assumed ==> AssumptionClause(id, p) in asserted
  }

  /** From the id of a label to the term assumed with it. */
  ghost predicate MapsBack(id: Term -> nat, back: map<nat, Term>, assumed: set<Term>) {
    forall p :: p in assumed ==> id(LabelOf(id, p)) in back && back[id(LabelOf(id, p))] == p
  }

  /** Each term has its label in the list. */
  ghost predicate LabelsEach(id: Term -> nat, ps: seq<Term>, lbls: seq<Term>) {
    |lbls| == |ps| && forall i :: 0 <= i < |lbls| ==> lbls[i] == LabelOf(id, ps[i])
  }

  /** Nothing of an earlier query is left in the map. */
  ghost predicate OnlyLabels(id: Term -> nat, back: map<nat, Term>, lbls: seq<Term>) {
    forall k :: k in back ==> exists i :: 0 <= i < |lbls| && id(lbls[i]) == k
  }

  lemma LabelsSnoc(id: Term -> nat, ps: seq<Term>, p: Term, lbls: seq<Term>, back: map<nat, Term>)
    requires LabelsEach(id, ps, lbls) && OnlyLabels(id, back, lbls)
    ensures LabelsEach(id, ps + [p], lbls + [LabelOf(id, p)])
    ensures OnlyLabels(id, back[id(LabelOf(id, p)) := p], lbls + [LabelOf(id, p)])
  {
    var lbls' := lbls + [LabelOf(id, p)];
    assert lbls'[|lbls|] == LabelOf(id, p);
    forall k | k in back
      ensures exists i :: 0 <= i < |lbls'| && id(lbls'[i]) == k
    {
      var i :| 0 <= i < |lbls| && id(lbls[i]) == k;
      assert lbls'[i] == lbls[i];
    }
  }

  lemma LabelsOfAdd(id: Term -> nat, ps: set<Term>, p: Term)
    ensures LabelsOf(id, ps + {p}) == LabelsOf(id, ps) + {LabelOf(id, p)}
  {
  }

  lemma {:induction false} AssumeNext(id: Term -> nat, user: seq<set<Term>>, env: seq<set<Term>>, assumed: set<Term>,
                                      back: map<nat, Term>, p: Term)
    requires PaddedLevels(id, user, env) && Injective(id) && UserTerm(p)
    requires Assumed(id, assumed, Union(env)) && MapsBack(id, back, assumed)
    ensures var env' := AddToTop(env, AssumptionClause(id, p));
      PaddedLevels(id, user, env') && Assumed(id, assumed + {p}, Union(env'))
    ensures MapsBack(id, back[id(LabelOf(id, p)) := p], assumed + {p})
  {
    var c := AssumptionClause(id, p);
    PaddedAssert(id, user, env, c);
    assert AddToTop(env, c)[..|env| - 1] == env[..|env| - 1];
    MapsBackNext(id, assumed, back, p);
  }

  lemma MapsBackNext(id: Term -> nat, assumed: set<Term>, back: map<nat, Term>, p: Term)
    requires Injective(id) && UserTerm(p) && UserTerms(assumed) && MapsBack(id, back, assumed)
    ensures MapsBack(id, back[id(LabelOf(id, p)) := p], assumed + {p})
  {
    forall q | q in assumed && id(LabelOf(id, q)) == id(LabelOf(id, p))
      ensures q == p
    {
      LabelApart(id, p, q);
    }
  }
}
