/** Conjunctive normal form: the two-level flattening that is_cnf and cnf_to_dimacs share. */
module CnfForm {
  import opened Terms
  import opened Booleans

  /** What is left of t when the operator p is taken apart, in the order of the worklist
      that does it: last child first. */
  function Leaves(p: PrimOp, t: Term): seq<Term>
    decreases t, 1
  {
    if t.HasOp(p) then LeavesAll(p, t.children) else [t]
  }

  function LeavesAll(p: PrimOp, ts: seq<Term>): seq<Term>
    decreases ts, 0
  {
    if ts == [] then [] else Leaves(p, ts[|ts| - 1]) + LeavesAll(p, ts[..|ts| - 1])
  }

  predicate IsLiteral(t: Term) {
    t.IsSymbolicConst() || (t.App? && t.op == Op(Not, []) && t.children != [] && t.children[0].IsSymbolicConst())
  }

  predicate IsClause(t: Term) {
    forall l :: l in Leaves(Or, t) ==> IsLiteral(l)
  }

  predicate IsCnf(t: Term) {
    forall c :: c in Leaves(And, t) ==> IsClause(c)
  }

  lemma {:induction false} LeavesAllConcat(p: PrimOp, a: seq<Term>, b: seq<Term>)
    ensures LeavesAll(p, a + b) == LeavesAll(p, b) + LeavesAll(p, a)
    decreases |b|
  {
    if b == [] {
      assert a + b == a;
    } else {
      assert (a + b)[..|a + b| - 1] == a + b[..|b| - 1];
      LeavesAllConcat(p, a, b[..|b| - 1]);
    }
  }

  lemma {:induction false} LeavesOfOne(p: PrimOp, a: Term)
    ensures LeavesAll(p, [a]) == Leaves(p, a)
  {
    assert [a][..0] == [];
    assert LeavesAll(p, []) == [];
  }

  lemma {:induction false} LeavesOfPair(p: PrimOp, a: Term, b: Term)
    ensures LeavesAll(p, [a, b]) == Leaves(p, b) + Leaves(p, a)
  {
    assert [a] + [b] == [a, b];
    LeavesAllConcat(p, [a], [b]);
    LeavesOfOne(p, a);
    LeavesOfOne(p, b);
  }

  /** The last term of the worklist is taken apart, or is a leaf. */
  lemma {:induction false} FlattenNext(p: PrimOp, rest: seq<Term>, u: Term)
    ensures SumSizes(rest) < SumSizes(rest + [u])
    ensures u.HasOp(p) ==> LeavesAll(p, rest + u.children) == LeavesAll(p, rest + [u])
    ensures u.HasOp(p) ==> SumSizes(rest + u.children) < SumSizes(rest + [u])
    ensures !u.HasOp(p) ==> LeavesAll(p, rest + [u]) == [u] + LeavesAll(p, rest)
  {
    assert (rest + [u])[..|rest|] == rest;
    assert SumSizes(rest + [u]) == SumSizes(rest) + Size(u);
    LeavesAllConcat(p, rest, [u]);
    LeavesOfOne(p, u);
    if u.HasOp(p) {
      LeavesAllConcat(p, rest, u.children);
      SumSizesConcat(rest, u.children);
    }
  }

  /** The worklist and what it has given so far hold all the leaves. */
  ghost predicate Flattening(p: PrimOp, goal: seq<Term>, before: seq<Term>, after: seq<Term>) {
    after + LeavesAll(p, before) == goal
  }

  lemma {:induction false} FlattenStep(p: PrimOp, goal: seq<Term>, rest: seq<Term>, u: Term, after: seq<Term>)
    requires Flattening(p, goal, rest + [u], after)
    ensures u.HasOp(p) ==> Flattening(p, goal, rest + u.children, after)
    ensures u.HasOp(p) ==> SumSizes(rest + u.children) < SumSizes(rest + [u])
    ensures !u.HasOp(p) ==> Flattening(p, goal, rest, after + [u]) && SumSizes(rest) < SumSizes(rest + [u])
  {
    FlattenNext(p, rest, u);
    Associative(after, [u], LeavesAll(p, rest));
  }

  lemma Associative(a: seq<Term>, b: seq<Term>, c: seq<Term>)
    ensures a + (b + c) == a + b + c
  {
  }

  lemma {:induction false} FlattenEnds(p: PrimOp, t: Term, after: seq<Term>)
    ensures Flattening(p, Leaves(p, t), [t], [])
    ensures Flattening(p, Leaves(p, t), [], after) ==> after == Leaves(p, t)
  {
    LeavesOfOne(p, t);
    assert [] + LeavesAll(p, [t]) == LeavesAll(p, [t]) && after + LeavesAll(p, []) == after;
  }

  /** The flattening loop. */
  method Flatten(p: PrimOp, t: Term) returns (after: seq<Term>)
    ensures after == Leaves(p, t)
  {
    var before := [t];
    after := [];
    FlattenEnds(p, t, after);
    while |before| > 0
      invariant Flattening(p, Leaves(p, t), before, after)
      decreases SumSizes(before)
    {
      var u := before[|before| - 1];
      assert before == before[..|before| - 1] + [u];
      before := before[..|before| - 1];
      FlattenStep(p, Leaves(p, t), before, u, after);
      if u.HasOp(p) {
        before := before + u.children;
      } else {
        after := after + [u];
      }
    }
    FlattenEnds(p, t, after);
  }

  /** Flattening every clause of a conjunction. */
  method ClausesOf(t: Term) returns (clauses: seq<seq<Term>>)
    ensures |clauses| == |Leaves(And, t)|
    ensures forall i :: 0 <= i < |clauses| ==> clauses[i] == Leaves(Or, Leaves(And, t)[i])
  {
    var afterAnd := Flatten(And, t);
    clauses := [];
    for i := 0 to |afterAnd|
      invariant |clauses| == i
      invariant forall j :: 0 <= j < i ==> clauses[j] == Leaves(Or, afterAnd[j])
    {
      var afterOr := Flatten(Or, afterAnd[i]);
      clauses := clauses + [afterOr];
    }
  }

  method CheckCnf(formula: Term) returns (check: bool)
    ensures check == IsCnf(formula)
  {
    if formula.IsSymbolicConst() {
      return true;
    }
    var clauses := ClausesOf(formula);
    check := true;
    for i := 0 to |clauses|
      invariant check <==> forall j :: 0 <= j < i ==> IsClause(Leaves(And, formula)[j])
    {
      var u := clauses[i];
      ghost var soFar := check;
      for k := 0 to |u|
        invariant check <==> soFar && forall j :: 0 <= j < k ==> IsLiteral(u[j])
      {
        if !IsLiteral(u[k]) {
          check := false;
        }
      }
    }
  }

  // ----- the form -----

  /** Literals joined by Or to any depth. */
  predicate ClauseShape(t: Term) {
    if t.HasOp(Or) then forall c :: c in t.children ==> ClauseShape(c) else IsLiteral(t)
  }

  /** Clauses joined by And to any depth. */
  predicate CnfShape(t: Term) {
    if t.HasOp(And) then forall c :: c in t.children ==> CnfShape(c) else ClauseShape(t)
  }

  lemma {:induction false} IsClauseShape(t: Term)
    ensures IsClause(t) <==> ClauseShape(t)
    decreases t, 1
  {
    if t.HasOp(Or) {
      AllClauseShape(t.children);
    }
  }

  lemma {:induction false} AllClauseShape(ts: seq<Term>)
    ensures (forall l :: l in LeavesAll(Or, ts) ==> IsLiteral(l)) <==> forall t :: t in ts ==> ClauseShape(t)
    decreases ts, 0
  {
    if ts != [] {
      IsClauseShape(ts[|ts| - 1]);
      AllClauseShape(ts[..|ts| - 1]);
      assert ts == ts[..|ts| - 1] + [ts[|ts| - 1]];
    }
  }

  /** What the recogniser accepts: clauses joined by And, each of literals joined by Or. */
  lemma {:induction false} IsCnfShape(t: Term)
    ensures IsCnf(t) <==> CnfShape(t)
    decreases t, 1
  {
    if t.HasOp(And) {
      AllCnfShape(t.children);
    } else {
      IsClauseShape(t);
    }
  }

  lemma {:induction false} AllCnfShape(ts: seq<Term>)
    ensures (forall c :: c in LeavesAll(And, ts) ==> IsClause(c)) <==> forall t :: t in ts ==> CnfShape(t)
    decreases ts, 0
  {
    if ts != [] {
      IsCnfShape(ts[|ts| - 1]);
      AllCnfShape(ts[..|ts| - 1]);
      assert ts == ts[..|ts| - 1] + [ts[|ts| - 1]];
    }
  }

  // ----- meaning -----

  lemma {:induction false} LeavesAndHold(env: Env, t: Term)
    ensures Holds(env, t) <==> forall c :: c in Leaves(And, t) ==> Holds(env, c)
    decreases t, 1
  {
    if t.HasOp(And) {
      HoldsApp(env, t.op, t.children);
      HoldsAnd(env, t.children);
      HoldsApp(env, Op(And, []), t.children);
      LeavesAllAndHold(env, t.children);
    }
  }

  lemma {:induction false} LeavesAllAndHold(env: Env, ts: seq<Term>)
    ensures (forall t :: t in ts ==> Holds(env, t)) <==> (forall c :: c in LeavesAll(And, ts) ==> Holds(env, c))
    decreases ts, 0
  {
    if ts != [] {
      LeavesAndHold(env, ts[|ts| - 1]);
      LeavesAllAndHold(env, ts[..|ts| - 1]);
      assert ts == ts[..|ts| - 1] + [ts[|ts| - 1]];
    }
  }

  lemma {:induction false} LeavesOrHold(env: Env, t: Term)
    ensures Holds(env, t) <==> exists l :: l in Leaves(Or, t) && Holds(env, l)
    decreases t, 1
  {
    if t.HasOp(Or) {
      HoldsApp(env, t.op, t.children);
      HoldsOr(env, t.children);
      HoldsApp(env, Op(Or, []), t.children);
      LeavesAllOrHold(env, t.children);
    }
  }

  lemma {:induction false} LeavesAllOrHold(env: Env, ts: seq<Term>)
    ensures (exists t :: t in ts && Holds(env, t)) <==> (exists l :: l in LeavesAll(Or, ts) && Holds(env, l))
    decreases ts, 0
  {
    if ts != [] {
      LeavesOrHold(env, ts[|ts| - 1]);
      LeavesAllOrHold(env, ts[..|ts| - 1]);
      assert ts == ts[..|ts| - 1] + [ts[|ts| - 1]];
    }
  }

  /** A term is true exactly when every clause its flattening gives has a true member. */
  lemma {:induction false} ClausesHold(env: Env, t: Term)
    ensures Holds(env, t) <==>
      forall c :: c in Leaves(And, t) ==> exists l :: l in Leaves(Or, c) && Holds(env, l)
  {
    LeavesAndHold(env, t);
    forall c | c in Leaves(And, t)
      ensures Holds(env, c) <==> exists l :: l in Leaves(Or, c) && Holds(env, l)
    {
      LeavesOrHold(env, c);
    }
  }
}
