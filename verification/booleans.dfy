/** Boolean formulas over symbolic constants, and their truth value. */
module Booleans {
  import opened Terms

  /** An assignment of the Boolean symbols. */
  type Env = string -> bool

  const TRUE := BoolValue(true)
  const FALSE := BoolValue(false)

  function Parity(vs: seq<bool>): bool {
    if vs == [] then false else Parity(vs[..|vs| - 1]) != vs[|vs| - 1]
  }

  function BoolApply(op: Op, vs: seq<bool>): bool {
    match op.prim
    case And => false !in vs
    case Or => true in vs
    case Xor => Parity(vs)
    case Not => |vs| > 0 && !vs[0]
    case Implies => |vs| > 1 && (vs[0] ==> vs[1])
    case Equal => |vs| > 1 && vs[0] == vs[1]
    case _ => false
  }

  function BoolLeaf(env: Env, t: Term): bool {
    match t
    case Symbol(n, _) => env(n)
    case BoolValue(b) => b
    case _ => false
  }

  function SameValue(s: Sort, v: bool): bool {
    v
  }

  function BoolInterp(env: Env): Interp<bool> {
    Interp((t: Term) => BoolLeaf(env, t), SameValue, BoolApply)
  }

  predicate Holds(env: Env, t: Term) {
    Eval(BoolInterp(env), t)
  }

  function Truths(env: Env, ts: seq<Term>): (vs: seq<bool>)
    ensures |vs| == |ts|
    ensures forall i :: 0 <= i < |ts| ==> vs[i] == Holds(env, ts[i])
  {
    EvalAll(BoolInterp(env), ts)
  }

  lemma HoldsApp(env: Env, op: Op, ts: seq<Term>)
    ensures Holds(env, App(op, ts)) == BoolApply(op, Truths(env, ts))
  {
    EvalApp(BoolInterp(env), op, ts);
  }

  lemma HoldsAnd(env: Env, ts: seq<Term>)
    ensures Holds(env, Make(And, ts)) <==> forall t :: t in ts ==> Holds(env, t)
  {
    HoldsApp(env, Op(And, []), ts);
    var vs := Truths(env, ts);
    if false in vs {
      var i :| 0 <= i < |vs| && vs[i] == false;
      assert ts[i] in ts;
    }
  }

  lemma HoldsOr(env: Env, ts: seq<Term>)
    ensures Holds(env, Make(Or, ts)) <==> exists t :: t in ts && Holds(env, t)
  {
    HoldsApp(env, Op(Or, []), ts);
    var vs := Truths(env, ts);
    if true in vs {
      var i :| 0 <= i < |vs| && vs[i] == true;
      assert ts[i] in ts;
    }
    if t :| t in ts && Holds(env, t) {
      var i :| 0 <= i < |ts| && ts[i] == t;
      assert vs[i] == true;
    }
  }

  lemma HoldsNot(env: Env, t: Term)
    ensures Holds(env, Make(Not, [t])) <==> !Holds(env, t)
  {
    HoldsApp(env, Op(Not, []), [t]);
    assert Truths(env, [t])[0] == Holds(env, t);
  }

  /** The operators of Boolean formulas, with the arguments they take. */
  predicate IsJunction(p: PrimOp) {
    p == And || p == Or || p == Xor
  }

  predicate BoolNode(op: Op, n: nat) {
    op.idx == [] &&
    match op.prim
    case And | Or | Xor => n >= 1
    case Implies | Equal => n == 2
    case Not => n == 1
    case _ => false
  }

  /** A formula over Boolean symbols and constants. */
  ghost predicate BoolFormula(t: Term) {
    match t
    case Symbol(_, s) => s == BoolSort
    case BoolValue(_) => true
    case App(op, cs) => BoolNode(op, |cs|) && forall c :: c in cs ==> BoolFormula(c)
    case _ => false
  }

  /** Assignments that agree on the names of a term give it the same truth value. */
  lemma SameNames(env: Env, env': Env, t: Term)
    requires forall n :: n in Names(t) ==> env(n) == env'(n)
    ensures Holds(env, t) == Holds(env', t)
  {
    var m, m' := BoolInterp(env), BoolInterp(env');
    forall s | s in Subterms(t) && s.IsLeaf()
      ensures m.leaf(s) == m'.leaf(s)
    {
      if s.Symbol? {
        assert s.name in Names(t);
      }
    }
    Coincidence(m, m', t);
  }
}
