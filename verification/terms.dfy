/** Sorts, operators, terms and their meaning.
    A term is a value: two terms are equal exactly when they are built alike, which is what
    comparing hash-consed terms gives in the original. */
module Terms {

  datatype Sort =
    | BoolSort
    | IntSort
    | BVSort(width: nat)
    | ArraySort(index: Sort, elem: Sort)
    | FunctionSort(domain: seq<Sort>, codomain: Sort)
    | UninterpretedSort(uname: string)

  datatype PrimOp =
    | And | Or | Xor | Not | Implies | Ite | Equal | Distinct | Apply
    | Plus | Minus | Negate | Mult | Lt | Le | Gt | Ge
    | Concat | Extract | BVNot | BVNeg | BVAnd | BVOr | BVXor | BVNand | BVNor | BVXnor
    | BVAdd | BVSub | BVMul | BVUdiv | BVSdiv | BVUrem | BVSrem | BVSmod | BVShl | BVAshr | BVLshr
    | BVComp | BVUlt | BVUle | BVUgt | BVUge | BVSlt | BVSle | BVSgt | BVSge
    | ZeroExtend | SignExtend | Repeat | RotateLeft | RotateRight
    | Select | Store

  /** An operator: a primitive operator with up to two indices. */
  datatype Op = Op(prim: PrimOp, idx: seq<nat>)

  datatype Term =
    | Symbol(name: string, sort: Sort)
    | Param(name: string, sort: Sort)
    | BoolValue(b: bool)
    | BVValue(width: nat, n: nat)
    | ConstArray(elem: Term, sort: Sort)
    | App(op: Op, children: seq<Term>)
  {
    predicate IsValue() {
      BoolValue? || BVValue? || ConstArray?
    }

    predicate IsSymbolicConst() {
      Symbol? && !sort.FunctionSort?
    }

    /** Neither built by an operator nor a constant array. */
    predicate IsLeaf() {
      !App? && !ConstArray?
    }

    predicate HasOp(p: PrimOp) {
      App? && op.prim == p
    }
  }

  function Children(t: Term): (cs: seq<Term>) {
    match t
    case App(_, cs) => cs
    case ConstArray(e, _) => [e]
    case _ => []
  }

  function Make(p: PrimOp, ts: seq<Term>): Term {
    App(Op(p, []), ts)
  }

  function SetOf(s: seq<Term>): set<Term> {
    set t | t in s
  }

  lemma SetOfSnoc(s: seq<Term>, t: Term)
    ensures SetOf(s + [t]) == SetOf(s) + {t}
  {
  }

  lemma TakeNext<T>(s: seq<T>, i: nat)
    requires i < |s|
    ensures s[..i + 1] == s[..i] + [s[i]]
  {
  }

  lemma TakeAll<T>(s: seq<T>)
    ensures s[..|s|] == s
  {
  }

  lemma SplitLast<T>(s: seq<T>)
    requires s != []
    ensures s == s[..|s| - 1] + [s[|s| - 1]]
  {
  }

  // ----- size -----

  ghost function Size(t: Term): (n: nat)
    ensures n > 0
    decreases t, 1
  {
    match t
    case App(_, cs) => 1 + SumSizes(cs)
    case ConstArray(e, _) => 1 + Size(e)
    case _ => 1
  }

  ghost function SumSizes(ts: seq<Term>): nat
    decreases ts, 0
  {
    if ts == [] then 0 else SumSizes(ts[..|ts| - 1]) + Size(ts[|ts| - 1])
  }

  lemma {:induction false} SumSizesConcat(a: seq<Term>, b: seq<Term>)
    ensures SumSizes(a + b) == SumSizes(a) + SumSizes(b)
    decreases |b|
  {
    if b == [] {
      assert a + b == a;
    } else {
      assert (a + b)[..|a + b| - 1] == a + b[..|b| - 1];
      SumSizesConcat(a, b[..|b| - 1]);
    }
  }

  lemma {:induction false} SizeInSum(ts: seq<Term>, i: nat)
    requires i < |ts|
    ensures Size(ts[i]) <= SumSizes(ts)
    decreases |ts|
  {
    if i < |ts| - 1 {
      SizeInSum(ts[..|ts| - 1], i);
    }
  }

  lemma {:induction false} ChildSmaller(t: Term)
    ensures forall c :: c in Children(t) ==> Size(c) < Size(t)
  {
    forall c | c in Children(t)
      ensures Size(c) < Size(t)
    {
      if t.App? {
        var i :| 0 <= i < |t.children| && t.children[i] == c;
        SizeInSum(t.children, i);
      }
    }
  }

  // ----- subterms -----

  ghost function Subterms(t: Term): (r: set<Term>)
    ensures t in r
  {
    match t
    case App(_, cs) => {t} + (set c, s | c in cs && s in Subterms(c) :: s)
    case ConstArray(e, _) => {t} + Subterms(e)
    case _ => {t}
  }

  lemma {:induction false} ChildSubterms(t: Term)
    ensures forall c :: c in Children(t) ==> Subterms(c) <= Subterms(t)
  {
  }

  lemma {:induction false} SubtermSize(t: Term, s: Term)
    requires s in Subterms(t)
    ensures s == t || Size(s) < Size(t)
  {
    if s != t {
      ChildSmaller(t);
      var c :| c in Children(t) && s in Subterms(c);
      SubtermSize(c, s);
    }
  }

  lemma {:induction false} SubtermsTransitive(t: Term, s: Term)
    requires s in Subterms(t)
    ensures Subterms(s) <= Subterms(t)
    decreases Size(t)
  {
    if s != t {
      ChildSmaller(t);
      var c :| c in Children(t) && s in Subterms(c);
      SubtermsTransitive(c, s);
      ChildSubterms(t);
    }
  }

  /** The names of the symbols in a term. */
  ghost function Names(t: Term): set<string> {
    set s | s in Subterms(t) && s.Symbol? :: s.name
  }

  lemma ChildNames(t: Term)
    ensures forall c :: c in Children(t) ==> Names(c) <= Names(t)
  {
    ChildSubterms(t);
  }

  /** A name of a term that is not a symbol occurs in one of its children. */
  lemma NameInChild(t: Term, n: string)
    requires n in Names(t) && !t.Symbol?
    ensures exists c :: c in Children(t) && n in Names(c)
  {
    var s :| s in Subterms(t) && s.Symbol? && s.name == n;
    if t.App? {
      var c :| c in t.children && s in Subterms(c);
      assert c in Children(t) && n in Names(c);
    } else {
      assert t.elem in Children(t) && n in Names(t.elem);
    }
  }

  // ----- meaning -----

  /** An interpretation with values in V: what the leaves denote and what each operator computes. */
  datatype Interp<!V> = Interp(leaf: Term -> V, constArray: (Sort, V) -> V, apply: (Op, seq<V>) -> V)

  function Eval<V>(m: Interp<V>, t: Term): V {
    match t
    case App(op, cs) => m.apply(op, seq(|cs|, i requires 0 <= i < |cs| => Eval(m, cs[i])))
    case ConstArray(e, s) => m.constArray(s, Eval(m, e))
    case _ => m.leaf(t)
  }

  function EvalAll<V>(m: Interp<V>, ts: seq<Term>): (vs: seq<V>)
    ensures |vs| == |ts|
    ensures forall i :: 0 <= i < |ts| ==> vs[i] == Eval(m, ts[i])
  {
    seq(|ts|, i requires 0 <= i < |ts| => Eval(m, ts[i]))
  }

  lemma {:induction false} EvalApp<V>(m: Interp<V>, op: Op, cs: seq<Term>)
    ensures Eval(m, App(op, cs)) == m.apply(op, EvalAll(m, cs))
  {
    assert EvalAll(m, cs) == seq(|cs|, i requires 0 <= i < |cs| => Eval(m, cs[i]));
  }

  /** Two interpretations with the same operators that agree on the leaves of t. */
  ghost predicate AgreeOn<V>(m: Interp<V>, m': Interp<V>, t: Term) {
    && m.apply == m'.apply
    && m.constArray == m'.constArray
    && forall s :: s in Subterms(t) && s.IsLeaf() ==> m.leaf(s) == m'.leaf(s)
  }

  /** The value of a term depends on its own leaves only. */
  lemma {:induction false} Coincidence<V>(m: Interp<V>, m': Interp<V>, t: Term)
    requires AgreeOn(m, m', t)
    ensures Eval(m, t) == Eval(m', t)
  {
    match t
    case App(op, cs) =>
      forall i | 0 <= i < |cs|
        ensures Eval(m, cs[i]) == Eval(m', cs[i])
      {
        ChildSubterms(t);
        assert cs[i] in Children(t);
        Coincidence(m, m', cs[i]);
      }
      EvalApp(m, op, cs);
      EvalApp(m', op, cs);
      assert EvalAll(m, cs) == EvalAll(m', cs);
    case ConstArray(e, s) =>
      Coincidence(m, m', e);
    case _ =>
  }
}
