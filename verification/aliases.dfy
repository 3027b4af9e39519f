/** Booleans as one-bit vectors. Some solvers do not tell the two sorts apart; this module says what
    a term is worth when they are identified, and which terms are well-sorted then. */
module Aliases {
  import opened Terms
  import opened Sorts

  /** The sort with every Boolean sort in it read as the sort of one-bit vectors. */
  function Erase(s: Sort): Sort {
    match s
    case BoolSort => BVSort(1)
    case ArraySort(i, e) => ArraySort(Erase(i), Erase(e))
    case FunctionSort(ds, c) => FunctionSort(seq(|ds|, i requires 0 <= i < |ds| => Erase(ds[i])), Erase(c))
    case _ => s
  }

  function EraseAll(ss: seq<Sort>): (es: seq<Sort>)
    ensures |es| == |ss|
    ensures forall i :: 0 <= i < |ss| ==> es[i] == Erase(ss[i])
  {
    seq(|ss|, i requires 0 <= i < |ss| => Erase(ss[i]))
  }

  predicate IsConnective(p: PrimOp) {
    match p
    case And | Or | Xor | Not | Implies => true
    case _ => false
  }

  /** Operators whose result is Boolean. */
  predicate IsPredicate(p: PrimOp) {
    match p
    case And | Or | Xor | Not | Implies | Equal | Distinct | Lt | Le | Gt | Ge => true
    case BVUlt | BVUle | BVUgt | BVUge | BVSlt | BVSle | BVSgt | BVSge => true
    case _ => false
  }

  /** Sort checking over erased sorts. */
  predicate CheckAliased(op: Op, es: seq<Sort>) {
    if IsConnective(op.prim) then ArityOk(op.prim, |es|) && forall e :: e in es ==> e == BVSort(1)
    else if op.prim == Ite then |es| == 3 && es[0] == BVSort(1) && es[1] == es[2]
    else CheckSorted(op, es)
  }

  function ComputeAliased(op: Op, es: seq<Sort>): Sort
    requires CheckAliased(op, es)
  {
    if IsPredicate(op.prim) then BVSort(1)
    else if op.prim == Ite then es[1]
    else ComputeSort(op, es)
  }

  /** The erased sort of a term all of whose nodes are well-sorted up to aliasing. */
  function AliasedSort(t: Term): Option<Sort> {
    match t
    case Symbol(_, s) => Some(Erase(s))
    case Param(_, s) => Some(Erase(s))
    case BoolValue(_) => Some(BVSort(1))
    case BVValue(w, _) => Some(BVSort(w))
    case ConstArray(e, s) =>
      if s.ArraySort? && AliasedSort(e) == Some(Erase(s.elem)) then Some(Erase(s)) else None
    case App(op, cs) => AliasedSortOfApp(op, seq(|cs|, i requires 0 <= i < |cs| => AliasedSort(cs[i])))
  }

  function AliasedSortOfApp(op: Op, sorts: seq<Option<Sort>>): Option<Sort> {
    if None in sorts then None
    else
      var known := seq(|sorts|, i requires 0 <= i < |sorts| => sorts[i].GetOr(BoolSort));
      if CheckAliased(op, known) then Some(ComputeAliased(op, known)) else None
  }

  /** The strict sorts of terms that have one. */
  ghost predicate HaveSorts(ts: seq<Term>, ss: seq<Sort>) {
    |ts| == |ss| && forall i :: 0 <= i < |ts| ==> SortOf(ts[i]) == Some(ss[i])
  }

  ghost predicate HaveAliasedSorts(ts: seq<Term>, es: seq<Sort>) {
    |ts| == |es| && forall i :: 0 <= i < |ts| ==> AliasedSort(ts[i]) == Some(es[i])
  }

  lemma {:induction false} SortOfNode(op: Op, ts: seq<Term>, ss: seq<Sort>)
    requires HaveSorts(ts, ss)
    ensures SortOf(App(op, ts)) == if CheckSorted(op, ss) then Some(ComputeSort(op, ss)) else None
  {
    var opts := seq(|ts|, i requires 0 <= i < |ts| => SortOf(ts[i]));
    assert forall o :: o in opts ==> o.Some?;
    assert seq(|opts|, i requires 0 <= i < |opts| => opts[i].GetOr(BoolSort)) == ss;
  }

  lemma {:induction false} AliasedSortOfNode(op: Op, ts: seq<Term>, es: seq<Sort>)
    requires HaveAliasedSorts(ts, es)
    ensures AliasedSort(App(op, ts)) == if CheckAliased(op, es) then Some(ComputeAliased(op, es)) else None
  {
    var opts := seq(|ts|, i requires 0 <= i < |ts| => AliasedSort(ts[i]));
    assert forall o :: o in opts ==> o.Some?;
    assert seq(|opts|, i requires 0 <= i < |opts| => opts[i].GetOr(BoolSort)) == es;
  }

  /** The arguments of a well-sorted application are well-sorted. */
  lemma AliasedArguments(op: Op, ts: seq<Term>) returns (es: seq<Sort>)
    requires AliasedSort(App(op, ts)).Some?
    ensures HaveAliasedSorts(ts, es) && CheckAliased(op, es)
    ensures AliasedSort(App(op, ts)) == Some(ComputeAliased(op, es))
  {
    var opts := seq(|ts|, i requires 0 <= i < |ts| => AliasedSort(ts[i]));
    forall i | 0 <= i < |ts|
      ensures AliasedSort(ts[i]).Some?
    {
      assert opts[i] in opts;
    }
    es := seq(|ts|, i requires 0 <= i < |ts| => AliasedSort(ts[i]).GetOr(BoolSort));
    AliasedSortOfNode(op, ts, es);
  }

  lemma StrictArguments(op: Op, ts: seq<Term>) returns (ss: seq<Sort>)
    requires SortOf(App(op, ts)).Some?
    ensures HaveSorts(ts, ss) && CheckSorted(op, ss)
    ensures SortOf(App(op, ts)) == Some(ComputeSort(op, ss))
  {
    var opts := seq(|ts|, i requires 0 <= i < |ts| => SortOf(ts[i]));
    forall i | 0 <= i < |ts|
      ensures SortOf(ts[i]).Some?
    {
      assert opts[i] in opts;
    }
    ss := seq(|ts|, i requires 0 <= i < |ts| => SortOf(ts[i]).GetOr(BoolSort));
    SortOfNode(op, ts, ss);
  }

  /** Sort checking and sort inference commute with erasure. */
  lemma CheckErased(op: Op, ss: seq<Sort>)
    requires CheckSorted(op, ss)
    ensures CheckAliased(op, EraseAll(ss))
    ensures ComputeAliased(op, EraseAll(ss)) == Erase(ComputeSort(op, ss))
  {
    var es := EraseAll(ss);
    forall e | e in es
      ensures exists s :: s in ss && e == Erase(s)
    {
      var i :| 0 <= i < |es| && es[i] == e;
      assert ss[i] in ss;
    }
    if op.prim == Apply {
      assert es[0].domain == EraseAll(ss[0].domain) == EraseAll(ss[1..]) == es[1..];
    } else if op.prim == Ite {
      assert es[0] == Erase(ss[0]) && es[1] == Erase(ss[1]) && es[2] == Erase(ss[2]);
    }
  }

  /** A strictly well-sorted term is well-sorted up to aliasing, at the erased sort. */
  lemma {:induction false} StrictIsAliased(t: Term)
    requires SortOf(t).Some?
    ensures AliasedSort(t) == Some(Erase(SortOf(t).value))
  {
    match t
    case App(op, cs) =>
      var ss := StrictArguments(op, cs);
      forall i | 0 <= i < |cs|
        ensures AliasedSort(cs[i]) == Some(Erase(ss[i]))
      {
        StrictIsAliased(cs[i]);
      }
      AliasedSortOfNode(op, cs, EraseAll(ss));
      CheckErased(op, ss);
    case ConstArray(e, s) =>
      StrictIsAliased(e);
    case _ =>
  }

  // ----- meaning -----

  /** An interpretation, with the values that belong to each sort. */
  datatype Structure<!V> = Structure(m: Interp<V>, has: (Sort, V) -> bool)

  function Bit<V>(st: Structure<V>, b: bool): V {
    st.m.leaf(BVValue(1, if b then 1 else 0))
  }

  ghost predicate AllHave<V>(st: Structure<V>, es: seq<Sort>, vs: seq<V>) {
    |vs| == |es| && forall i :: 0 <= i < |vs| ==> st.has(es[i], vs[i])
  }

  /** Leaves do not depend on how their sort is spelled, and have values of their sort. */
  ghost predicate AliasedLeaves<V>(st: Structure<V>) {
    && (forall n, s, s' :: Erase(s) == Erase(s') ==> st.m.leaf(Symbol(n, s)) == st.m.leaf(Symbol(n, s')))
    && (forall n, s :: st.has(Erase(s), st.m.leaf(Symbol(n, s))))
    && (forall n, s :: st.has(Erase(s), st.m.leaf(Param(n, s))))
    && (forall b :: st.m.leaf(BoolValue(b)) == Bit(st, b))
    && (forall w, n :: st.has(BVSort(w), st.m.leaf(BVValue(w, n))))
  }

  /** So do constant arrays. */
  ghost predicate AliasedArrays<V(!new)>(st: Structure<V>) {
    && (forall s, s', v :: Erase(s) == Erase(s') ==> st.m.constArray(s, v) == st.m.constArray(s', v))
    && (forall s: Sort, v :: s.ArraySort? && st.has(Erase(s.elem), v) ==> st.has(Erase(s), st.m.constArray(s, v)))
  }

  /** Operators without indices that a cast may use. */
  predicate Unindexed(p: PrimOp) {
    match p
    case And | Or | Xor | Not | Implies | Equal | Ite | BVAnd | BVOr | BVXor | BVNot | BVComp | Select |
      Store | Apply => true
    case _ => false
  }

  /** Both operators take two bits to the same value. */
  ghost predicate SameBinary<V>(st: Structure<V>, p: PrimOp, q: PrimOp) {
    forall a, b :: st.m.apply(Op(p, []), [Bit(st, a), Bit(st, b)]) == st.m.apply(Op(q, []), [Bit(st, a), Bit(st, b)])
  }

  ghost predicate SameUnary<V>(st: Structure<V>, p: PrimOp, q: PrimOp) {
    forall a :: st.m.apply(Op(p, []), [Bit(st, a)]) == st.m.apply(Op(q, []), [Bit(st, a)])
  }

  ghost predicate ComparesBits<V>(st: Structure<V>) {
    forall a, b :: st.m.apply(Op(Equal, []), [Bit(st, a), Bit(st, b)]) == Bit(st, a == b)
  }

  /** The two one-bit vectors are the truth values: a connective is the bitwise operator, ... */
  ghost predicate AliasedConnectives<V>(st: Structure<V>) {
    SameBinary(st, And, BVAnd) && SameBinary(st, Or, BVOr) && SameBinary(st, Xor, BVXor) && SameUnary(st, Not, BVNot)
  }

  /** ... and comparing is equality. */
  ghost predicate AliasedEquality<V>(st: Structure<V>) {
    Bit(st, false) != Bit(st, true) && SameBinary(st, Equal, BVComp) && ComparesBits(st)
  }

  ghost predicate IgnoresIndices<V(!new)>(st: Structure<V>) {
    forall op: Op, vs :: Unindexed(op.prim) ==> st.m.apply(op, vs) == st.m.apply(Op(op.prim, []), vs)
  }

  ghost predicate Choosing<V(!new)>(st: Structure<V>) {
    forall a, x, y :: st.m.apply(Op(Ite, []), [Bit(st, a), x, y]) == if a then x else y
  }

  /** Operators give values of their sort. */
  ghost predicate Closed<V(!new)>(st: Structure<V>) {
    forall op, es, vs :: CheckAliased(op, es) && AllHave(st, es, vs) ==>
      st.has(ComputeAliased(op, es), st.m.apply(op, vs))
  }

  /** A structure in which Booleans are the one-bit vectors. All other operators are left open. */
  ghost predicate Aliasing<V(!new)>(st: Structure<V>) {
    && AliasedLeaves(st) && AliasedArrays(st) && AliasedConnectives(st) && AliasedEquality(st)
    && IgnoresIndices(st) && Choosing(st) && Closed(st)
    && forall v :: st.has(BVSort(1), v) ==> v == Bit(st, false) || v == Bit(st, true)
  }

  /** A term that is well-sorted up to aliasing has a value of its sort. */
  lemma {:induction false} ValueHasSort<V(!new)>(st: Structure<V>, t: Term)
    requires Aliasing(st) && AliasedSort(t).Some?
    ensures st.has(AliasedSort(t).value, Eval(st.m, t))
  {
    match t
    case App(op, cs) =>
      var es := AliasedArguments(op, cs);
      forall i | 0 <= i < |cs|
        ensures st.has(es[i], Eval(st.m, cs[i]))
      {
        ValueHasSort(st, cs[i]);
      }
      EvalApp(st.m, op, cs);
      assert AllHave(st, es, EvalAll(st.m, cs));
    case ConstArray(e, s) =>
      ValueHasSort(st, e);
    case _ =>
  }
}
