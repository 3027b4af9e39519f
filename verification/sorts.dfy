/** Sort checking and sort inference: src/sort_inference.cpp with the arities of src/ops.cpp. */
module Sorts {
  import opened Terms

  datatype Option<+T> = None | Some(value: T) {
    function GetOr(default: T): T {
      if Some? then value else default
    }
  }

  /** The accepted numbers of arguments, as minimum and, unless unbounded, maximum. */
  function Arity(p: PrimOp): (nat, Option<nat>) {
    match p
    case Not | Negate | Extract | BVNot | BVNeg | ZeroExtend | SignExtend | Repeat | RotateLeft | RotateRight =>
      (1, Some(1))
    case Ite | Store => (3, Some(3))
    case Apply => (2, None)
    case _ => (2, Some(2))
  }

  predicate ArityOk(p: PrimOp, n: nat) {
    Arity(p).0 <= n && (Arity(p).1.Some? ==> n <= Arity(p).1.value)
  }

  predicate AllBool(sorts: seq<Sort>) {
    forall s :: s in sorts ==> s == BoolSort
  }

  predicate AllBV(sorts: seq<Sort>) {
    forall s :: s in sorts ==> s.BVSort?
  }

  predicate AllInt(sorts: seq<Sort>) {
    forall s :: s in sorts ==> s == IntSort
  }

  predicate AllEqual(sorts: seq<Sort>) {
    forall s :: s in sorts ==> s == sorts[0]
  }

  predicate EqualBV(sorts: seq<Sort>)
    requires sorts != []
  {
    sorts[0].BVSort? && AllEqual(sorts)
  }

  predicate ApplySorts(sorts: seq<Sort>)
    requires sorts != []
  {
    sorts[0].FunctionSort? && sorts[0].domain == sorts[1..]
  }

  predicate SelectSorts(sorts: seq<Sort>)
    requires |sorts| == 2
  {
    sorts[0].ArraySort? && sorts[1] == sorts[0].index
  }

  predicate StoreSorts(sorts: seq<Sort>)
    requires |sorts| == 3
  {
    sorts[0].ArraySort? && sorts[1] == sorts[0].index && sorts[2] == sorts[0].elem
  }

  /** check_sortedness over sorts. */
  predicate CheckSorted(op: Op, sorts: seq<Sort>) {
    ArityOk(op.prim, |sorts|) &&
    match op.prim
    case And | Or | Xor | Not | Implies => AllBool(sorts)
    case Ite => sorts[0] == BoolSort && sorts[1] == sorts[2]
    case Equal | Distinct => AllEqual(sorts)
    case Apply => ApplySorts(sorts)
    case Plus | Minus | Negate | Mult | Lt | Le | Gt | Ge => AllInt(sorts)
    case Concat | Extract | BVNot | BVNeg | ZeroExtend | SignExtend | Repeat | RotateLeft | RotateRight => AllBV(sorts)
    case Select => SelectSorts(sorts)
    case Store => StoreSorts(sorts)
    case _ => EqualBV(sorts)
  }

  function Idx(op: Op, k: nat): nat {
    if k < |op.idx| then op.idx[k] else 0
  }

  function Width(s: Sort): nat {
    if s.BVSort? then s.width else 0
  }

  /** compute_sort, for the arguments that check_sortedness accepts.
      The width of an extraction is computed in 64 bits. */
  function ComputeSort(op: Op, sorts: seq<Sort>): Sort
    requires CheckSorted(op, sorts)
  {
    match op.prim
    case And | Or | Xor | Not | Implies | Equal | Distinct | Lt | Le | Gt | Ge => BoolSort
    case BVUlt | BVUle | BVUgt | BVUge | BVSlt | BVSle | BVSgt | BVSge => BoolSort
    case Ite => sorts[1]
    case Apply => sorts[0].codomain
    case Select => sorts[0].elem
    case BVComp => BVSort(1)
    case Concat => BVSort(Width(sorts[0]) + Width(sorts[1]))
    case Extract => BVSort((Idx(op, 0) - Idx(op, 1) + 1) % 0x1_0000_0000_0000_0000)
    case ZeroExtend | SignExtend => BVSort(Idx(op, 0) + Width(sorts[0]))
    case Repeat => BVSort(Idx(op, 0) * Width(sorts[0]))
    case _ => sorts[0]
  }

  /** The sort of a term all of whose nodes are well-sorted; None for any other term. */
  function SortOf(t: Term): Option<Sort> {
    match t
    case Symbol(_, s) => Some(s)
    case Param(_, s) => Some(s)
    case BoolValue(_) => Some(BoolSort)
    case BVValue(w, _) => Some(BVSort(w))
    case ConstArray(e, s) => if s.ArraySort? && SortOf(e) == Some(s.elem) then Some(s) else None
    case App(op, cs) => SortOfApp(op, seq(|cs|, i requires 0 <= i < |cs| => SortOf(cs[i])))
  }

  function SortOfApp(op: Op, sorts: seq<Option<Sort>>): Option<Sort> {
    if None in sorts then None
    else
      var known := seq(|sorts|, i requires 0 <= i < |sorts| => sorts[i].GetOr(BoolSort));
      if CheckSorted(op, known) then Some(ComputeSort(op, known)) else None
  }
}
