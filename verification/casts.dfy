/** The casts of src/term_translator.cpp: turning an application that is well-sorted only when Booleans
    and one-bit vectors are identified into one that is well-sorted outright. */
module Casts {
  import opened Terms
  import opened Sorts
  import opened Aliases

  /** get_sort of a term of the target solver. */
  function TargetSort(t: Term): Sort {
    SortOf(t).GetOr(BoolSort)
  }

  function TargetSorts(ts: seq<Term>): (ss: seq<Sort>)
    ensures |ss| == |ts|
    ensures forall i :: 0 <= i < |ts| ==> ss[i] == TargetSort(ts[i])
  {
    seq(|ts|, i requires 0 <= i < |ts| => TargetSort(ts[i]))
  }

  /** The printed value is one of the three spellings the code looks for; the hexadecimal one has width 4. */
  predicate PrintsAs(hex: bool, t: Term, n: nat) {
    t.BVValue? && t.n == n && (t.width == 1 || (t.width == 4 && hex))
  }

  /** cast_value; None stands for its exceptions. */
  function CastValue(hex: bool, t: Term, s: Sort): Option<Term>
    decreases t
  {
    var cur := TargetSort(t);
    if s.BoolSort? && cur.BVSort? then
      if PrintsAs(hex, t, 1) then Some(BoolValue(true))
      else if PrintsAs(hex, t, 0) then Some(BoolValue(false))
      else None
    else if s.BVSort? && cur.BoolSort? then
      if s.width == 1 && t.BoolValue? then Some(BVValue(1, if t.b then 1 else 0)) else None
    else if s.ArraySort? && t.ConstArray? then
      var e := CastValue(hex, t.elem, s.elem);
      if e.Some? then Some(ConstArray(e.value, s)) else None
    else None
  }

  /** cast_term. */
  function CastTerm(hex: bool, t: Term, s: Sort): Option<Term> {
    var cur := TargetSort(t);
    if cur == s then Some(t)
    else if t.IsValue() then CastValue(hex, t, s)
    else if s.BVSort? && cur.BoolSort? then Some(Make(Ite, [t, BVValue(s.width, 1), BVValue(s.width, 0)]))
    else if s.BoolSort? && cur.BVSort? then Some(Make(Equal, [t, BVValue(cur.width, 1)]))
    else None
  }

  /** The bit-vector values that are cast to Booleans: 0 and 1 of width one, and of width four where values are
      printed in hexadecimal. No other comparison of widths is made. */
  lemma {:induction false} CastToBoolExactly(hex: bool, w: nat, n: nat)
    ensures CastValue(hex, BVValue(w, n), BoolSort)
         == if n <= 1 && (w == 1 || (hex && w == 4)) then Some(BoolValue(n == 1)) else None
  {
    assert SortOf(BVValue(w, n)) == Some(BVSort(w));
  }

  /** Booleans are cast to bit-vectors of width one only. */
  lemma {:induction false} CastToBitExactly(hex: bool, b: bool, w: nat)
    ensures CastValue(hex, BoolValue(b), BVSort(w)) == if w == 1 then Some(BVValue(1, if b then 1 else 0)) else None
  {
    assert SortOf(BoolValue(b)) == Some(BoolSort);
  }

  function CastEach(hex: bool, ts: seq<Term>, targets: seq<Sort>): (r: Option<seq<Term>>)
    requires |ts| == |targets|
    ensures r.Some? ==>
      |r.value| == |ts| && forall i :: 0 <= i < |ts| ==> CastTerm(hex, ts[i], targets[i]) == Some(r.value[i])
    ensures r.None? ==> exists i :: 0 <= i < |ts| && CastTerm(hex, ts[i], targets[i]) == None
    decreases |ts|
  {
    if ts == [] then Some([])
    else
      var n := |ts| - 1;
      var front, last := CastEach(hex, ts[..n], targets[..n]), CastTerm(hex, ts[n], targets[n]);
      if front.Some? && last.Some? then Some(front.value + [last.value]) else None
  }

  // ----- cast_op -----

  function BoolOpOf(p: PrimOp): Option<PrimOp> {
    match p
    case BVAnd => Some(And)
    case BVOr => Some(Or)
    case BVXor => Some(Xor)
    case BVNot => Some(Not)
    case BVComp => Some(Equal)
    case _ => None
  }

  function BVOpOf(p: PrimOp): Option<PrimOp> {
    match p
    case And => Some(BVAnd)
    case Or => Some(BVOr)
    case Xor => Some(BVXor)
    case Not => Some(BVNot)
    case Equal => Some(BVComp)
    case _ => None
  }

  predicate IsBVOp(p: PrimOp) {
    match p
    case Concat | Extract | BVNot | BVNeg | BVAnd | BVOr | BVXor | BVNand | BVNor | BVXnor | BVAdd | BVSub |
      BVMul | BVUdiv | BVSdiv | BVUrem | BVSrem | BVSmod | BVShl | BVAshr | BVLshr | BVComp | BVUlt | BVUle |
      BVUgt | BVUge | BVSlt | BVSle | BVSgt | BVSge | ZeroExtend | SignExtend | Repeat | RotateLeft |
      RotateRight => true
    case _ => false
  }

  function AsBV1(s: Sort): Sort {
    if s.BoolSort? then BVSort(1) else s
  }

  /** The operator to use instead, and the sort to cast each argument to. */
  function Plan(op: Op, ss: seq<Sort>): Option<(Op, seq<Sort>)> {
    if BoolOpOf(op.prim).Some? then Some((Op(BoolOpOf(op.prim).value, []), seq(|ss|, _ => BoolSort)))
    else if BVOpOf(op.prim).Some? then Some((Op(BVOpOf(op.prim).value, []), seq(|ss|, _ => BVSort(1))))
    else if IsConnective(op.prim) then Some((Op(op.prim, []), seq(|ss|, _ => BoolSort)))
    else if IsBVOp(op.prim) then Some((op, seq(|ss|, i requires 0 <= i < |ss| => AsBV1(ss[i]))))
    else match op.prim
      case Ite => if |ss| == 3 then Some((Op(Ite, []), [BoolSort, ss[1], ss[1]])) else None
      case Select => if |ss| >= 2 && ss[0].ArraySort? then Some((Op(Select, []), [ss[0], ss[0].index])) else None
      case Store =>
        if |ss| >= 3 && ss[0].ArraySort? then Some((Op(Store, []), [ss[0], ss[0].index, ss[0].elem])) else None
      case Apply =>
        if ss != [] && ss[0].FunctionSort? && |ss| == |ss[0].domain| + 1
          then Some((Op(Apply, []), [ss[0]] + ss[0].domain))
        else None
      case _ => None
  }

  lemma PlanLength(op: Op, ss: seq<Sort>)
    requires Plan(op, ss).Some?
    ensures |Plan(op, ss).value.1| <= |ss|
  {
  }

  /** What cast_op builds. */
  function CastedOp(hex: bool, op: Op, ts: seq<Term>): Option<Term> {
    var plan := Plan(op, TargetSorts(ts));
    if plan.None? then None
    else
      PlanLength(op, TargetSorts(ts));
      var cast := CastEach(hex, ts[..|plan.value.1|], plan.value.1);
      if cast.Some? then Some(App(plan.value.0, cast.value)) else None
  }

  /** A cast that fails makes the whole list fail. */
  lemma {:induction false} CastFails(hex: bool, ts: seq<Term>, targets: seq<Sort>, i: nat)
    requires |ts| == |targets| && i < |ts| && CastTerm(hex, ts[i], targets[i]).None?
    ensures CastEach(hex, ts, targets).None?
  {
  }

  lemma {:induction false} CastNext(hex: bool, ts: seq<Term>, targets: seq<Sort>, i: nat)
    requires |ts| == |targets| && i < |ts|
    requires CastEach(hex, ts[..i], targets[..i]).Some? && CastTerm(hex, ts[i], targets[i]).Some?
    ensures CastEach(hex, ts[..i + 1], targets[..i + 1])
         == Some(CastEach(hex, ts[..i], targets[..i]).value + [CastTerm(hex, ts[i], targets[i]).value])
  {
    assert ts[..i + 1][..i] == ts[..i] && targets[..i + 1][..i] == targets[..i];
  }

  /** A loop of cast_op that casts every term to one sort. */
  method CastAllTo(hex: bool, ts: seq<Term>, s: Sort) returns (r: Option<seq<Term>>)
    ensures r == CastEach(hex, ts, seq(|ts|, _ => s))
  {
    var casted := [];
    ghost var targets := seq(|ts|, _ => s);
    for i := 0 to |ts|
      invariant CastEach(hex, ts[..i], targets[..i]) == Some(casted)
    {
      var c := CastTerm(hex, ts[i], s);
      if c.None? {
        CastFails(hex, ts, targets, i);
        return None;
      }
      CastNext(hex, ts, targets, i);
      casted := casted + [c.value];
    }
    TakeAll(ts);
    TakeAll(targets);
    r := Some(casted);
  }

  /** The loop that turns Boolean arguments into one-bit vectors and keeps the others. */
  method CastBools(hex: bool, ts: seq<Term>) returns (r: Option<seq<Term>>)
    ensures r == CastEach(hex, ts, seq(|ts|, i requires 0 <= i < |ts| => AsBV1(TargetSort(ts[i]))))
  {
    var casted := [];
    ghost var targets := seq(|ts|, i requires 0 <= i < |ts| => AsBV1(TargetSort(ts[i])));
    for i := 0 to |ts|
      invariant CastEach(hex, ts[..i], targets[..i]) == Some(casted)
    {
      var c := Some(ts[i]);
      if TargetSort(ts[i]) == BoolSort {
        c := CastTerm(hex, ts[i], BVSort(1));
      }
      if c.None? {
        CastFails(hex, ts, targets, i);
        return None;
      }
      CastNext(hex, ts, targets, i);
      casted := casted + [c.value];
    }
    TakeAll(ts);
    TakeAll(targets);
    r := Some(casted);
  }

  /** The loop over the arguments of an application: the function itself is not cast. */
  method CastArguments(hex: bool, ts: seq<Term>, domain: seq<Sort>) returns (r: Option<seq<Term>>)
    requires |ts| == |domain| + 1
    ensures r == CastEach(hex, ts, [TargetSort(ts[0])] + domain)
  {
    var casted := [ts[0]];
    ghost var targets := [TargetSort(ts[0])] + domain;
    FirstKept(hex, ts, targets);
    for i := 1 to |ts|
      invariant CastEach(hex, ts[..i], targets[..i]) == Some(casted)
    {
      assert targets[i] == domain[i - 1];
      var c := CastTerm(hex, ts[i], domain[i - 1]);
      if c.None? {
        CastFails(hex, ts, targets, i);
        return None;
      }
      CastNext(hex, ts, targets, i);
      casted := casted + [c.value];
    }
    TakeAll(ts);
    TakeAll(targets);
    r := Some(casted);
  }

  lemma {:induction false} FirstKept(hex: bool, ts: seq<Term>, targets: seq<Sort>)
    requires |ts| == |targets| > 0 && targets[0] == TargetSort(ts[0])
    ensures CastEach(hex, ts[..1], targets[..1]) == Some([ts[0]])
  {
    CastEachOne(hex, ts[0], targets[0]);
    assert ts[..1] == [ts[0]] && targets[..1] == [targets[0]];
  }

  lemma {:induction false} CastEachSnoc(hex: bool, ts: seq<Term>, targets: seq<Sort>, t: Term, s: Sort)
    requires |ts| == |targets|
    ensures CastEach(hex, ts + [t], targets + [s])
         == if CastEach(hex, ts, targets).Some? && CastTerm(hex, t, s).Some?
            then Some(CastEach(hex, ts, targets).value + [CastTerm(hex, t, s).value]) else None
  {
    assert (ts + [t])[..|ts|] == ts && (targets + [s])[..|ts|] == targets;
  }

  lemma {:induction false} CastEachOne(hex: bool, t: Term, s: Sort)
    ensures CastEach(hex, [t], [s]) == if CastTerm(hex, t, s).Some? then Some([CastTerm(hex, t, s).value]) else None
  {
    assert [t][..0] == [] && [s][..0] == [] && CastEach(hex, [], []) == Some([]);
    if CastTerm(hex, t, s).Some? {
      assert [] + [CastTerm(hex, t, s).value] == [CastTerm(hex, t, s).value];
    }
  }

  method CastOp(hex: bool, op: Op, terms: seq<Term>) returns (r: Option<Term>)
    ensures r == CastedOp(hex, op, terms)
  {
    var po := op.prim;
    ghost var sorts := TargetSorts(terms);
    TakeAll(terms);
    if BoolOpOf(po).Some? {
      var casted := CastAllTo(hex, terms, BoolSort);
      r := if casted.Some? then Some(App(Op(BoolOpOf(po).value, []), casted.value)) else None;
    } else if BVOpOf(po).Some? {
      var casted := CastAllTo(hex, terms, BVSort(1));
      r := if casted.Some? then Some(App(Op(BVOpOf(po).value, []), casted.value)) else None;
    } else if IsConnective(po) {
      var casted := CastAllTo(hex, terms, BoolSort);
      r := if casted.Some? then Some(App(Op(po, []), casted.value)) else None;
    } else if IsBVOp(po) {
      var casted := CastBools(hex, terms);
      assert seq(|sorts|, i requires 0 <= i < |sorts| => AsBV1(sorts[i]))
          == seq(|terms|, i requires 0 <= i < |terms| => AsBV1(TargetSort(terms[i])));
      r := if casted.Some? then Some(App(op, casted.value)) else None;
    } else if po == Apply {
      r := CastApply(hex, op, terms);
    } else if po == Ite {
      r := CastIte(hex, op, terms);
    } else if po == Select {
      r := CastSelect(hex, op, terms);
    } else if po == Store {
      r := CastStore(hex, op, terms);
    } else {
      r := None;
    }
  }

  /** A plan for all arguments. */
  lemma {:induction false} CastedWhole(hex: bool, op: Op, ts: seq<Term>)
    requires Plan(op, TargetSorts(ts)).Some? && |Plan(op, TargetSorts(ts)).value.1| == |ts|
    ensures var (op', targets) := Plan(op, TargetSorts(ts)).value;
      CastedOp(hex, op, ts) ==
        if CastEach(hex, ts, targets).Some? then Some(App(op', CastEach(hex, ts, targets).value)) else None
  {
    TakeAll(ts);
  }

  method CastApply(hex: bool, op: Op, terms: seq<Term>) returns (r: Option<Term>)
    requires op.prim == Apply
    ensures r == CastedOp(hex, op, terms)
  {
    var sorts := TargetSorts(terms);
    if |terms| > 0 && sorts[0].FunctionSort? && |terms| == |sorts[0].domain| + 1 {
      CastedWhole(hex, op, terms);
      var casted := CastArguments(hex, terms, sorts[0].domain);
      r := if casted.Some? then Some(App(Op(Apply, []), casted.value)) else None;
    } else {
      r := None;
    }
  }

  lemma {:induction false} CastEachTwo(hex: bool, a: Term, b: Term, r: Sort, s: Sort)
    ensures CastEach(hex, [a, b], [r, s])
         == if CastTerm(hex, a, r).Some? && CastTerm(hex, b, s).Some?
            then Some([CastTerm(hex, a, r).value, CastTerm(hex, b, s).value]) else None
  {
    CastEachOne(hex, a, r);
    CastEachSnoc(hex, [a], [r], b, s);
    assert [a] + [b] == [a, b] && [r] + [s] == [r, s];
    if CastTerm(hex, a, r).Some? && CastTerm(hex, b, s).Some? {
      assert [CastTerm(hex, a, r).value] + [CastTerm(hex, b, s).value]
        == [CastTerm(hex, a, r).value, CastTerm(hex, b, s).value];
    }
  }

  lemma {:induction false} CastEachThree(hex: bool, a: Term, b: Term, c: Term, r: Sort, s: Sort, t: Sort)
    ensures CastEach(hex, [a, b, c], [r, s, t])
         == if CastTerm(hex, a, r).Some? && CastTerm(hex, b, s).Some? && CastTerm(hex, c, t).Some?
            then Some([CastTerm(hex, a, r).value, CastTerm(hex, b, s).value, CastTerm(hex, c, t).value]) else None
  {
    CastEachTwo(hex, a, b, r, s);
    CastEachSnoc(hex, [a, b], [r, s], c, t);
    assert [a, b] + [c] == [a, b, c] && [r, s] + [t] == [r, s, t];
    if CastTerm(hex, a, r).Some? && CastTerm(hex, b, s).Some? && CastTerm(hex, c, t).Some? {
      var x, y, z := CastTerm(hex, a, r).value, CastTerm(hex, b, s).value, CastTerm(hex, c, t).value;
      assert [x, y] + [z] == [x, y, z];
    }
  }

  /** The else branch is cast to the sort of the other branch. */
  method CastIte(hex: bool, op: Op, terms: seq<Term>) returns (r: Option<Term>)
    requires op.prim == Ite
    ensures r == CastedOp(hex, op, terms)
  {
    if |terms| != 3 {
      return None;
    }
    var c, a, b := terms[0], terms[1], terms[2];
    assert terms[..3] == [c, a, b];
    CastEachThree(hex, c, a, b, BoolSort, TargetSort(a), TargetSort(a));
    var cond := CastTerm(hex, c, BoolSort);
    var elseBranch := Some(b);
    if TargetSort(a) != TargetSort(b) {
      elseBranch := CastTerm(hex, b, TargetSort(a));
    }
    r := if cond.Some? && elseBranch.Some? then Some(App(Op(Ite, []), [cond.value, a, elseBranch.value])) else None;
  }

  /** Only the index is cast. */
  method CastSelect(hex: bool, op: Op, terms: seq<Term>) returns (r: Option<Term>)
    requires op.prim == Select
    ensures r == CastedOp(hex, op, terms)
  {
    if |terms| < 2 || !TargetSort(terms[0]).ArraySort? {
      return None;
    }
    var a, i, s := terms[0], terms[1], TargetSort(terms[0]);
    assert terms[..2] == [a, i];
    CastEachTwo(hex, a, i, s, s.index);
    var index := CastTerm(hex, i, s.index);
    r := if index.Some? then Some(App(Op(Select, []), [a, index.value])) else None;
  }

  /** The index and the element are cast. */
  method CastStore(hex: bool, op: Op, terms: seq<Term>) returns (r: Option<Term>)
    requires op.prim == Store
    ensures r == CastedOp(hex, op, terms)
  {
    if |terms| < 3 || !TargetSort(terms[0]).ArraySort? {
      return None;
    }
    var a, i, e, s := terms[0], terms[1], terms[2], TargetSort(terms[0]);
    assert terms[..3] == [a, i, e];
    CastEachThree(hex, a, i, e, s, s.index, s.elem);
    var index, elem := CastTerm(hex, i, s.index), CastTerm(hex, e, s.elem);
    r := if index.Some? && elem.Some? then Some(App(Op(Store, []), [a, index.value, elem.value])) else None;
  }

  // ----- casts keep the meaning -----

  /** A value cast between aliased sorts is the same value. */
  lemma {:induction false} CastValueMeans<V(!new)>(st: Structure<V>, hex: bool, t: Term, s: Sort)
    requires Aliasing(st) && SortOf(t).Some? && Erase(SortOf(t).value) == Erase(s)
    requires CastValue(hex, t, s).Some?
    ensures SortOf(CastValue(hex, t, s).value) == Some(s)
    ensures Eval(st.m, CastValue(hex, t, s).value) == Eval(st.m, t)
    decreases t
  {
    if s.ArraySort? && t.ConstArray? {
      CastValueMeans(st, hex, t.elem, s.elem);
    }
  }

  /** Choosing between the bits by a value of width one. */
  lemma ChoiceOfBits<V(!new)>(st: Structure<V>, v: V)
    requires Aliasing(st) && st.has(BVSort(1), v)
    ensures st.m.apply(Op(Ite, []), [v, Bit(st, true), Bit(st, false)]) == v
  {
  }

  lemma {:induction false} ChoiceSorted(t: Term)
    requires SortOf(t) == Some(BoolSort)
    ensures SortOf(Make(Ite, [t, BVValue(1, 1), BVValue(1, 0)])) == Some(BVSort(1))
  {
    SortOfNode(Op(Ite, []), [t, BVValue(1, 1), BVValue(1, 0)], [BoolSort, BVSort(1), BVSort(1)]);
  }

  /** A Boolean as a one-bit vector. */
  lemma {:induction false} CastToBitMeans<V(!new)>(st: Structure<V>, t: Term)
    requires Aliasing(st) && SortOf(t) == Some(BoolSort)
    ensures var r := Make(Ite, [t, BVValue(1, 1), BVValue(1, 0)]);
      SortOf(r) == Some(BVSort(1)) && Eval(st.m, r) == Eval(st.m, t)
  {
    StrictIsAliased(t);
    ValueHasSort(st, t);
    var ts := [t, BVValue(1, 1), BVValue(1, 0)];
    ChoiceSorted(t);
    EvalApp(st.m, Op(Ite, []), ts);
    ChoiceOfBits(st, Eval(st.m, t));
    assert EvalAll(st.m, ts) == [Eval(st.m, t), Bit(st, true), Bit(st, false)];
  }

  /** A one-bit vector as a Boolean. */
  lemma {:induction false} CastToBoolMeans<V(!new)>(st: Structure<V>, t: Term)
    requires Aliasing(st) && SortOf(t) == Some(BVSort(1))
    ensures var r := Make(Equal, [t, BVValue(1, 1)]);
      SortOf(r) == Some(BoolSort) && Eval(st.m, r) == Eval(st.m, t)
  {
    StrictIsAliased(t);
    ValueHasSort(st, t);
    var ts := [t, BVValue(1, 1)];
    SortOfNode(Op(Equal, []), ts, [BVSort(1), BVSort(1)]);
    EvalApp(st.m, Op(Equal, []), ts);
    assert EvalAll(st.m, ts) == [Eval(st.m, t), Bit(st, true)];
  }

  /** A term cast between aliased sorts has the wanted sort and the same value. */
  lemma {:induction false} CastTermMeans<V(!new)>(st: Structure<V>, hex: bool, t: Term, s: Sort)
    requires Aliasing(st) && SortOf(t).Some? && Erase(SortOf(t).value) == Erase(s)
    requires CastTerm(hex, t, s).Some?
    ensures SortOf(CastTerm(hex, t, s).value) == Some(s)
    ensures Eval(st.m, CastTerm(hex, t, s).value) == Eval(st.m, t)
  {
    if SortOf(t).value != s {
      if t.IsValue() {
        CastValueMeans(st, hex, t, s);
      } else {
        var cur := SortOf(t).value;
        if cur == BoolSort && s.BVSort? {
          CastToBitMeans(st, t);
        } else if cur.BVSort? && s == BoolSort {
          CastToBoolMeans(st, t);
        }
      }
    }
  }

  // ----- the plan of cast_op -----

  lemma {:induction false} ErasedScalar(s: Sort)
    requires Erase(s).BVSort?
    ensures s == Erase(s) || (s == BoolSort && Erase(s) == BVSort(1))
  {
  }

  lemma AliasedBV(op: Op, es: seq<Sort>)
    requires IsBVOp(op.prim) && CheckAliased(op, es)
    ensures es != [] && AllBV(es)
    ensures BoolOpOf(op.prim).Some? ==> AllEqual(es)
  {
  }

  lemma BitwiseSorted(op: Op, ss: seq<Sort>)
    requires BoolOpOf(op.prim).Some? && ArityOk(op.prim, |ss|) && AllBV(ss) && AllEqual(ss)
    ensures CheckSorted(op, ss)
  {
  }

  /** Bit-vector operators: at most the width-one arguments need a cast. */
  lemma BVArguments(op: Op, ss: seq<Sort>)
    requires IsBVOp(op.prim) && CheckAliased(op, EraseAll(ss))
    ensures forall i :: 0 <= i < |ss| ==> AsBV1(ss[i]) == EraseAll(ss)[i]
  {
    var es := EraseAll(ss);
    AliasedBV(op, es);
    forall i | 0 <= i < |ss|
      ensures AsBV1(ss[i]) == es[i]
    {
      assert es[i] in es;
      ErasedScalar(ss[i]);
    }
  }

  lemma BitwiseArguments(op: Op, ss: seq<Sort>)
    requires BoolOpOf(op.prim).Some? && IsBVOp(op.prim) && !CheckSorted(op, ss) && CheckAliased(op, EraseAll(ss))
    ensures forall i :: 0 <= i < |ss| ==> EraseAll(ss)[i] == BVSort(1)
  {
    var es := EraseAll(ss);
    AliasedBV(op, es);
    assert ArityOk(op.prim, |ss|);
    BVArguments(op, ss);
    forall i | 0 <= i < |ss|
      ensures es[i] == es[0]
    {
      assert es[i] in es;
    }
    if es[0] != BVSort(1) && ss == es {
      BitwiseSorted(op, ss);
    }
  }

  /** Connectives and Equal: when some argument needs a cast, all arguments have width one or are compound. */
  lemma BooleanArguments(op: Op, ss: seq<Sort>)
    requires IsConnective(op.prim) && CheckAliased(op, EraseAll(ss))
    ensures forall i :: 0 <= i < |ss| ==> EraseAll(ss)[i] == BVSort(1)
  {
    forall i | 0 <= i < |ss|
      ensures EraseAll(ss)[i] == BVSort(1)
    {
      assert EraseAll(ss)[i] in EraseAll(ss);
    }
  }

  /** The plan keeps the erased sorts and is strictly well-sorted. */
  ghost predicate GoodPlan(op: Op, ss: seq<Sort>, plan: (Op, seq<Sort>)) {
    && EraseAll(plan.1) == EraseAll(ss) && CheckAliased(op, EraseAll(ss))
    && CheckSorted(plan.0, plan.1)
    && ComputeAliased(op, EraseAll(ss)) == Erase(ComputeSort(plan.0, plan.1))
  }

  /** An operator and the sorts of its arguments that need a cast. */
  ghost predicate NeedsCast(op: Op, ss: seq<Sort>) {
    !CheckSorted(op, ss) && CheckAliased(op, EraseAll(ss))
  }

  lemma {:induction false} UniformTargets(ss: seq<Sort>, s: Sort)
    requires Erase(s) == BVSort(1) && forall i :: 0 <= i < |ss| ==> EraseAll(ss)[i] == BVSort(1)
    ensures EraseAll(seq(|ss|, _ => s)) == EraseAll(ss)
  {
  }

  /** Operators that take arguments of one sort of width one, and give such a result. */
  lemma UniformSorted(op: Op, n: nat, s: Sort)
    requires ArityOk(op.prim, n)
    requires ((IsConnective(op.prim) || op.prim == Equal) && s == BoolSort)
      || (BoolOpOf(op.prim).Some? && s == BVSort(1))
    ensures var targets := seq(n, _ => s); CheckSorted(op, targets) && Erase(ComputeSort(op, targets)) == BVSort(1)
  {
  }

  lemma UniformPlan(op: Op, ss: seq<Sort>, op': Op, s: Sort)
    requires Erase(s) == BVSort(1) && forall i :: 0 <= i < |ss| ==> EraseAll(ss)[i] == BVSort(1)
    requires CheckAliased(op, EraseAll(ss)) && ComputeAliased(op, EraseAll(ss)) == BVSort(1)
    requires var targets := seq(|ss|, _ => s);
      CheckSorted(op', targets) && Erase(ComputeSort(op', targets)) == BVSort(1)
    ensures GoodPlan(op, ss, (op', seq(|ss|, _ => s)))
  {
    UniformTargets(ss, s);
  }

  lemma PlanBitwise(op: Op, ss: seq<Sort>)
    requires NeedsCast(op, ss) && BoolOpOf(op.prim).Some?
    ensures GoodPlan(op, ss, Plan(op, ss).value)
  {
    BitwiseArguments(op, ss);
    var op' := Op(BoolOpOf(op.prim).value, []);
    UniformSorted(op', |ss|, BoolSort);
    UniformPlan(op, ss, op', BoolSort);
  }

  lemma PlanConnective(op: Op, ss: seq<Sort>)
    requires NeedsCast(op, ss) && IsConnective(op.prim)
    ensures GoodPlan(op, ss, Plan(op, ss).value)
  {
    BooleanArguments(op, ss);
    if BVOpOf(op.prim).Some? {
      var op' := Op(BVOpOf(op.prim).value, []);
      UniformSorted(op', |ss|, BVSort(1));
      UniformPlan(op, ss, op', BVSort(1));
    } else {
      var op' := Op(op.prim, []);
      UniformSorted(op', |ss|, BoolSort);
      UniformPlan(op, ss, op', BoolSort);
    }
  }

  /** Comparing terms of width one; comparing compound terms of different sorts is refused later. */
  lemma PlanEqual(op: Op, ss: seq<Sort>)
    requires NeedsCast(op, ss) && op.prim == Equal && Erase(ss[0]) == BVSort(1)
    ensures GoodPlan(op, ss, Plan(op, ss).value)
  {
    var es := EraseAll(ss);
    forall i | 0 <= i < |ss|
      ensures es[i] == BVSort(1)
    {
      assert es[i] in es;
    }
    UniformSorted(Op(BVComp, []), |ss|, BVSort(1));
    UniformPlan(op, ss, Op(BVComp, []), BVSort(1));
  }

  lemma PlanErased(op: Op, ss: seq<Sort>)
    requires IsBVOp(op.prim) && CheckAliased(op, EraseAll(ss)) && EraseAll(EraseAll(ss)) == EraseAll(ss)
    ensures GoodPlan(op, ss, (op, EraseAll(ss)))
  {
    CheckErased(op, EraseAll(ss));
  }

  lemma PlanBV(op: Op, ss: seq<Sort>)
    requires NeedsCast(op, ss) && IsBVOp(op.prim) && BoolOpOf(op.prim).None?
    ensures Plan(op, ss) == Some((op, EraseAll(ss))) && GoodPlan(op, ss, (op, EraseAll(ss)))
  {
    BVArguments(op, ss);
    var es := EraseAll(ss);
    assert seq(|ss|, i requires 0 <= i < |ss| => AsBV1(ss[i])) == es;
    assert EraseAll(es) == es;
    PlanErased(op, ss);
  }

  lemma PlanIte(op: Op, ss: seq<Sort>)
    requires NeedsCast(op, ss) && op.prim == Ite
    ensures Plan(op, ss).Some? && GoodPlan(op, ss, Plan(op, ss).value)
  {
    var es := EraseAll(ss);
    assert es[0] == Erase(ss[0]) && es[1] == Erase(ss[1]) && es[2] == Erase(ss[2]);
    EraseThree(BoolSort, ss[1], ss[1]);
    assert es == [es[0], es[1], es[2]];
  }

  lemma {:induction false} EraseThree(a: Sort, b: Sort, c: Sort)
    ensures EraseAll([a, b, c]) == [Erase(a), Erase(b), Erase(c)]
  {
  }

  lemma PlanSelect(op: Op, ss: seq<Sort>)
    requires NeedsCast(op, ss) && op.prim == Select
    ensures Plan(op, ss).Some? && GoodPlan(op, ss, Plan(op, ss).value)
  {
    var es := EraseAll(ss);
    assert |ss| == 2 && es[0] == Erase(ss[0]) && es[1] == Erase(ss[1]);
    assert EraseAll([ss[0], ss[0].index]) == [es[0], es[1]] == es;
  }

  lemma StoreSorted(op: Op, s: Sort)
    requires s.ArraySort? && op.prim == Store
    ensures CheckSorted(op, [s, s.index, s.elem]) && ComputeSort(op, [s, s.index, s.elem]) == s
    ensures CheckAliased(op, [s, s.index, s.elem]) && ComputeAliased(op, [s, s.index, s.elem]) == s
  {
  }

  lemma StoreErased(op: Op, es: seq<Sort>)
    requires op.prim == Store && CheckAliased(op, es)
    ensures |es| == 3 && es[0].ArraySort? && es == [es[0], es[0].index, es[0].elem]
  {
  }

  lemma PlanStore(op: Op, ss: seq<Sort>)
    requires NeedsCast(op, ss) && op.prim == Store
    ensures Plan(op, ss).Some? && GoodPlan(op, ss, Plan(op, ss).value)
  {
    var es := EraseAll(ss);
    StoreErased(op, es);
    assert es[0] == Erase(ss[0]);
    EraseThree(ss[0], ss[0].index, ss[0].elem);
    StoreSorted(op, es[0]);
    StoreSorted(Op(Store, []), ss[0]);
  }

  lemma ApplySorted(op: Op, f: Sort)
    requires f.FunctionSort? && f.domain != [] && op.prim == Apply
    ensures CheckSorted(op, [f] + f.domain) && ComputeSort(op, [f] + f.domain) == f.codomain
    ensures CheckAliased(op, [f] + f.domain) && ComputeAliased(op, [f] + f.domain) == f.codomain
  {
    assert ([f] + f.domain)[1..] == f.domain;
  }

  lemma ApplyErased(op: Op, es: seq<Sort>)
    requires op.prim == Apply && CheckAliased(op, es)
    ensures |es| >= 2 && es[0].FunctionSort? && es == [es[0]] + es[0].domain
  {
    assert es == [es[0]] + es[1..];
  }

  lemma {:induction false} EraseFunction(f: Sort)
    requires f.FunctionSort?
    ensures |Erase(f).domain| == |f.domain| && Erase(f).codomain == Erase(f.codomain)
    ensures EraseAll([f] + f.domain) == [Erase(f)] + Erase(f).domain
  {
  }

  lemma PlanApply(op: Op, ss: seq<Sort>)
    requires NeedsCast(op, ss) && op.prim == Apply
    ensures Plan(op, ss).Some? && GoodPlan(op, ss, Plan(op, ss).value)
  {
    var es := EraseAll(ss);
    ApplyErased(op, es);
    assert es[0] == Erase(ss[0]) && |ss| == |es|;
    EraseFunction(ss[0]);
    ApplySorted(op, es[0]);
    ApplySorted(Op(Apply, []), ss[0]);
  }

  // ----- cast_op keeps the meaning -----

  /** The terms, cast to sorts that erase to the same, have these sorts and keep their values. */
  lemma {:induction false} CastEachMeans<V(!new)>(st: Structure<V>, hex: bool, ts: seq<Term>, ss: seq<Sort>,
                                           targets: seq<Sort>)
    requires Aliasing(st) && HaveSorts(ts, ss) && |targets| == |ts| && EraseAll(targets) == EraseAll(ss)
    requires CastEach(hex, ts, targets).Some?
    ensures HaveSorts(CastEach(hex, ts, targets).value, targets)
    ensures EvalAll(st.m, CastEach(hex, ts, targets).value) == EvalAll(st.m, ts)
  {
    forall i | 0 <= i < |ts|
      ensures SortOf(CastEach(hex, ts, targets).value[i]) == Some(targets[i])
      ensures Eval(st.m, CastEach(hex, ts, targets).value[i]) == Eval(st.m, ts[i])
    {
      assert EraseAll(ss)[i] == EraseAll(targets)[i];
      CastTermMeans(st, hex, ts[i], targets[i]);
    }
  }

  ghost predicate IsBit<V>(st: Structure<V>, v: V) {
    v == Bit(st, false) || v == Bit(st, true)
  }

  lemma AllBits<V(!new)>(st: Structure<V>, es: seq<Sort>, vs: seq<V>)
    requires Aliasing(st) && AllHave(st, es, vs) && forall e :: e in es ==> e == BVSort(1)
    ensures forall v :: v in vs ==> IsBit(st, v)
  {
    forall i | 0 <= i < |vs|
      ensures IsBit(st, vs[i])
    {
      assert es[i] in es && st.has(es[i], vs[i]);
    }
  }

  lemma BinaryAgree<V>(st: Structure<V>, p: PrimOp, q: PrimOp, vs: seq<V>)
    requires SameBinary(st, p, q) && |vs| == 2 && IsBit(st, vs[0]) && IsBit(st, vs[1])
    ensures st.m.apply(Op(p, []), vs) == st.m.apply(Op(q, []), vs)
  {
    var a, b := vs[0] == Bit(st, true), vs[1] == Bit(st, true);
    assert vs == [Bit(st, a), Bit(st, b)];
  }

  lemma UnaryAgree<V>(st: Structure<V>, p: PrimOp, q: PrimOp, vs: seq<V>)
    requires SameUnary(st, p, q) && |vs| == 1 && IsBit(st, vs[0])
    ensures st.m.apply(Op(p, []), vs) == st.m.apply(Op(q, []), vs)
  {
    assert vs == [Bit(st, vs[0] == Bit(st, true))];
  }

  /** On values of width one the exchanged operators agree. */
  lemma ExchangedAgree<V(!new)>(st: Structure<V>, op: Op, p: PrimOp, es: seq<Sort>, vs: seq<V>)
    requires Aliasing(st) && AllHave(st, es, vs) && CheckAliased(op, es) && forall e :: e in es ==> e == BVSort(1)
    requires BoolOpOf(op.prim) == Some(p) || BVOpOf(op.prim) == Some(p)
    ensures st.m.apply(op, vs) == st.m.apply(Op(p, []), vs)
  {
    AllBits(st, es, vs);
    assert st.m.apply(op, vs) == st.m.apply(Op(op.prim, []), vs);
    match op.prim
    case And | BVAnd => BinaryAgree(st, And, BVAnd, vs);
    case Or | BVOr => BinaryAgree(st, Or, BVOr, vs);
    case Xor | BVXor => BinaryAgree(st, Xor, BVXor, vs);
    case Equal | BVComp => BinaryAgree(st, Equal, BVComp, vs);
    case Not | BVNot => UnaryAgree(st, Not, BVNot, vs);
    case _ =>
  }

  lemma EqualArguments(op: Op, ss: seq<Sort>)
    requires op.prim == Equal && CheckAliased(op, EraseAll(ss)) && Erase(ss[0]) == BVSort(1)
    ensures forall e :: e in EraseAll(ss) ==> e == BVSort(1)
  {
  }

  /** Every plan is good, but for a comparison of compound terms. */
  lemma PlanGood(op: Op, ss: seq<Sort>)
    requires NeedsCast(op, ss) && Plan(op, ss).Some?
    requires op.prim == Equal ==> Erase(ss[0]) == BVSort(1)
    ensures GoodPlan(op, ss, Plan(op, ss).value)
  {
    if BoolOpOf(op.prim).Some? {
      PlanBitwise(op, ss);
    } else if op.prim == Equal {
      PlanEqual(op, ss);
    } else if IsConnective(op.prim) {
      PlanConnective(op, ss);
    } else if IsBVOp(op.prim) {
      PlanBV(op, ss);
    } else if op.prim == Ite {
      PlanIte(op, ss);
    } else if op.prim == Apply {
      PlanApply(op, ss);
    } else if op.prim == Select {
      PlanSelect(op, ss);
    } else {
      PlanStore(op, ss);
    }
  }

  /** Arguments of operators that are exchanged have width one. */
  lemma ExchangedArguments(op: Op, ss: seq<Sort>)
    requires NeedsCast(op, ss) && (BoolOpOf(op.prim).Some? || BVOpOf(op.prim).Some?)
    requires op.prim == Equal ==> Erase(ss[0]) == BVSort(1)
    ensures forall e :: e in EraseAll(ss) ==> e == BVSort(1)
  {
    if BoolOpOf(op.prim).Some? {
      BitwiseArguments(op, ss);
    } else if op.prim == Equal {
      EqualArguments(op, ss);
    } else {
      BooleanArguments(op, ss);
    }
  }

  /** The planned operator agrees with the one it replaces. */
  lemma PlanMeans<V(!new)>(st: Structure<V>, op: Op, ss: seq<Sort>, vs: seq<V>)
    requires Aliasing(st) && NeedsCast(op, ss) && AllHave(st, EraseAll(ss), vs) && Plan(op, ss).Some?
    requires op.prim == Equal ==> Erase(ss[0]) == BVSort(1)
    ensures st.m.apply(Plan(op, ss).value.0, vs) == st.m.apply(op, vs)
  {
    if BoolOpOf(op.prim).Some? {
      ExchangedArguments(op, ss);
      ExchangedAgree(st, op, BoolOpOf(op.prim).value, EraseAll(ss), vs);
    } else if BVOpOf(op.prim).Some? {
      ExchangedArguments(op, ss);
      ExchangedAgree(st, op, BVOpOf(op.prim).value, EraseAll(ss), vs);
    }
  }

  /** Terms to compare that are not of width one cannot be cast. */
  lemma CompoundNotCompared(hex: bool, op: Op, ts: seq<Term>, ss: seq<Sort>)
    requires HaveSorts(ts, ss) && op.prim == Equal && NeedsCast(op, ss) && Erase(ss[0]) != BVSort(1)
    ensures CastedOp(hex, op, ts).None?
  {
    assert TargetSorts(ts) == ss;
    if Erase(ss[0]).BVSort? {
      WideEqualSorted(op, ss);
    } else {
      TakeAll(ts);
      assert CastTerm(hex, ts[0], BVSort(1)).None?;
    }
  }

  lemma WideEqualSorted(op: Op, ss: seq<Sort>)
    requires op.prim == Equal && CheckAliased(op, EraseAll(ss))
    requires Erase(ss[0]).BVSort? && Erase(ss[0]) != BVSort(1)
    ensures CheckSorted(op, ss)
  {
    var es := EraseAll(ss);
    assert es[0] in es && es[1] in es && es[0] == es[1];
    ErasedScalar(ss[0]);
    ErasedScalar(ss[1]);
    assert ss == [es[0], es[0]];
  }

  /** What cast_op returns is strictly well-sorted, has the expected sort up to aliasing,
      and the value of the application it stands for. */
  lemma CastOpMeans<V(!new)>(st: Structure<V>, hex: bool, op: Op, ts: seq<Term>, ss: seq<Sort>)
    requires Aliasing(st) && HaveSorts(ts, ss) && NeedsCast(op, ss)
    requires CastedOp(hex, op, ts).Some?
    ensures var r := CastedOp(hex, op, ts).value;
      && SortOf(r).Some? && Erase(SortOf(r).value) == ComputeAliased(op, EraseAll(ss))
      && Eval(st.m, r) == st.m.apply(op, EvalAll(st.m, ts))
  {
    assert TargetSorts(ts) == ss;
    if op.prim == Equal && Erase(ss[0]) != BVSort(1) {
      CompoundNotCompared(hex, op, ts, ss);
    } else {
      forall i | 0 <= i < |ts|
        ensures st.has(EraseAll(ss)[i], Eval(st.m, ts[i]))
      {
        StrictIsAliased(ts[i]);
        ValueHasSort(st, ts[i]);
      }
      assert AllHave(st, EraseAll(ss), EvalAll(st.m, ts));
      PlanGood(op, ss);
      PlanMeans(st, op, ss, EvalAll(st.m, ts));
      var plan := Plan(op, ss).value;
      assert |plan.1| == |EraseAll(plan.1)| == |ts| && ts[..|plan.1|] == ts;
      CastEachMeans(st, hex, ts, ss, plan.1);
      var cast := CastEach(hex, ts, plan.1).value;
      SortOfNode(plan.0, cast, plan.1);
      EvalApp(st.m, plan.0, cast);
    }
  }

  predicate OnBooleans(p: PrimOp) {
    match p
    case And | Or | Xor | Not | Equal => true
    case _ => false
  }

  predicate OnBits(p: PrimOp) {
    match p
    case BVAnd | BVOr | BVXor | BVNot | BVComp => true
    case _ => false
  }

  /** The operators that are exchanged for each other. */
  lemma ExchangedBack(p: PrimOp, q: PrimOp)
    ensures BVOpOf(p) == Some(q) <==> BoolOpOf(q) == Some(p)
    ensures BVOpOf(p).Some? <==> OnBooleans(p)
    ensures BoolOpOf(q).Some? <==> OnBits(q)
  {
  }

  /** A cast changes sides: what was to be a Boolean becomes a bit, and what was to be a bit becomes a Boolean; only an
      implication stays. */
  lemma {:induction false} CastOpSide<V(!new)>(st: Structure<V>, hex: bool, op: Op, ts: seq<Term>, ss: seq<Sort>)
    requires Aliasing(st) && HaveSorts(ts, ss) && NeedsCast(op, ss) && CastedOp(hex, op, ts).Some?
    ensures var r := CastedOp(hex, op, ts).value;
      && (OnBooleans(op.prim) ==> SortOf(r) == Some(BVSort(1)))
      && (OnBits(op.prim) || op.prim == Implies ==> SortOf(r) == Some(BoolSort))
  {
    var r := CastedOp(hex, op, ts).value;
    CastOpMeans(st, hex, op, ts, ss);
    var ss' := StrictArguments(r.op, r.children);
    ExchangedBack(op.prim, r.op.prim);
    ExchangedBack(r.op.prim, op.prim);
    if OnBooleans(op.prim) {
      assert OnBits(r.op.prim) && ss'[0].BVSort?;
      assert ComputeAliased(op, EraseAll(ss)) == BVSort(1);
    }
  }

  /** The first branch of a conditional is kept, ... */
  lemma {:induction false} CastIteKeeps(hex: bool, op: Op, ts: seq<Term>)
    requires op.prim == Ite && CastedOp(hex, op, ts).Some?
    ensures var r := CastedOp(hex, op, ts).value;
      |ts| == 3 && r.op == Op(Ite, []) && |r.children| == 3 && r.children[1] == ts[1]
  {
    var ss := TargetSorts(ts);
    var targets := Plan(op, ss).value.1;
    assert targets == [BoolSort, ss[1], ss[1]] && ts[..3] == ts;
    assert CastTerm(hex, ts[1], targets[1]) == Some(ts[1]);
  }

  /** ... and so is the array or the function. */
  lemma {:induction false} CastFirstKept(hex: bool, op: Op, ts: seq<Term>)
    requires op.prim in {Select, Store, Apply} && CastedOp(hex, op, ts).Some?
    ensures var r := CastedOp(hex, op, ts).value;
      ts != [] && r.op == Op(op.prim, []) && r.children != [] && r.children[0] == ts[0]
  {
    var ss := TargetSorts(ts);
    var targets := Plan(op, ss).value.1;
    PlanLength(op, ss);
    assert targets[0] == ss[0] && ts[..|targets|][0] == ts[0];
    assert CastTerm(hex, ts[0], targets[0]) == Some(ts[0]);
  }

  // ----- when cast_op refuses -----

  /** The one-bit values are 0 and 1. */
  predicate GoodValue(t: Term) {
    t.BVValue? && t.width == 1 ==> t.n <= 1
  }

  predicate IsIntegerOp(p: PrimOp) {
    match p
    case Plus | Minus | Negate | Mult | Lt | Le | Gt | Ge => true
    case _ => false
  }

  lemma IntegerSorted(op: Op, ss: seq<Sort>)
    requires CheckAliased(op, EraseAll(ss)) && IsIntegerOp(op.prim)
    ensures CheckSorted(op, ss)
  {
    var es := EraseAll(ss);
    forall i | 0 <= i < |ss|
      ensures ss[i] == IntSort
    {
      assert es[i] in es;
      assert Erase(ss[i]) == IntSort;
    }
  }

  /** Integer operators never need a cast. */
  lemma UnplannedOperators(op: Op, ss: seq<Sort>)
    requires NeedsCast(op, ss) && Plan(op, ss).None?
    ensures op.prim == Distinct
  {
    match op.prim
    case Plus | Minus | Negate | Mult | Lt | Le | Gt | Ge => IntegerSorted(op, ss);
    case Ite => PlanIte(op, ss);
    case Select => PlanSelect(op, ss);
    case Store => PlanStore(op, ss);
    case Apply => PlanApply(op, ss);
    case _ =>
  }

  /** Constant arrays hold values, and one-bit values are 0 and 1. */
  predicate GoodElement(t: Term)
    decreases t
  {
    GoodValue(t) && (t.ConstArray? ==> t.elem.IsValue() && GoodElement(t.elem))
  }

  /** Casting a constant array changes its innermost element from a Boolean to a bit or back. */
  predicate ElementChanges(t: Term, s: Sort)
    decreases t
  {
    if t.ConstArray? && s.ArraySort? then ElementChanges(t.elem, s.elem)
    else (TargetSort(t) == BoolSort) != (s == BoolSort)
  }

  /** A term of another compound sort than the wanted one, and not a constant array of Booleans or bits. */
  predicate CannotCast(t: Term, s: Sort) {
    TargetSort(t) != s && Erase(s) != BVSort(1) && !(t.ConstArray? && ElementChanges(t, s))
  }

  lemma {:induction false} CastValueRefuses(hex: bool, t: Term, s: Sort)
    requires SortOf(t).Some? && Erase(SortOf(t).value) == Erase(s) && t.IsValue() && GoodElement(t)
    ensures CastValue(hex, t, s).Some? <==> ElementChanges(t, s)
    decreases t
  {
    if t.ConstArray? {
      CastValueRefuses(hex, t.elem, s.elem);
    }
  }

  lemma {:induction false} CastTermRefuses(hex: bool, t: Term, s: Sort)
    requires SortOf(t).Some? && Erase(SortOf(t).value) == Erase(s) && GoodElement(t)
    ensures CastTerm(hex, t, s).None? <==> CannotCast(t, s)
  {
    if TargetSort(t) != s && t.IsValue() {
      CastValueRefuses(hex, t, s);
    }
  }

  /** The reasons for which a cast is refused: Distinct, a comparison of compound terms of different sorts, and an
      argument that would have to get another compound sort. */
  ghost predicate RefusesCast(op: Op, ts: seq<Term>, ss: seq<Sort>) {
    || op.prim == Distinct
    || (op.prim == Equal && ss != [] && Erase(ss[0]) != BVSort(1))
    || (Plan(op, ss).Some? &&
        exists i :: 0 <= i < |ts| && i < |Plan(op, ss).value.1| && CannotCast(ts[i], Plan(op, ss).value.1[i]))
  }

  lemma CastOpRefusesExactly(hex: bool, op: Op, ts: seq<Term>, ss: seq<Sort>)
    requires HaveSorts(ts, ss) && NeedsCast(op, ss) && forall t :: t in ts ==> GoodElement(t)
    ensures CastedOp(hex, op, ts).None? <==> RefusesCast(op, ts, ss)
  {
    assert TargetSorts(ts) == ss;
    if op.prim == Equal && Erase(ss[0]) != BVSort(1) {
      CompoundNotCompared(hex, op, ts, ss);
    } else if op.prim != Distinct {
      if Plan(op, ss).None? {
        UnplannedOperators(op, ss);
      }
      PlanGood(op, ss);
      var targets := Plan(op, ss).value.1;
      assert |targets| == |EraseAll(targets)| == |ss| && ts[..|targets|] == ts;
      forall i | 0 <= i < |ts|
        ensures CastTerm(hex, ts[i], targets[i]).None? <==> CannotCast(ts[i], targets[i])
      {
        assert EraseAll(targets)[i] == EraseAll(ss)[i];
        CastTermRefuses(hex, ts[i], targets[i]);
      }
      CastedWhole(hex, op, ts);
    }
  }
}
