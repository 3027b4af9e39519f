/** The two passes in front of the CNF conversion of src/utils.cpp: EliminateBooleanConstants
    and XorBinarize, both as node steps of the identity walker. */
module Simplify {
  import opened Terms
  import opened Walker
  import opened Booleans

  function At(ts: seq<Term>, i: nat): Term {
    if i < |ts| then ts[i] else FALSE
  }

  /** The rebuilt children that are not constants. */
  function NonConstants(ts: seq<Term>): (r: seq<Term>)
    ensures forall t :: t in r <==> t in ts && !t.BoolValue?
  {
    if ts == [] then []
    else
      var t := ts[|ts| - 1];
      NonConstants(ts[..|ts| - 1]) + if t.BoolValue? then [] else [t]
  }

  function CountTrue(ts: seq<Term>): nat {
    if ts == [] then 0
    else CountTrue(ts[..|ts| - 1]) + if ts[|ts| - 1] == TRUE then 1 else 0
  }

  function EliminateEqual(l: Term, r: Term): Term {
    if (l == TRUE && r == TRUE) || (l == FALSE && r == FALSE) then TRUE
    else if (l == TRUE && r == FALSE) || (l == FALSE && r == TRUE) then FALSE
    else if l == TRUE then r
    else if r == TRUE then l
    else if l == FALSE then Make(Not, [r])
    else if r == FALSE then Make(Not, [l])
    else Make(Equal, [l, r])
  }

  function EliminateImplies(l: Term, r: Term): Term {
    if l == FALSE || r == TRUE then TRUE
    else if l == TRUE then r
    else if r == FALSE then Make(Not, [l])
    else Make(Implies, [l, r])
  }

  /** And with zero TRUE and absorbing FALSE, or Or with the two exchanged. */
  function EliminateJunction(p: PrimOp, neutral: Term, absorbing: Term, cs: seq<Term>): Term {
    var vec := NonConstants(cs);
    if absorbing in cs then absorbing
    else if vec == [] then neutral
    else if |vec| == 1 then vec[0]
    else Make(p, vec)
  }

  function EliminateXor(cs: seq<Term>): Term {
    var vec, odd := NonConstants(cs), CountTrue(cs) % 2 == 1;
    if vec == [] then (if odd then TRUE else FALSE)
    else if |vec| == 1 then (if odd then Make(Not, [vec[0]]) else vec[0])
    else if odd then Make(Xor, vec[0 := Make(Not, [vec[0]])])
    else Make(Xor, vec)
  }

  /** visit_term of EliminateBooleanConstants, from the rebuilt children of t. */
  function EliminateNode(t: Term, cs: seq<Term>): Term {
    if !t.App? then t
    else match t.op.prim
      case Not => if At(cs, 0) == TRUE then FALSE else if At(cs, 0) == FALSE then TRUE else Make(Not, [At(cs, 0)])
      case Equal => EliminateEqual(At(cs, 0), At(cs, 1))
      case Implies => EliminateImplies(At(cs, 0), At(cs, 1))
      case And => EliminateJunction(And, TRUE, FALSE, cs)
      case Or => EliminateJunction(Or, FALSE, TRUE, cs)
      case Xor => EliminateXor(cs)
      case _ => t
  }

  ghost function Eliminate(t: Term): Term {
    Walk(EliminateNode, map[], t)
  }

  function XorChain(ts: seq<Term>): Term
    requires ts != []
  {
    if |ts| == 1 then ts[0] else Make(Xor, [XorChain(ts[..|ts| - 1]), ts[|ts| - 1]])
  }

  /** visit_term of XorBinarize: only an Xor is rebuilt. */
  function BinarizeNode(t: Term, cs: seq<Term>): Term {
    if t.App? && t.op == Op(Xor, []) && cs != [] then XorChain(cs) else t
  }

  ghost function Binarize(t: Term): Term {
    Walk(BinarizeNode, map[], t)
  }

  // ----- elimination keeps the meaning -----

  lemma ParitySnoc(env: Env, ts: seq<Term>, t: Term)
    ensures Parity(Truths(env, ts + [t])) == (Parity(Truths(env, ts)) != Holds(env, t))
  {
    assert Truths(env, ts + [t])[..|ts|] == Truths(env, ts);
  }

  lemma {:induction false} SplitSnoc(ts: seq<Term>, t: Term)
    ensures NonConstants(ts + [t]) == if t.BoolValue? then NonConstants(ts) else NonConstants(ts) + [t]
    ensures (CountTrue(ts + [t]) % 2 == 1) == ((CountTrue(ts) % 2 == 1) != (t == TRUE))
  {
    assert (ts + [t])[..|ts|] == ts;
  }

  ghost predicate ParitySplits(env: Env, ts: seq<Term>) {
    Parity(Truths(env, ts)) == (Parity(Truths(env, NonConstants(ts))) != (CountTrue(ts) % 2 == 1))
  }

  lemma ParitySplitsSnoc(env: Env, ts: seq<Term>, t: Term)
    requires ParitySplits(env, ts)
    ensures ParitySplits(env, ts + [t])
  {
    SplitSnoc(ts, t);
    ParitySnoc(env, ts, t);
    if t.BoolValue? {
      assert Holds(env, t) == (t == TRUE);
    } else {
      ParitySnoc(env, NonConstants(ts), t);
    }
  }

  /** The parity of a list is that of its non-constants, flipped by the constants that are true. */
  lemma {:induction false} ParityOfSplit(env: Env, ts: seq<Term>)
    ensures ParitySplits(env, ts)
  {
    if ts == [] {
      assert Truths(env, ts) == [];
    } else {
      ParityOfSplit(env, ts[..|ts| - 1]);
      ParitySplitsSnoc(env, ts[..|ts| - 1], ts[|ts| - 1]);
      assert ts == ts[..|ts| - 1] + [ts[|ts| - 1]];
    }
  }

  lemma {:induction false} ParityFlip(vs: seq<bool>, i: nat)
    requires i < |vs|
    ensures Parity(vs[i := !vs[i]]) == !Parity(vs)
  {
    var n := |vs| - 1;
    if i < n {
      ParityFlip(vs[..n], i);
      assert vs[i := !vs[i]][..n] == vs[..n][i := !vs[i]];
    } else {
      assert vs[i := !vs[i]][..n] == vs[..n];
    }
  }

  lemma XorHolds(env: Env, cs: seq<Term>)
    ensures Holds(env, EliminateXor(cs)) == Parity(Truths(env, cs))
  {
    var vec, odd := NonConstants(cs), CountTrue(cs) % 2 == 1;
    ParityOfSplit(env, cs);
    if |vec| == 1 {
      HoldsNot(env, vec[0]);
      assert Truths(env, vec)[..0] == [];
      assert Parity(Truths(env, vec)) == Holds(env, vec[0]);
    } else if vec != [] {
      var negated := vec[0 := Make(Not, [vec[0]])];
      HoldsNot(env, vec[0]);
      HoldsApp(env, Op(Xor, []), vec);
      HoldsApp(env, Op(Xor, []), negated);
      ParityFlip(Truths(env, vec), 0);
      assert Truths(env, negated) == Truths(env, vec)[0 := !Truths(env, vec)[0]];
    }
  }

  lemma JunctionHolds(env: Env, cs: seq<Term>)
    ensures Holds(env, EliminateJunction(And, TRUE, FALSE, cs)) == (false !in Truths(env, cs))
    ensures Holds(env, EliminateJunction(Or, FALSE, TRUE, cs)) == (true in Truths(env, cs))
  {
    AndHolds(env, cs);
    OrHolds(env, cs);
  }

  lemma TruthsAnd(env: Env, cs: seq<Term>)
    ensures (false !in Truths(env, cs)) == forall c :: c in cs ==> Holds(env, c)
  {
    forall i | 0 <= i < |cs|
      ensures Truths(env, cs)[i] == Holds(env, cs[i]) && cs[i] in cs
    {
    }
  }

  lemma TruthsOr(env: Env, cs: seq<Term>)
    ensures (true in Truths(env, cs)) == exists c :: c in cs && Holds(env, c)
  {
    forall i | 0 <= i < |cs|
      ensures Truths(env, cs)[i] == Holds(env, cs[i]) && cs[i] in cs
    {
    }
  }

  lemma AndHolds(env: Env, cs: seq<Term>)
    ensures Holds(env, EliminateJunction(And, TRUE, FALSE, cs)) == (false !in Truths(env, cs))
  {
    var vec := NonConstants(cs);
    TruthsAnd(env, cs);
    HoldsAnd(env, vec);
    assert forall c :: c in cs ==> c in vec || c == TRUE || c == FALSE;
    assert Holds(env, TRUE) && !Holds(env, FALSE);
    if |vec| == 1 {
      assert vec[0] in vec && forall c :: c in vec ==> c == vec[0];
    }
  }

  lemma OrHolds(env: Env, cs: seq<Term>)
    ensures Holds(env, EliminateJunction(Or, FALSE, TRUE, cs)) == (true in Truths(env, cs))
  {
    var vec := NonConstants(cs);
    TruthsOr(env, cs);
    HoldsOr(env, vec);
    assert forall c :: c in cs ==> c in vec || c == TRUE || c == FALSE;
    assert Holds(env, TRUE) && !Holds(env, FALSE);
    if |vec| == 1 {
      assert vec[0] in vec && forall c :: c in vec ==> c == vec[0];
    }
  }

  lemma EliminateNodeHolds(env: Env, t: Term, cs: seq<Term>)
    requires t.App? && BoolNode(t.op, |cs|)
    ensures Holds(env, EliminateNode(t, cs)) == BoolApply(t.op, Truths(env, cs))
  {
    match t.op.prim
    case Xor => XorHolds(env, cs);
    case And => JunctionHolds(env, cs);
    case Or => JunctionHolds(env, cs);
    case Not => HoldsNot(env, cs[0]);
    case Equal =>
      HoldsNot(env, cs[0]);
      HoldsNot(env, cs[1]);
      HoldsApp(env, Op(Equal, []), [cs[0], cs[1]]);
      assert Truths(env, [cs[0], cs[1]]) == [Holds(env, cs[0]), Holds(env, cs[1])];
    case Implies =>
      HoldsNot(env, cs[0]);
      HoldsApp(env, Op(Implies, []), [cs[0], cs[1]]);
      assert Truths(env, [cs[0], cs[1]]) == [Holds(env, cs[0]), Holds(env, cs[1])];
  }

  ghost function EliminateAll(ts: seq<Term>): (r: seq<Term>)
    ensures |r| == |ts|
    ensures forall i :: 0 <= i < |ts| ==> r[i] == Eliminate(ts[i])
  {
    seq(|ts|, i requires 0 <= i < |ts| => Eliminate(ts[i]))
  }

  lemma EliminateApp(t: Term)
    requires t.App?
    ensures Eliminate(t) == EliminateNode(t, EliminateAll(t.children))
  {
    var base: map<Term, Term> := map[];
    assert EliminateAll(t.children)
        == seq(|Children(t)|, i requires 0 <= i < |Children(t)| => Walk(EliminateNode, base, Children(t)[i]));
  }

  /** Constant elimination keeps the truth value under every assignment. */
  lemma {:induction false} EliminateHolds(env: Env, t: Term)
    requires BoolFormula(t)
    ensures Holds(env, Eliminate(t)) == Holds(env, t)
  {
    if t.App? {
      var cs := t.children;
      forall i | 0 <= i < |cs|
        ensures Holds(env, Eliminate(cs[i])) == Holds(env, cs[i])
      {
        EliminateHolds(env, cs[i]);
      }
      EliminateApp(t);
      EliminateNodeHolds(env, t, EliminateAll(cs));
      HoldsApp(env, t.op, cs);
      assert Truths(env, EliminateAll(cs)) == Truths(env, cs);
    }
  }

  // ----- elimination leaves a constant or no constant -----

  /** A formula without constants, every junction of which has at least two members. */
  ghost predicate ConstantFree(t: Term) {
    match t
    case Symbol(_, s) => s == BoolSort
    case App(op, cs) =>
      && BoolNode(op, |cs|) && (IsJunction(op.prim) ==> |cs| >= 2)
      && forall c :: c in cs ==> ConstantFree(c)
    case _ => false
  }

  ghost predicate Simplified(t: Term) {
    t.BoolValue? || ConstantFree(t)
  }

  lemma JunctionFree(p: PrimOp, ts: seq<Term>)
    requires IsJunction(p) && |ts| >= 2 && forall c :: c in ts ==> ConstantFree(c)
    ensures ConstantFree(Make(p, ts))
  {
  }

  lemma {:induction false} NotFree(c: Term)
    requires ConstantFree(c)
    ensures ConstantFree(Make(Not, [c]))
  {
  }

  lemma {:induction false} PairFree(p: PrimOp, a: Term, b: Term)
    requires ConstantFree(a) && ConstantFree(b) && (p == Equal || p == Implies)
    ensures ConstantFree(Make(p, [a, b]))
  {
  }

  lemma JunctionSimplified(p: PrimOp, neutral: Term, absorbing: Term, cs: seq<Term>)
    requires IsJunction(p) && neutral.BoolValue? && absorbing.BoolValue? && forall c :: c in cs ==> Simplified(c)
    ensures Simplified(EliminateJunction(p, neutral, absorbing, cs))
  {
    var vec := NonConstants(cs);
    if |vec| >= 2 {
      JunctionFree(p, vec);
    } else if |vec| == 1 {
      assert vec[0] in vec;
    }
  }

  lemma XorSimplified(cs: seq<Term>)
    requires forall c :: c in cs ==> Simplified(c)
    ensures Simplified(EliminateXor(cs))
  {
    var vec := NonConstants(cs);
    if |vec| >= 1 {
      assert vec[0] in vec;
      NotFree(vec[0]);
    }
    if |vec| >= 2 {
      JunctionFree(Xor, vec);
      JunctionFree(Xor, vec[0 := Make(Not, [vec[0]])]);
    }
  }

  lemma PairSimplified(a: Term, b: Term)
    requires Simplified(a) && Simplified(b)
    ensures Simplified(EliminateEqual(a, b)) && Simplified(EliminateImplies(a, b))
  {
    if ConstantFree(a) {
      NotFree(a);
    }
    if ConstantFree(b) {
      NotFree(b);
    }
    if ConstantFree(a) && ConstantFree(b) {
      PairFree(Equal, a, b);
      PairFree(Implies, a, b);
    }
  }

  lemma EliminateNodeSimplified(t: Term, cs: seq<Term>)
    requires t.App? && BoolNode(t.op, |cs|)
    requires forall c :: c in cs ==> Simplified(c)
    ensures Simplified(EliminateNode(t, cs))
  {
    match t.op.prim
    case Not =>
      assert cs[0] in cs;
      if ConstantFree(cs[0]) {
        NotFree(cs[0]);
      }
    case And => JunctionSimplified(And, TRUE, FALSE, cs);
    case Or => JunctionSimplified(Or, FALSE, TRUE, cs);
    case Xor => XorSimplified(cs);
    case Equal | Implies =>
      assert cs[0] in cs && cs[1] in cs;
      PairSimplified(cs[0], cs[1]);
  }

  /** Constant elimination leaves a bare constant or a constant-free formula. */
  lemma {:induction false} EliminateSimplifies(t: Term)
    requires BoolFormula(t)
    ensures Simplified(Eliminate(t))
  {
    if t.App? {
      forall i | 0 <= i < |t.children|
        ensures Simplified(Eliminate(t.children[i]))
      {
        EliminateSimplifies(t.children[i]);
      }
      EliminateApp(t);
      EliminateNodeSimplified(t, EliminateAll(t.children));
    }
  }

  // ----- binarisation -----

  lemma {:induction false} XorChainHolds(env: Env, ts: seq<Term>)
    requires ts != []
    ensures Holds(env, XorChain(ts)) == Parity(Truths(env, ts))
    decreases |ts|
  {
    var init, last := ts[..|ts| - 1], ts[|ts| - 1];
    ParitySnoc(env, init, last);
    assert ts == init + [last];
    if |ts| == 1 {
      assert Truths(env, init) == [];
    } else {
      XorChainHolds(env, init);
      XorPairHolds(env, XorChain(init), last);
    }
  }

  lemma XorPairHolds(env: Env, a: Term, b: Term)
    ensures Holds(env, Make(Xor, [a, b])) == (Holds(env, a) != Holds(env, b))
  {
    HoldsApp(env, Op(Xor, []), [a, b]);
    ParitySnoc(env, [a], b);
    ParitySnoc(env, [], a);
    assert [a] + [b] == [a, b] && [] + [a] == [a];
    assert Truths(env, []) == [];
  }

  ghost function BinarizeAll(ts: seq<Term>): (r: seq<Term>)
    ensures |r| == |ts|
    ensures forall i :: 0 <= i < |ts| ==> r[i] == Binarize(ts[i])
  {
    seq(|ts|, i requires 0 <= i < |ts| => Binarize(ts[i]))
  }

  lemma BinarizeApp(t: Term)
    requires t.App?
    ensures Binarize(t) == BinarizeNode(t, BinarizeAll(t.children))
  {
    var base: map<Term, Term> := map[];
    assert BinarizeAll(t.children)
        == seq(|Children(t)|, i requires 0 <= i < |Children(t)| => Walk(BinarizeNode, base, Children(t)[i]));
  }

  /** Binarisation keeps the truth value under every assignment. */
  lemma {:induction false} BinarizeHolds(env: Env, t: Term)
    requires ConstantFree(t)
    ensures Holds(env, Binarize(t)) == Holds(env, t)
  {
    if t.App? && t.op.prim == Xor {
      var cs := t.children;
      forall i | 0 <= i < |cs|
        ensures Holds(env, Binarize(cs[i])) == Holds(env, cs[i])
      {
        BinarizeHolds(env, cs[i]);
      }
      XorChainHolds(env, BinarizeAll(cs));
      HoldsApp(env, t.op, cs);
      assert Truths(env, BinarizeAll(cs)) == Truths(env, cs);
    }
    if t.App? {
      BinarizeApp(t);
    }
  }

  /** Every Xor has exactly two members. */
  ghost predicate Narrow(t: Term) {
    t.App? ==> (t.op.prim == Xor ==> |t.children| == 2) && forall c :: c in t.children ==> Narrow(c)
  }

  /** An Xor with more than two members is the formula itself or is reached from it through Xors only. */
  ghost predicate WideOnlyAtRoot(t: Term) {
    if t.HasOp(Xor) then forall c :: c in t.children ==> WideOnlyAtRoot(c) else Narrow(t)
  }

  lemma {:induction false} XorChainNarrow(ts: seq<Term>)
    requires ts != [] && forall t :: t in ts ==> Narrow(t) && ConstantFree(t)
    ensures Narrow(XorChain(ts)) && ConstantFree(XorChain(ts))
    ensures XorChain(ts).App? || |ts| == 1
    decreases |ts|
  {
    if |ts| > 1 {
      XorChainNarrow(ts[..|ts| - 1]);
    }
  }

  lemma {:induction false} NarrowIsWideOnlyAtRoot(t: Term)
    requires Narrow(t)
    ensures WideOnlyAtRoot(t)
  {
    if t.App? {
      forall c | c in t.children
        ensures WideOnlyAtRoot(c)
      {
        NarrowIsWideOnlyAtRoot(c);
      }
    }
  }

  /** Binarisation gets every Xor down to two members if the wide ones are at the root. */
  lemma {:induction false} BinarizeNarrow(t: Term)
    requires ConstantFree(t) && WideOnlyAtRoot(t)
    ensures Narrow(Binarize(t)) && ConstantFree(Binarize(t))
  {
    if t.App? {
      BinarizeApp(t);
      if t.op.prim == Xor {
        forall c | c in BinarizeAll(t.children)
          ensures Narrow(c) && ConstantFree(c)
        {
          var i :| 0 <= i < |t.children| && BinarizeAll(t.children)[i] == c;
          BinarizeNarrow(t.children[i]);
        }
        XorChainNarrow(BinarizeAll(t.children));
      }
    }
  }

  /** Binarisation never brings a constant in, whatever the formula. */
  lemma {:induction false} XorChainConstantFree(ts: seq<Term>)
    requires ts != [] && forall t :: t in ts ==> ConstantFree(t)
    ensures ConstantFree(XorChain(ts))
    decreases |ts|
  {
    if |ts| > 1 {
      XorChainConstantFree(ts[..|ts| - 1]);
    }
  }

  lemma {:induction false} BinarizeConstantFree(t: Term)
    requires ConstantFree(t)
    ensures ConstantFree(Binarize(t)) && (Binarize(t).App? <==> t.App?)
  {
    if t.App? {
      BinarizeApp(t);
      if t.op.prim == Xor {
        forall c | c in BinarizeAll(t.children)
          ensures ConstantFree(c)
        {
          var i :| 0 <= i < |t.children| && BinarizeAll(t.children)[i] == c;
          BinarizeConstantFree(t.children[i]);
        }
        XorChainConstantFree(BinarizeAll(t.children));
      }
    }
  }

  /** A formula whose Xors all have at most two members stays so under elimination. */
  ghost predicate AtMostPairs(t: Term) {
    t.App? ==> (t.op.prim == Xor ==> |t.children| <= 2) && forall c :: c in t.children ==> AtMostPairs(c)
  }

  lemma {:induction false} NonConstantsShorter(ts: seq<Term>)
    ensures |NonConstants(ts)| <= |ts|
  {
    if ts != [] {
      NonConstantsShorter(ts[..|ts| - 1]);
    }
  }

  lemma {:induction false} NotKeepsPairs(c: Term)
    requires AtMostPairs(c)
    ensures AtMostPairs(Make(Not, [c]))
  {
  }

  lemma {:induction false} PairKeepsPairs(p: PrimOp, a: Term, b: Term)
    requires AtMostPairs(a) && AtMostPairs(b)
    ensures AtMostPairs(Make(p, [a, b]))
  {
  }

  lemma XorKeepsPairs(cs: seq<Term>)
    requires |cs| <= 2 && forall c :: c in cs ==> AtMostPairs(c)
    ensures AtMostPairs(EliminateXor(cs))
  {
    var vec := NonConstants(cs);
    NonConstantsShorter(cs);
    if vec != [] {
      assert vec[0] in vec;
      NotKeepsPairs(vec[0]);
    }
    if |vec| == 2 {
      assert vec[1] in vec && vec == [vec[0], vec[1]];
      assert vec[0 := Make(Not, [vec[0]])] == [Make(Not, [vec[0]]), vec[1]];
      PairKeepsPairs(Xor, vec[0], vec[1]);
      PairKeepsPairs(Xor, Make(Not, [vec[0]]), vec[1]);
    }
  }

  lemma {:induction false} BinaryKeepsPairs(a: Term, b: Term)
    requires AtMostPairs(a) && AtMostPairs(b)
    ensures AtMostPairs(EliminateEqual(a, b)) && AtMostPairs(EliminateImplies(a, b))
  {
    NotKeepsPairs(a);
    NotKeepsPairs(b);
    PairKeepsPairs(Equal, a, b);
    PairKeepsPairs(Implies, a, b);
  }

  lemma JunctionKeepsPairs(p: PrimOp, neutral: Term, absorbing: Term, cs: seq<Term>)
    requires p != Xor && neutral.BoolValue? && absorbing.BoolValue? && forall c :: c in cs ==> AtMostPairs(c)
    ensures AtMostPairs(EliminateJunction(p, neutral, absorbing, cs))
  {
    var vec := NonConstants(cs);
    assert vec != [] ==> vec[0] in vec;
  }

  lemma EliminateNodeKeepsPairs(t: Term, cs: seq<Term>)
    requires t.App? && BoolNode(t.op, |cs|) && (t.op.prim == Xor ==> |cs| <= 2)
    requires forall c :: c in cs ==> AtMostPairs(c)
    ensures AtMostPairs(EliminateNode(t, cs))
  {
    match t.op.prim
    case Xor => XorKeepsPairs(cs);
    case And => JunctionKeepsPairs(And, TRUE, FALSE, cs);
    case Or => JunctionKeepsPairs(Or, FALSE, TRUE, cs);
    case Not => NotKeepsPairs(cs[0]);
    case Equal | Implies => BinaryKeepsPairs(cs[0], cs[1]);
  }

  lemma {:induction false} EliminateKeepsPairs(t: Term)
    requires BoolFormula(t) && AtMostPairs(t)
    ensures AtMostPairs(Eliminate(t))
  {
    if t.App? {
      var cs := EliminateAll(t.children);
      forall i | 0 <= i < |cs|
        ensures AtMostPairs(cs[i])
      {
        EliminateKeepsPairs(t.children[i]);
      }
      EliminateApp(t);
      EliminateNodeKeepsPairs(t, cs);
    }
  }

  lemma {:induction false} PairsAreNarrow(t: Term)
    requires ConstantFree(t) && AtMostPairs(t)
    ensures Narrow(t)
  {
    if t.App? {
      forall c | c in t.children
        ensures Narrow(c)
      {
        PairsAreNarrow(c);
      }
    }
  }

  // ----- neither pass brings in a symbol -----

  ghost function NamesAll(ts: seq<Term>): set<string> {
    set t, n | t in ts && n in Names(t) :: n
  }

  lemma NamesApp(op: Op, ts: seq<Term>)
    ensures Names(App(op, ts)) == NamesAll(ts)
  {
    ChildNames(App(op, ts));
    forall n | n in Names(App(op, ts))
      ensures n in NamesAll(ts)
    {
      NameInChild(App(op, ts), n);
    }
  }

  /** The names of a term are among those of a list. */
  ghost predicate NamesIn(t: Term, cs: seq<Term>) {
    Names(t) <= NamesAll(cs)
  }

  lemma MemberNames(c: Term, cs: seq<Term>)
    requires c in cs
    ensures NamesIn(c, cs)
  {
  }

  lemma MakeNames(p: PrimOp, ts: seq<Term>, cs: seq<Term>)
    requires forall t :: t in ts ==> NamesIn(t, cs)
    ensures NamesIn(Make(p, ts), cs)
  {
    NamesApp(Op(p, []), ts);
  }

  lemma NotNames(c: Term, cs: seq<Term>)
    requires NamesIn(c, cs)
    ensures NamesIn(Make(Not, [c]), cs)
  {
    MakeNames(Not, [c], cs);
  }

  lemma ConstantNames(b: bool, cs: seq<Term>)
    ensures NamesIn(BoolValue(b), cs)
  {
  }

  lemma JunctionNames(p: PrimOp, neutral: bool, cs: seq<Term>)
    ensures NamesIn(EliminateJunction(p, BoolValue(neutral), BoolValue(!neutral), cs), cs)
  {
    var vec := NonConstants(cs);
    ConstantNames(neutral, cs);
    ConstantNames(!neutral, cs);
    forall c | c in vec
      ensures NamesIn(c, cs)
    {
      MemberNames(c, cs);
    }
    MakeNames(p, vec, cs);
    if |vec| == 1 {
      assert vec[0] in vec;
    }
  }

  lemma XorNames(cs: seq<Term>)
    ensures NamesIn(EliminateXor(cs), cs)
  {
    var vec := NonConstants(cs);
    ConstantNames(true, cs);
    ConstantNames(false, cs);
    forall c | c in vec
      ensures NamesIn(c, cs)
    {
      MemberNames(c, cs);
    }
    MakeNames(Xor, vec, cs);
    if vec != [] {
      assert vec[0] in vec;
      NotNames(vec[0], cs);
      MakeNames(Xor, vec[0 := Make(Not, [vec[0]])], cs);
    }
  }

  lemma PairNames(a: Term, b: Term, cs: seq<Term>)
    requires NamesIn(a, cs) && NamesIn(b, cs)
    ensures NamesIn(EliminateEqual(a, b), cs) && NamesIn(EliminateImplies(a, b), cs)
  {
    ConstantNames(true, cs);
    ConstantNames(false, cs);
    NotNames(a, cs);
    NotNames(b, cs);
    MakeNames(Equal, [a, b], cs);
    MakeNames(Implies, [a, b], cs);
  }

  lemma EliminateNodeNames(t: Term, cs: seq<Term>)
    requires t.App? && BoolNode(t.op, |cs|)
    ensures Names(EliminateNode(t, cs)) <= NamesAll(cs)
  {
    match t.op.prim
    case Not =>
      MemberNames(cs[0], cs);
      NotNames(cs[0], cs);
      ConstantNames(true, cs);
      ConstantNames(false, cs);
    case And => JunctionNames(And, true, cs);
    case Or => JunctionNames(Or, false, cs);
    case Xor => XorNames(cs);
    case Equal | Implies =>
      MemberNames(cs[0], cs);
      MemberNames(cs[1], cs);
      PairNames(cs[0], cs[1], cs);
  }

  lemma {:induction false} EliminateNames(t: Term)
    requires BoolFormula(t)
    ensures Names(Eliminate(t)) <= Names(t)
  {
    if t.App? {
      var cs := EliminateAll(t.children);
      forall n | n in NamesAll(cs)
        ensures n in Names(t)
      {
        var c :| c in cs && n in Names(c);
        var i :| 0 <= i < |cs| && cs[i] == c;
        EliminateNames(t.children[i]);
        ChildNames(t);
        assert t.children[i] in Children(t);
      }
      EliminateApp(t);
      EliminateNodeNames(t, cs);
    }
  }

  lemma {:induction false} XorChainNames(ts: seq<Term>)
    requires ts != []
    ensures Names(XorChain(ts)) <= NamesAll(ts)
    decreases |ts|
  {
    if |ts| > 1 {
      var init := ts[..|ts| - 1];
      XorChainNames(init);
      NamesApp(Op(Xor, []), [XorChain(init), ts[|ts| - 1]]);
      assert NamesAll(init) <= NamesAll(ts);
      assert ts[|ts| - 1] in ts;
    }
  }

  lemma {:induction false} BinarizeNames(t: Term)
    ensures Names(Binarize(t)) <= Names(t)
  {
    if t.App? {
      BinarizeApp(t);
      if t.op == Op(Xor, []) && t.children != [] {
        var cs := BinarizeAll(t.children);
        XorChainNames(cs);
        forall n | n in NamesAll(cs)
          ensures n in Names(t)
        {
          var c :| c in cs && n in Names(c);
          var i :| 0 <= i < |cs| && cs[i] == c;
          BinarizeNames(t.children[i]);
          ChildNames(t);
          assert t.children[i] in Children(t);
        }
      }
    }
  }
}
