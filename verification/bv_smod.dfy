/** The signed modulo that MathSAT lacks, written with other bit-vector operators:
    ext_msat_make_bv_smod of msat/src/msat_extensions.cpp. */
module BVSmods {
  import opened Terms
  import opened Sorts

  datatype Value = BoolV(b: bool) | BVV(width: nat, n: nat)

  function Pow2(w: nat): (r: nat)
    ensures r > 0
  {
    if w == 0 then 1 else 2 * Pow2(w - 1)
  }

  lemma DivMod(a: nat, m: nat)
    requires m > 0
    ensures a == a / m * m + a % m && 0 <= a % m < m && a / m >= 0
  {
  }

  /** A multiple of y that is not zero is at least as large as y. */
  lemma SmallMultiple(k: int, y: int)
    ensures k > 0 && y >= 0 ==> k * y >= y
    ensures k > 0 && y < 0 ==> k * y <= y
  {
    if k > 0 {
      assert k * y == y + (k - 1) * y;
    }
  }

  lemma Quotient(q: int, r: int, m: nat, a: int)
    requires a == q * m + r && 0 <= r < m && 0 <= a < 2 * m
    ensures q == if a < m then 0 else 1
  {
    SmallMultiple(q - 1, m);
    SmallMultiple(-q, m);
    assert (q - 1) * m == q * m - m && -q * m == -(q * m);
  }

  lemma WrapOnce(x: nat, m: nat)
    requires m > 0 && x < 2 * m
    ensures x % m == if x < m then x else x - m
    ensures x / m == if x < m then 0 else 1
  {
    DivMod(x, m);
    Quotient(x / m, x % m, m, x);
  }

  // ----- the term -----

  function MsbIs(w: nat, t: Term, b: nat): Term
    requires w > 0
  {
    Make(Equal, [App(Op(Extract, [w - 1, w - 1]), [t]), BVValue(1, b)])
  }

  function Abs(w: nat, t: Term): Term
    requires w > 0
  {
    Make(Ite, [MsbIs(w, t, 0), t, Make(BVNeg, [t])])
  }

  function Signs(w: nat, s: Term, t: Term, bs: nat, bt: nat): Term
    requires w > 0
  {
    Make(And, [MsbIs(w, s, bs), MsbIs(w, t, bt)])
  }

  /** The two innermost conditionals: some sign is negative. */
  function NegativeCases(w: nat, s: Term, t: Term, u: Term): Term
    requires w > 0
  {
    var ite3 := Make(Ite, [Signs(w, s, t, 0, 1), Make(BVAdd, [u, t]), Make(BVNeg, [u])]);
    Make(Ite, [Signs(w, s, t, 1, 0), Make(BVAdd, [Make(BVNeg, [u]), t]), ite3])
  }

  function Conditionals(w: nat, s: Term, t: Term, u: Term): Term
    requires w > 0
  {
    var ite1 := Make(Ite, [Signs(w, s, t, 0, 0), u, NegativeCases(w, s, t, u)]);
    Make(Ite, [Make(Equal, [u, BVValue(w, 0)]), u, ite1])
  }

  function SmodOf(w: nat, s: Term, t: Term): Term
    requires w > 0
  {
    Conditionals(w, s, t, Make(BVUrem, [Abs(w, s), Abs(w, t)]))
  }

  /** None stands for the exception on a first argument that is not a bit-vector. */
  function MakeSmod(s: Term, t: Term): Option<Term> {
    match SortOf(s)
    case Some(BVSort(w)) => if w > 0 then Some(SmodOf(w, s, t)) else None
    case _ => None
  }

  // ----- the operators it uses -----

  function Neg(w: nat, a: nat): (r: nat)
    requires a < Pow2(w)
    ensures r < Pow2(w)
  {
    (Pow2(w) - a) % Pow2(w)
  }

  function Plus(w: nat, a: nat, b: nat): (r: nat)
    ensures r < Pow2(w)
  {
    (a + b) % Pow2(w)
  }

  /** The remainder of a division by zero is the dividend. */
  function Urem(a: nat, b: nat): nat {
    if b == 0 then a else a % b
  }

  function BitAt(i: nat, a: nat): nat {
    a / Pow2(i) % 2
  }

  ghost predicate StandardArithmetic(m: Interp<Value>) {
    && (forall w, a: nat :: a < Pow2(w) ==> m.apply(Op(BVNeg, []), [BVV(w, a)]) == BVV(w, Neg(w, a)))
    && (forall w, a, b :: m.apply(Op(BVAdd, []), [BVV(w, a), BVV(w, b)]) == BVV(w, Plus(w, a, b)))
    && (forall w, a, b :: m.apply(Op(BVUrem, []), [BVV(w, a), BVV(w, b)]) == BVV(w, Urem(a, b)))
    && (forall w, i: nat, a :: i < w ==> m.apply(Op(Extract, [i, i]), [BVV(w, a)]) == BVV(1, BitAt(i, a)))
  }

  ghost predicate StandardLogic(m: Interp<Value>) {
    && (forall w, n :: m.leaf(BVValue(w, n)) == BVV(w, n))
    && (forall x, y :: m.apply(Op(Equal, []), [x, y]) == BoolV(x == y))
    && (forall x, y :: m.apply(Op(And, []), [BoolV(x), BoolV(y)]) == BoolV(x && y))
    && (forall x, y :: m.apply(Op(Ite, []), [BoolV(true), x, y]) == x)
    && (forall x, y :: m.apply(Op(Ite, []), [BoolV(false), x, y]) == y)
  }

  /** Interpretations that give the operators in the term their SMT-LIB meaning. */
  ghost predicate Standard(m: Interp<Value>) {
    StandardArithmetic(m) && StandardLogic(m)
  }

  lemma {:induction false} EvalUnary(m: Interp<Value>, op: Op, t: Term)
    ensures Eval(m, App(op, [t])) == m.apply(op, [Eval(m, t)])
  {
    EvalApp(m, op, [t]);
    assert EvalAll(m, [t]) == [Eval(m, t)];
  }

  lemma {:induction false} EvalBinary(m: Interp<Value>, p: PrimOp, t: Term, u: Term)
    ensures Eval(m, Make(p, [t, u])) == m.apply(Op(p, []), [Eval(m, t), Eval(m, u)])
  {
    EvalApp(m, Op(p, []), [t, u]);
    assert EvalAll(m, [t, u]) == [Eval(m, t), Eval(m, u)];
  }

  lemma {:induction false} EvalTernary(m: Interp<Value>, p: PrimOp, c: Term, t: Term, u: Term)
    ensures Eval(m, Make(p, [c, t, u])) == m.apply(Op(p, []), [Eval(m, c), Eval(m, t), Eval(m, u)])
  {
    EvalApp(m, Op(p, []), [c, t, u]);
    assert EvalAll(m, [c, t, u]) == [Eval(m, c), Eval(m, t), Eval(m, u)];
  }

  lemma {:induction false} EvalIte(m: Interp<Value>, c: Term, t: Term, u: Term, b: bool)
    requires StandardLogic(m) && Eval(m, c) == BoolV(b)
    ensures Eval(m, Make(Ite, [c, t, u])) == if b then Eval(m, t) else Eval(m, u)
  {
    EvalTernary(m, Ite, c, t, u);
  }

  // ----- two's complement -----

  /** The bit-vectors that stand for negative numbers. */
  predicate Negative(w: nat, a: nat)
    requires w > 0
  {
    a >= Pow2(w - 1)
  }

  function Signed(w: nat, a: nat): int
    requires w > 0
  {
    if Negative(w, a) then a - Pow2(w) else a
  }

  function Magnitude(x: int): nat {
    if x < 0 then -x else x
  }

  /** r is the remainder of the division of x by y that rounds towards minus infinity. */
  ghost predicate FloorRemainder(x: int, y: int, r: int) {
    && (exists q: int :: x == q * y + r)
    && Magnitude(r) < Magnitude(y)
    && (r == 0 || (r < 0 <==> y < 0))
  }

  lemma {:induction false} SignBit(w: nat, a: nat)
    requires w > 0 && a < Pow2(w)
    ensures BitAt(w - 1, a) == if Negative(w, a) then 1 else 0
  {
    WrapOnce(a, Pow2(w - 1));
  }

  lemma {:induction false} EvalMsb(m: Interp<Value>, w: nat, t: Term, a: nat, b: nat)
    requires Standard(m) && w > 0 && Eval(m, t) == BVV(w, a) && a < Pow2(w) && b < 2
    ensures Eval(m, MsbIs(w, t, b)) == BoolV(Negative(w, a) == (b == 1))
  {
    SignBit(w, a);
    EvalUnary(m, Op(Extract, [w - 1, w - 1]), t);
    EvalBinary(m, Equal, App(Op(Extract, [w - 1, w - 1]), [t]), BVValue(1, b));
  }

  lemma {:induction false} EvalSigns(m: Interp<Value>, w: nat, s: Term, t: Term, a: nat, b: nat, bs: nat, bt: nat)
    requires Standard(m) && w > 0 && a < Pow2(w) && b < Pow2(w) && bs < 2 && bt < 2
    requires Eval(m, s) == BVV(w, a) && Eval(m, t) == BVV(w, b)
    ensures Eval(m, Signs(w, s, t, bs, bt)) == BoolV(Negative(w, a) == (bs == 1) && Negative(w, b) == (bt == 1))
  {
    EvalMsb(m, w, s, a, bs);
    EvalMsb(m, w, t, b, bt);
    EvalBinary(m, And, MsbIs(w, s, bs), MsbIs(w, t, bt));
  }

  lemma {:induction false} AbsoluteBits(w: nat, a: nat)
    requires w > 0 && a < Pow2(w)
    ensures Magnitude(Signed(w, a)) == if Negative(w, a) then Neg(w, a) else a
  {
    if Negative(w, a) {
      WrapOnce(Pow2(w) - a, Pow2(w));
    }
  }

  /** The absolute value, also of the least number: its bits are read without sign. */
  lemma {:induction false} EvalAbs(m: Interp<Value>, w: nat, t: Term, a: nat)
    requires Standard(m) && w > 0 && Eval(m, t) == BVV(w, a) && a < Pow2(w)
    ensures Eval(m, Abs(w, t)) == BVV(w, Magnitude(Signed(w, a)))
  {
    EvalMsb(m, w, t, a, 0);
    EvalUnary(m, Op(BVNeg, []), t);
    EvalIte(m, MsbIs(w, t, 0), t, Make(BVNeg, [t]), !Negative(w, a));
    AbsoluteBits(w, a);
  }

  lemma {:induction false} EvalBySigns(m: Interp<Value>, w: nat, s: Term, t: Term, a: nat, b: nat, bs: nat, bt: nat,
                                       x: Term, y: Term)
    requires Standard(m) && w > 0 && a < Pow2(w) && b < Pow2(w) && bs < 2 && bt < 2
    requires Eval(m, s) == BVV(w, a) && Eval(m, t) == BVV(w, b)
    ensures Eval(m, Make(Ite, [Signs(w, s, t, bs, bt), x, y]))
         == if Negative(w, a) == (bs == 1) && Negative(w, b) == (bt == 1) then Eval(m, x) else Eval(m, y)
  {
    EvalSigns(m, w, s, t, a, b, bs, bt);
    EvalIte(m, Signs(w, s, t, bs, bt), x, y, Negative(w, a) == (bs == 1) && Negative(w, b) == (bt == 1));
  }

  /** What the nested conditionals choose, from the remainder u of the absolute values. */
  function Choice(w: nat, u: nat, a: nat, b: nat): nat
    requires w > 0 && u < Pow2(w)
  {
    if u == 0 then u
    else if !Negative(w, a) && !Negative(w, b) then u
    else if Negative(w, a) && !Negative(w, b) then Plus(w, Neg(w, u), b)
    else if !Negative(w, a) && Negative(w, b) then Plus(w, u, b)
    else Neg(w, u)
  }

  lemma {:induction false} EvalNegativeCases(m: Interp<Value>, w: nat, s: Term, t: Term, u: Term, a: nat, b: nat,
                                             n: nat)
    requires Standard(m) && w > 0 && a < Pow2(w) && b < Pow2(w) && n < Pow2(w)
    requires Eval(m, s) == BVV(w, a) && Eval(m, t) == BVV(w, b) && Eval(m, u) == BVV(w, n)
    ensures n != 0 && (Negative(w, a) || Negative(w, b)) ==>
      Eval(m, NegativeCases(w, s, t, u)) == BVV(w, Choice(w, n, a, b))
  {
    var neg, sum := Make(BVNeg, [u]), Make(BVAdd, [u, t]);
    EvalUnary(m, Op(BVNeg, []), u);
    EvalBinary(m, BVAdd, u, t);
    EvalBinary(m, BVAdd, neg, t);
    EvalBySigns(m, w, s, t, a, b, 0, 1, sum, neg);
    EvalBySigns(m, w, s, t, a, b, 1, 0, Make(BVAdd, [neg, t]), Make(Ite, [Signs(w, s, t, 0, 1), sum, neg]));
  }

  lemma {:induction false} EvalConditionals(m: Interp<Value>, w: nat, s: Term, t: Term, u: Term, a: nat, b: nat, n: nat)
    requires Standard(m) && w > 0 && a < Pow2(w) && b < Pow2(w) && n < Pow2(w)
    requires Eval(m, s) == BVV(w, a) && Eval(m, t) == BVV(w, b) && Eval(m, u) == BVV(w, n)
    ensures Eval(m, Conditionals(w, s, t, u)) == BVV(w, Choice(w, n, a, b))
  {
    EvalNegativeCases(m, w, s, t, u, a, b, n);
    EvalBySigns(m, w, s, t, a, b, 0, 0, u, NegativeCases(w, s, t, u));
    EvalBinary(m, Equal, u, BVValue(w, 0));
    EvalIte(m, Make(Equal, [u, BVValue(w, 0)]), u, Make(Ite, [Signs(w, s, t, 0, 0), u, NegativeCases(w, s, t, u)]),
      n == 0);
  }

  // ----- the law -----

  lemma Multiples(q: int, y: int)
    ensures -q * y == -(q * y) && q * -y == -(q * y) && (-q - 1) * y == -(q * y) - y
  {
  }

  /** The signed remainder, from the remainder u of the absolute values. */
  function BySigns(x: int, y: int, u: int): int {
    if u == 0 || (x >= 0 && y >= 0) then u
    else if y >= 0 then y - u
    else if x >= 0 then u + y
    else -u
  }

  /** A quotient of the absolute values, with its sign changed as the signs of x and y ask. */
  lemma SignedRemainder(x: int, y: int, q: int, u: nat)
    requires Magnitude(x) == q * Magnitude(y) + u && u < Magnitude(y)
    ensures FloorRemainder(x, y, BySigns(x, y, u))
  {
    Multiples(q, y);
    if x >= 0 && y >= 0 {
      assert x == q * y + u;
    } else if x < 0 && y >= 0 {
      assert x == -q * y - u && x == (-q - 1) * y + (y - u);
    } else if x >= 0 {
      assert x == -q * y + u && x == (-q - 1) * y + (u + y);
    } else {
      assert x == q * y - u;
    }
  }

  /** The value of the choice, for a divisor that is not zero. */
  lemma {:induction false} ChoiceValue(w: nat, a: nat, b: nat, u: nat)
    requires w > 0 && a < Pow2(w) && b < Pow2(w) && b != 0 && u < Magnitude(Signed(w, b))
    ensures var x, y := Signed(w, a), Signed(w, b);
      && u < Pow2(w) && Choice(w, u, a, b) < Pow2(w)
      && Signed(w, Choice(w, u, a, b)) == BySigns(x, y, u)
  {
    var m := Pow2(w);
    if u != 0 {
      WrapOnce(m - u, m);
      WrapOnce(m - u + b, m);
      WrapOnce(u + b, m);
    }
  }

  lemma {:induction false} ChoiceRemainder(w: nat, a: nat, b: nat)
    requires w > 0 && a < Pow2(w) && b < Pow2(w) && b != 0
    ensures var x, y := Signed(w, a), Signed(w, b);
      && Magnitude(y) > 0
      && var u := Magnitude(x) % Magnitude(y);
      && u < Pow2(w) && Choice(w, u, a, b) < Pow2(w)
      && FloorRemainder(x, y, Signed(w, Choice(w, u, a, b)))
  {
    var x, y := Signed(w, a), Signed(w, b);
    DivMod(Magnitude(x), Magnitude(y));
    SignedRemainder(x, y, Magnitude(x) / Magnitude(y), Magnitude(x) % Magnitude(y));
    ChoiceValue(w, a, b, Magnitude(x) % Magnitude(y));
  }

  /** For a divisor of zero the choice is the dividend. */
  lemma {:induction false} ChoiceByZero(w: nat, a: nat)
    requires w > 0 && a < Pow2(w)
    ensures Magnitude(Signed(w, a)) < Pow2(w) && Choice(w, Magnitude(Signed(w, a)), a, 0) == a
  {
    var m := Pow2(w);
    if Negative(w, a) {
      WrapOnce(m - (m - a), m);
      WrapOnce(a + 0, m);
    }
  }

  /** What a signed modulo of a and b should be. */
  ghost predicate IsSmod(w: nat, a: nat, b: nat, r: nat)
    requires w > 0
  {
    r < Pow2(w) && if b == 0 then r == a else FloorRemainder(Signed(w, a), Signed(w, b), Signed(w, r))
  }

  lemma {:induction false} ChoiceIsSmod(w: nat, a: nat, b: nat)
    requires w > 0 && a < Pow2(w) && b < Pow2(w)
    ensures var u := Urem(Magnitude(Signed(w, a)), Magnitude(Signed(w, b)));
      u < Pow2(w) && IsSmod(w, a, b, Choice(w, u, a, b))
  {
    if b == 0 {
      ChoiceByZero(w, a);
    } else {
      ChoiceRemainder(w, a, b);
    }
  }

  /** The term computes the signed remainder that takes the sign of the divisor, for all operands of
      every width, the least numbers included; a divisor of zero gives the dividend. */
  lemma {:induction false} SmodMeans(m: Interp<Value>, w: nat, s: Term, t: Term, a: nat, b: nat)
    requires Standard(m) && w > 0 && a < Pow2(w) && b < Pow2(w)
    requires SortOf(s) == Some(BVSort(w)) && Eval(m, s) == BVV(w, a) && Eval(m, t) == BVV(w, b)
    ensures MakeSmod(s, t).Some?
    ensures var v := Eval(m, MakeSmod(s, t).value); v.BVV? && v.width == w && IsSmod(w, a, b, v.n)
  {
    var n := SmodOfMeans(m, w, s, t, a, b);
    MakesSmod(w, s, t);
  }

  /** Exactly a first argument that is not a bit-vector is refused. */
  lemma {:induction false} SmodRefused(s: Term, t: Term)
    ensures MakeSmod(s, t).None? <==> forall w :: w > 0 ==> SortOf(s) != Some(BVSort(w))
  {
  }

  lemma {:induction false} MakesSmod(w: nat, s: Term, t: Term)
    requires SortOf(s) == Some(BVSort(w)) && w > 0
    ensures MakeSmod(s, t) == Some(SmodOf(w, s, t))
  {
  }

  lemma SmodOfMeans(m: Interp<Value>, w: nat, s: Term, t: Term, a: nat, b: nat) returns (n: nat)
    requires Standard(m) && w > 0 && a < Pow2(w) && b < Pow2(w)
    requires Eval(m, s) == BVV(w, a) && Eval(m, t) == BVV(w, b)
    ensures Eval(m, SmodOf(w, s, t)) == BVV(w, n) && IsSmod(w, a, b, n)
  {
    var u := Urem(Magnitude(Signed(w, a)), Magnitude(Signed(w, b)));
    ChoiceIsSmod(w, a, b);
    EvalSmod(m, w, s, t, a, b, u);
    n := Choice(w, u, a, b);
  }

  lemma {:induction false} EvalSmod(m: Interp<Value>, w: nat, s: Term, t: Term, a: nat, b: nat, u: nat)
    requires Standard(m) && w > 0 && a < Pow2(w) && b < Pow2(w) && u < Pow2(w)
    requires Eval(m, s) == BVV(w, a) && Eval(m, t) == BVV(w, b)
    requires u == Urem(Magnitude(Signed(w, a)), Magnitude(Signed(w, b)))
    ensures Eval(m, SmodOf(w, s, t)) == BVV(w, Choice(w, u, a, b))
  {
    EvalUrem(m, w, s, t, a, b);
    EvalConditionals(m, w, s, t, Make(BVUrem, [Abs(w, s), Abs(w, t)]), a, b, u);
  }

  lemma {:induction false} EvalUrem(m: Interp<Value>, w: nat, s: Term, t: Term, a: nat, b: nat)
    requires Standard(m) && w > 0 && a < Pow2(w) && b < Pow2(w)
    requires Eval(m, s) == BVV(w, a) && Eval(m, t) == BVV(w, b)
    ensures Eval(m, Make(BVUrem, [Abs(w, s), Abs(w, t)]))
         == BVV(w, Urem(Magnitude(Signed(w, a)), Magnitude(Signed(w, b))))
  {
    EvalAbs(m, w, s, a);
    EvalAbs(m, w, t, b);
    EvalBinary(m, BVUrem, Abs(w, s), Abs(w, t));
  }

  /** There is only one such remainder. */
  lemma FloorRemainderUnique(x: int, y: int, r: int, r': int)
    requires FloorRemainder(x, y, r) && FloorRemainder(x, y, r')
    ensures r == r'
  {
    var q: int :| x == q * y + r;
    var q': int :| x == q' * y + r';
    assert r - r' == (q' - q) * y && r' - r == (q - q') * y by {
      assert (q' - q) * y == q' * y - q * y && (q - q') * y == q * y - q' * y;
    }
    SmallMultiple(q' - q, y);
    SmallMultiple(q - q', y);
  }
}
