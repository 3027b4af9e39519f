/** What the solvers reason about: a theory fixes the operators, a model assigns the symbols. */
module Logic {
  import opened Terms

  /** Values of any kind, the operators over them, and the reading of Booleans.
      fits says which values a sort admits. */
  datatype Theory<!V> = Theory(
    truth: V -> bool,
    boolean: bool -> V,
    fits: (Sort, V) -> bool,
    value: Term -> V,
    constArray: (Sort, V) -> V,
    apply: (Op, seq<V>) -> V)

  type Model<!V> = (string, Sort) -> V

  function Leaf<V>(th: Theory<V>, m: Model<V>, t: Term): V {
    match t
    case Symbol(n, s) => m(n, s)
    case _ => th.value(t)
  }

  function InterpOf<V>(th: Theory<V>, m: Model<V>): Interp<V> {
    Interp((t: Term) => Leaf(th, m, t), th.constArray, th.apply)
  }

  predicate True<V>(th: Theory<V>, m: Model<V>, t: Term) {
    th.truth(Eval(InterpOf(th, m), t))
  }

  /** The Boolean operators are the usual ones; everything else is left to the theory. */
  ghost predicate Standard<V(!new)>(th: Theory<V>) {
    && (forall b :: th.truth(th.boolean(b)) == b && th.fits(BoolSort, th.boolean(b)))
    && (forall a, b :: th.truth(th.apply(Op(And, []), [a, b])) == (th.truth(a) && th.truth(b)))
    && (forall a, b :: th.truth(th.apply(Op(Or, []), [a, b])) == (th.truth(a) || th.truth(b)))
    && (forall a, b :: th.truth(th.apply(Op(Implies, []), [a, b])) == (th.truth(a) ==> th.truth(b)))
    && (forall a :: th.truth(th.apply(Op(Not, []), [a])) == !th.truth(a))
  }

  /** Every symbol has a value of its sort. */
  ghost predicate Fitting<V(!new)>(th: Theory<V>, m: Model<V>) {
    forall n, s :: th.fits(s, m(n, s))
  }

  ghost predicate Models<V(!new)>(th: Theory<V>, m: Model<V>, ts: set<Term>) {
    Fitting(th, m) && forall t :: t in ts ==> True(th, m, t)
  }

  ghost predicate Sat<V(!new)>(th: Theory<V>, ts: set<Term>) {
    exists m :: Models(th, m, ts)
  }

  lemma TruePair<V(!new)>(th: Theory<V>, m: Model<V>, a: Term, b: Term)
    requires Standard(th)
    ensures True(th, m, Make(And, [a, b])) == (True(th, m, a) && True(th, m, b))
    ensures True(th, m, Make(Or, [a, b])) == (True(th, m, a) || True(th, m, b))
    ensures True(th, m, Make(Implies, [a, b])) == (True(th, m, a) ==> True(th, m, b))
  {
    var i := InterpOf(th, m);
    EvalApp(i, Op(And, []), [a, b]);
    EvalApp(i, Op(Or, []), [a, b]);
    EvalApp(i, Op(Implies, []), [a, b]);
    assert EvalAll(i, [a, b]) == [Eval(i, a), Eval(i, b)];
  }

  lemma TrueNot<V(!new)>(th: Theory<V>, m: Model<V>, a: Term)
    requires Standard(th)
    ensures True(th, m, Make(Not, [a])) == !True(th, m, a)
  {
    EvalApp(InterpOf(th, m), Op(Not, []), [a]);
    assert EvalAll(InterpOf(th, m), [a]) == [Eval(InterpOf(th, m), a)];
  }

  // ----- models and sets of terms -----

  lemma SatSubset<V(!new)>(th: Theory<V>, a: set<Term>, b: set<Term>)
    requires a <= b && Sat(th, b)
    ensures Sat(th, a)
  {
    var m :| Models(th, m, b);
    assert Models(th, m, a);
  }

  /** The model m with the symbols of the given names, of Boolean sort, set as chosen. */
  function Reassign<V>(th: Theory<V>, m: Model<V>, names: set<string>, chosen: set<string>): Model<V> {
    (n: string, s: Sort) => if n in names && s == BoolSort then th.boolean(n in chosen) else m(n, s)
  }

  ghost predicate FreeOf(names: set<string>, t: Term) {
    names !! Names(t)
  }

  /** A term that does not mention the names keeps its truth. */
  lemma ReassignKeeps<V(!new)>(th: Theory<V>, m: Model<V>, names: set<string>, chosen: set<string>, t: Term)
    requires FreeOf(names, t)
    ensures True(th, Reassign(th, m, names, chosen), t) == True(th, m, t)
  {
    var m' := Reassign(th, m, names, chosen);
    forall s | s in Subterms(t) && s.IsLeaf()
      ensures Leaf(th, m, s) == Leaf(th, m', s)
    {
      if s.Symbol? {
        assert s.name in Names(t);
      }
    }
    Coincidence(InterpOf(th, m), InterpOf(th, m'), t);
  }

  lemma ReassignFits<V(!new)>(th: Theory<V>, m: Model<V>, names: set<string>, chosen: set<string>)
    requires Standard(th) && Fitting(th, m)
    ensures Fitting(th, Reassign(th, m, names, chosen))
  {
  }

  // ----- activation literals -----

  type Labels = map<Term, Term>

  predicate IsLabel(t: Term) {
    t.Symbol? && t.sort == BoolSort
  }

  ghost function LabelNames(lbl: Labels): set<string> {
    set a | a in lbl && IsLabel(lbl[a]) :: lbl[a].name
  }

  /** Each term has a label of its own, a Boolean symbol. */
  ghost predicate GoodLabels(lbl: Labels) {
    && (forall a :: a in lbl ==> IsLabel(lbl[a]))
    && (forall a, b :: a in lbl && b in lbl && lbl[a] == lbl[b] ==> a == b)
  }

  /** The terms asserted to make the labels stand for their terms. */
  function Activations(lbl: Labels, terms: set<Term>): set<Term>
    requires terms <= lbl.Keys
  {
    set a | a in terms :: Make(Implies, [lbl[a], a])
  }

  function LabelSet(lbl: Labels, terms: set<Term>): set<Term>
    requires terms <= lbl.Keys
  {
    set a | a in terms :: lbl[a]
  }

  lemma LabelTrue<V(!new)>(th: Theory<V>, m: Model<V>, names: set<string>, chosen: set<string>, l: Term)
    requires Standard(th) && IsLabel(l) && l.name in names
    ensures True(th, Reassign(th, m, names, chosen), l) <==> l.name in chosen
  {
  }

  ghost predicate AllFree(lbl: Labels, ts: set<Term>) {
    forall t :: t in ts ==> FreeOf(LabelNames(lbl), t)
  }

  /** From a model of the base and the chosen terms: set exactly the chosen labels. */
  lemma ActivateModel<V(!new)>(th: Theory<V>, m: Model<V>, base: set<Term>, lbl: Labels, terms: set<Term>,
                               chosen: set<Term>)
    requires Standard(th) && GoodLabels(lbl) && chosen <= terms <= lbl.Keys
    requires AllFree(lbl, base + terms) && Models(th, m, base + chosen)
    ensures Sat(th, base + Activations(lbl, terms) + LabelSet(lbl, chosen))
  {
    var names := LabelNames(lbl);
    var on := set a | a in chosen :: lbl[a].name;
    var m' := Reassign(th, m, names, on);
    ReassignFits(th, m, names, on);
    forall t | t in base + Activations(lbl, terms) + LabelSet(lbl, chosen)
      ensures True(th, m', t)
    {
      if t in base {
        ReassignKeeps(th, m, names, on, t);
      } else if t in LabelSet(lbl, chosen) {
        LabelTrue(th, m, names, on, t);
      } else {
        var a :| a in terms && t == Make(Implies, [lbl[a], a]);
        ActivationTrue(th, m, lbl, terms, chosen, on, a);
      }
    }
    assert Models(th, m', base + Activations(lbl, terms) + LabelSet(lbl, chosen));
  }

  lemma ActivationTrue<V(!new)>(th: Theory<V>, m: Model<V>, lbl: Labels, terms: set<Term>, chosen: set<Term>,
                                on: set<string>, a: Term)
    requires Standard(th) && GoodLabels(lbl) && chosen <= terms <= lbl.Keys && a in terms
    requires on == set c | c in chosen :: lbl[c].name
    requires FreeOf(LabelNames(lbl), a) && (a in chosen ==> True(th, m, a))
    ensures True(th, Reassign(th, m, LabelNames(lbl), on), Make(Implies, [lbl[a], a]))
  {
    var m' := Reassign(th, m, LabelNames(lbl), on);
    TruePair(th, m', lbl[a], a);
    ReassignKeeps(th, m, LabelNames(lbl), on, a);
    LabelTrue(th, m, LabelNames(lbl), on, lbl[a]);
    if lbl[a].name in on {
      var c :| c in chosen && lbl[c].name == lbl[a].name;
      assert lbl[c] == lbl[a];
    }
  }

  /** With fresh labels, assuming labels is as good as assuming the terms they stand for. */
  lemma ActivationExact<V(!new)>(th: Theory<V>, base: set<Term>, lbl: Labels, terms: set<Term>, chosen: set<Term>)
    requires Standard(th) && GoodLabels(lbl) && chosen <= terms <= lbl.Keys
    requires AllFree(lbl, base + terms)
    ensures Sat(th, base + Activations(lbl, terms) + LabelSet(lbl, chosen)) <==> Sat(th, base + chosen)
  {
    var all := base + Activations(lbl, terms) + LabelSet(lbl, chosen);
    if m :| Models(th, m, all) {
      forall t | t in base + chosen
        ensures True(th, m, t)
      {
        if t in chosen {
          TruePair(th, m, lbl[t], t);
          assert lbl[t] in all && Make(Implies, [lbl[t], t]) in all;
        }
      }
      assert Models(th, m, base + chosen);
    }
    if m :| Models(th, m, base + chosen) {
      ActivateModel(th, m, base, lbl, terms, chosen);
    }
  }
}
