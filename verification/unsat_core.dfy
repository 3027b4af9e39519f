/** UnsatCoreReducer of src/utils.cpp: both reduction loops over an exact oracle. */
module UnsatCore {
  import opened Terms
  import opened Text
  import opened Symbols
  import opened Logic
  import opened Solvers

  function Map(f: Labels, s: seq<Term>): (r: seq<Term>)
    requires AllLabelled(f, s)
    ensures |r| == |s| && forall i :: 0 <= i < |s| ==> r[i] == f[s[i]]
  {
    seq(|s|, i requires 0 <= i < |s| => f[s[i]])
  }

  /** The members of s that are in keep, in their order. */
  function Filter(s: seq<Term>, keep: set<Term>): (r: seq<Term>) {
    if s == [] then []
    else Filter(s[..|s| - 1], keep) + if s[|s| - 1] in keep then [s[|s| - 1]] else []
  }

  ghost predicate NoRepeats(s: seq<Term>) {
    forall i, j :: 0 <= i < j < |s| ==> s[i] != s[j]
  }

  lemma {:induction false} FilterMembers(s: seq<Term>, keep: set<Term>)
    ensures forall t :: t in Filter(s, keep) <==> t in s && t in keep
    ensures |Filter(s, keep)| <= |s|
    ensures (forall t :: t in s ==> t in keep) ==> Filter(s, keep) == s
    decreases |s|
  {
    if s != [] {
      FilterMembers(s[..|s| - 1], keep);
      assert s == s[..|s| - 1] + [s[|s| - 1]];
    }
  }

  lemma {:induction false} FilterShorter(s: seq<Term>, keep: set<Term>, i: nat)
    requires i < |s| && s[i] !in keep
    ensures |Filter(s, keep)| < |s|
    decreases |s|
  {
    FilterMembers(s[..|s| - 1], keep);
    if i < |s| - 1 {
      FilterShorter(s[..|s| - 1], keep, i);
    }
  }

  /** Members kept at the front stay where they are. */
  lemma {:induction false} FilterPrefix(s: seq<Term>, keep: set<Term>, n: nat)
    requires n <= |s| && forall i :: 0 <= i < n ==> s[i] in keep
    ensures n <= |Filter(s, keep)| && Filter(s, keep)[..n] == s[..n]
    decreases |s|
  {
    if n < |s| {
      FilterPrefix(s[..|s| - 1], keep, n);
      assert s[..|s| - 1][..n] == s[..n];
    } else {
      FilterMembers(s, keep);
      assert forall t :: t in s ==> t in keep;
    }
  }

  lemma {:induction false} FilterDistinct(s: seq<Term>, keep: set<Term>)
    requires NoRepeats(s)
    ensures NoRepeats(Filter(s, keep))
    decreases |s|
  {
    if s != [] {
      FilterDistinct(s[..|s| - 1], keep);
      FilterMembers(s[..|s| - 1], keep);
    }
  }

  /** What is kept and what is dropped make up the whole. */
  lemma {:induction false} FilterParts(s: seq<Term>, keep: set<Term>, drop: set<Term>)
    requires forall t :: t in s ==> (t in keep <==> t !in drop)
    ensures multiset(Filter(s, keep)) + multiset(Filter(s, drop)) == multiset(s)
    decreases |s|
  {
    if s != [] {
      var init, last := s[..|s| - 1], s[|s| - 1];
      SplitLast(s);
      assert forall t :: t in init ==> t in s;
      FilterParts(init, keep, drop);
      assert last in s;
      assert multiset(s) == multiset(init) + multiset{last};
    }
  }

  lemma LabelInSet(lbl: Labels, terms: set<Term>, a: Term)
    requires GoodLabels(lbl) && terms <= lbl.Keys && a in lbl
    ensures lbl[a] in LabelSet(lbl, terms) <==> a in terms
  {
  }

  lemma {:induction false} FilterSnoc(s: seq<Term>, t: Term, keep: set<Term>)
    ensures Filter(s + [t], keep) == Filter(s, keep) + if t in keep then [t] else []
  {
    assert (s + [t])[..|s|] == s;
  }

  ghost predicate AllLabelled(lbl: Labels, s: seq<Term>) {
    forall t :: t in s ==> t in lbl
  }

  lemma MapSnoc(lbl: Labels, s: seq<Term>, t: Term)
    requires AllLabelled(lbl, s) && t in lbl
    ensures Map(lbl, s + [t]) == Map(lbl, s) + [lbl[t]]
  {
  }

  ghost predicate FiltersAlike(lbl: Labels, s: seq<Term>, terms: set<Term>)
    requires terms <= lbl.Keys
  {
    && AllLabelled(lbl, s) && AllLabelled(lbl, Filter(s, terms))
    && Filter(Map(lbl, s), LabelSet(lbl, terms)) == Map(lbl, Filter(s, terms))
  }

  lemma FiltersAlikeSnoc(lbl: Labels, s: seq<Term>, t: Term, terms: set<Term>)
    requires GoodLabels(lbl) && terms <= lbl.Keys && FiltersAlike(lbl, s, terms) && t in lbl
    ensures FiltersAlike(lbl, s + [t], terms)
  {
    LabelInSet(lbl, terms, t);
    MapSnoc(lbl, s, t);
    FilterSnoc(Map(lbl, s), lbl[t], LabelSet(lbl, terms));
    FilterSnoc(s, t, terms);
    MapSnoc(lbl, Filter(s, terms), t);
  }

  /** Filtering the labels of terms by a set of labels is filtering the terms. */
  lemma {:induction false} FilterLabels(lbl: Labels, s: seq<Term>, terms: set<Term>)
    requires GoodLabels(lbl) && terms <= lbl.Keys && AllLabelled(lbl, s)
    ensures FiltersAlike(lbl, s, terms)
    decreases |s|
  {
    if s != [] {
      FilterLabels(lbl, s[..|s| - 1], terms);
      FiltersAlikeSnoc(lbl, s[..|s| - 1], s[|s| - 1], terms);
      assert s == s[..|s| - 1] + [s[|s| - 1]];
    }
  }

  /** The terms whose labels are in a set of labels. */
  function Labelled(lbl: Labels, among: set<Term>, labels: set<Term>): set<Term>
    requires among <= lbl.Keys
  {
    set t | t in among && lbl[t] in labels
  }

  lemma LabelledBack(lbl: Labels, among: set<Term>, labels: set<Term>)
    requires GoodLabels(lbl) && among <= lbl.Keys && labels <= LabelSet(lbl, among)
    ensures LabelSet(lbl, Labelled(lbl, among, labels)) == labels
  {
  }

  // ----- necessary members -----

  /** Leaving out any of the first n members makes the rest satisfiable with the base. */
  ghost predicate Necessary<V(!new)>(th: Theory<V>, base: set<Term>, kept: seq<Term>, n: nat) {
    n <= |kept| && forall i :: 0 <= i < n ==> Sat(th, base + (SetOf(kept) - {kept[i]}))
  }

  /** An unsatisfiable subset contains every necessary member. */
  lemma NecessaryInCore<V(!new)>(th: Theory<V>, base: set<Term>, kept: seq<Term>, n: nat, core: set<Term>)
    requires Necessary(th, base, kept, n) && core <= SetOf(kept) && !Sat(th, base + core)
    ensures forall i :: 0 <= i < n ==> kept[i] in core
  {
    forall i | 0 <= i < n
      ensures kept[i] in core
    {
      if kept[i] !in core {
        SatSubset(th, base + core, base + (SetOf(kept) - {kept[i]}));
      }
    }
  }

  /** Filtering by a core leaves the necessary members in place and necessary. */
  lemma {:induction false} NecessaryKept<V(!new)>(th: Theory<V>, base: set<Term>, kept: seq<Term>, n: nat,
                                                  core: set<Term>)
    requires Necessary(th, base, kept, n) && core <= SetOf(kept) && !Sat(th, base + core)
    ensures SetOf(Filter(kept, core)) == core
    ensures Necessary(th, base, Filter(kept, core), n)
  {
    NecessaryInCore(th, base, kept, n, core);
    FilterMembers(kept, core);
    FilterPrefix(kept, core, n);
    var kept' := Filter(kept, core);
    forall i | 0 <= i < n
      ensures Sat(th, base + (SetOf(kept') - {kept'[i]}))
    {
      assert kept'[..n][i] == kept[..n][i];
      SatSubset(th, base + (SetOf(kept') - {kept'[i]}), base + (SetOf(kept) - {kept[i]}));
    }
  }

  /** Unsatisfiable, and satisfiable once anything is left out. */
  ghost predicate MinimalCore<V(!new)>(th: Theory<V>, base: set<Term>, core: set<Term>) {
    !Sat(th, base + core) && forall k :: k < core ==> Sat(th, base + k)
  }

  lemma AllNecessary<V(!new)>(th: Theory<V>, base: set<Term>, kept: seq<Term>)
    requires Necessary(th, base, kept, |kept|) && !Sat(th, base + SetOf(kept))
    ensures MinimalCore(th, base, SetOf(kept))
  {
    forall k | k < SetOf(kept)
      ensures Sat(th, base + k)
    {
      var t :| t in SetOf(kept) && t !in k;
      var i :| 0 <= i < |kept| && kept[i] == t;
      assert k <= SetOf(kept) - {kept[i]};
      SatSubset(th, base + k, base + (SetOf(kept) - {kept[i]}));
    }
  }

  /** A filter of a filter by fewer members is a filter. */
  lemma {:induction false} FilterAgain(s: seq<Term>, keep: set<Term>, fewer: set<Term>)
    requires fewer <= keep
    ensures Filter(Filter(s, keep), fewer) == Filter(s, fewer)
    decreases |s|
  {
    if s != [] {
      var init, last := s[..|s| - 1], s[|s| - 1];
      FilterAgain(init, keep, fewer);
      if last in keep {
        FilterSnoc(Filter(init, keep), last, fewer);
      } else {
        assert Filter(s, keep) == Filter(init, keep);
      }
    }
  }

  function Without(s: seq<Term>, i: nat): (r: seq<Term>)
    requires i < |s|
    ensures |r| == |s| - 1
  {
    s[..i] + s[i + 1..]
  }

  lemma WithoutSet(s: seq<Term>, i: nat)
    requires NoRepeats(s) && i < |s|
    ensures SetOf(Without(s, i)) == SetOf(s) - {s[i]}
  {
    forall t | t in SetOf(s) - {s[i]}
      ensures t in Without(s, i)
    {
      var j :| 0 <= j < |s| && s[j] == t;
      assert Without(s, i)[if j < i then j else j - 1] == t;
    }
  }

  lemma MapWithout(lbl: Labels, s: seq<Term>, i: nat)
    requires AllLabelled(lbl, s) && i < |s|
    ensures AllLabelled(lbl, Without(s, i)) && Map(lbl, Without(s, i)) == Without(Map(lbl, s), i)
  {
  }

  lemma MapSet(lbl: Labels, s: seq<Term>)
    requires AllLabelled(lbl, s)
    ensures SetOf(Map(lbl, s)) == LabelSet(lbl, SetOf(s))
  {
    forall l | l in LabelSet(lbl, SetOf(s))
      ensures l in Map(lbl, s)
    {
      var a :| a in s && lbl[a] == l;
      var i :| 0 <= i < |s| && s[i] == a;
      assert Map(lbl, s)[i] == l;
    }
  }

  // ----- what the oracle's answers lead to -----

  /** What the queries of a reduction depend on. */
  datatype Session = Session(oracle: Oracle, asserted: set<Term>, labels: Labels)

  /** The terms whose labels are in the core of a query over their labels. */
  ghost function CoreOf(q: Session, terms: set<Term>): set<Term>
    requires terms <= q.labels.Keys
  {
    Labelled(q.labels, terms, q.oracle.core(q.asserted, LabelSet(q.labels, terms)))
  }

  /** The candidates after n queries, each of which drops those whose labels are not in the core. */
  ghost function Rounds(q: Session, n: nat, cand: seq<Term>): (r: seq<Term>)
    requires AllLabelled(q.labels, cand)
    ensures AllLabelled(q.labels, r)
  {
    if n == 0 then cand
    else
      var before := Rounds(q, n - 1, cand);
      FilterMembers(before, CoreOf(q, SetOf(before)));
      Filter(before, CoreOf(q, SetOf(before)))
  }

  /** Another query would drop nothing. */
  ghost predicate Settled(q: Session, cand: seq<Term>) {
    AllLabelled(q.labels, cand) && Filter(cand, CoreOf(q, SetOf(cand))) == cand
  }

  /** The core that the oracle gives for all the labels is then all of them. */
  lemma SettledCore<V(!new)>(th: Theory<V>, q: Session, cand: seq<Term>)
    requires Exact(th, q.oracle) && GoodLabels(q.labels) && Settled(q, cand)
    requires !q.oracle.sat(q.asserted, LabelSet(q.labels, SetOf(cand)))
    ensures q.oracle.core(q.asserted, LabelSet(q.labels, SetOf(cand))) == LabelSet(q.labels, SetOf(cand))
  {
    assert ExactAt(th, q.oracle, q.asserted, LabelSet(q.labels, SetOf(cand)));
    FilterMembers(cand, CoreOf(q, SetOf(cand)));
    LabelledBack(q.labels, SetOf(cand), q.oracle.core(q.asserted, LabelSet(q.labels, SetOf(cand))));
    assert CoreOf(q, SetOf(cand)) == SetOf(cand);
  }

  /** Nothing changes any more. */
  lemma {:induction false} RoundsStay(q: Session, n: nat, k: nat, cand: seq<Term>)
    requires AllLabelled(q.labels, cand) && k <= n && Settled(q, Rounds(q, k, cand))
    ensures Rounds(q, n, cand) == Rounds(q, k, cand)
  {
    if k < n {
      RoundsStay(q, n - 1, k, cand);
    }
  }

  /** As many queries as there are candidates are enough to settle. */
  lemma {:induction false} RoundsSettle(q: Session, n: nat, cand: seq<Term>)
    requires AllLabelled(q.labels, cand)
    ensures Settled(q, Rounds(q, n, cand)) || |Rounds(q, n, cand)| + n <= |cand|
    ensures n >= |cand| ==> Settled(q, Rounds(q, n, cand))
  {
    if n > 0 {
      RoundsSettle(q, n - 1, cand);
      var before := Rounds(q, n - 1, cand);
      FilterMembers(before, CoreOf(q, SetOf(before)));
      if !Settled(q, before) {
        FilterStays(before, CoreOf(q, SetOf(before)));
      }
    }
    FilterMembers(Rounds(q, n, cand), CoreOf(q, SetOf(Rounds(q, n, cand))));
  }

  /** The loop may stop at the first query that drops nothing. */
  lemma RoundsStop(q: Session, iter: nat, n: nat, cand: seq<Term>)
    requires AllLabelled(q.labels, cand) && n > 0 && (iter == 0 || n <= iter)
    requires |Rounds(q, n, cand)| == |Rounds(q, n - 1, cand)|
    ensures Rounds(q, n - 1, cand) == Rounds(q, Limit(iter, cand), cand)
  {
    RoundsSame(q, n, cand);
    if n - 1 <= Limit(iter, cand) {
      RoundsStay(q, Limit(iter, cand), n - 1, cand);
    } else {
      RoundsSettle(q, |cand|, cand);
      RoundsStay(q, n - 1, |cand|, cand);
    }
  }

  lemma RoundsSame(q: Session, n: nat, cand: seq<Term>)
    requires AllLabelled(q.labels, cand) && n > 0 && |Rounds(q, n, cand)| == |Rounds(q, n - 1, cand)|
    ensures Settled(q, Rounds(q, n - 1, cand))
  {
    var before := Rounds(q, n - 1, cand);
    FilterStays(before, CoreOf(q, SetOf(before)));
  }

  /** A filter that keeps the length keeps everything. */
  lemma {:induction false} FilterStays(cand: seq<Term>, keep: set<Term>)
    ensures |Filter(cand, keep)| <= |cand|
    ensures |Filter(cand, keep)| == |cand| ==> Filter(cand, keep) == cand && forall t :: t in cand ==> t in keep
  {
    FilterMembers(cand, keep);
    if i :| 0 <= i < |cand| && cand[i] !in keep {
      FilterShorter(cand, keep, i);
    }
  }

  /** With fresh labels asserted to imply their terms, a query over labels decides the terms, and the terms of its
      core are unsatisfiable with the base. */
  lemma CoreExact<V(!new)>(th: Theory<V>, q: Session, base: set<Term>, cand: set<Term>, terms: set<Term>)
    requires Standard(th) && Exact(th, q.oracle) && Activated(q.labels, q.asserted, base, cand) && terms <= cand
    ensures q.oracle.sat(q.asserted, LabelSet(q.labels, terms)) == Sat(th, base + terms)
    ensures !Sat(th, base + terms) ==> CoreOf(q, terms) <= terms && !Sat(th, base + CoreOf(q, terms))
  {
    var labels := LabelSet(q.labels, terms);
    assert ExactAt(th, q.oracle, q.asserted, labels);
    ActivationExact(th, base, q.labels, cand, terms);
    if !q.oracle.sat(q.asserted, labels) {
      LabelledBack(q.labels, terms, q.oracle.core(q.asserted, labels));
      ActivationExact(th, base, q.labels, cand, CoreOf(q, terms));
    }
  }

  /** The candidates after each of some queries. */
  ghost predicate Traced(q: Session, trace: seq<seq<Term>>) {
    trace != [] && forall i :: 0 < i < |trace| ==> TracedAt(q, trace, i)
  }

  ghost predicate TracedAt(q: Session, trace: seq<seq<Term>>, i: nat)
    requires 0 < i < |trace|
  {
    AllLabelled(q.labels, trace[i - 1]) && trace[i] == Filter(trace[i - 1], CoreOf(q, SetOf(trace[i - 1])))
  }

  /** The trace begins with some candidates and ends with others. */
  ghost predicate Leads(q: Session, trace: seq<seq<Term>>, all: seq<Term>, cand: seq<Term>) {
    Traced(q, trace) && trace[0] == all && trace[|trace| - 1] == cand
  }

  /** The last query dropped nothing. */
  ghost predicate Repeats(trace: seq<seq<Term>>) {
    |trace| > 1 && trace[|trace| - 2] == trace[|trace| - 1]
  }

  lemma TracedStart(q: Session, all: seq<Term>)
    ensures Leads(q, [all], all, all)
  {
  }

  lemma TracedNext(q: Session, trace: seq<seq<Term>>, all: seq<Term>, local: seq<Term>)
    requires Traced(q, trace) && trace[0] == all && AllLabelled(q.labels, trace[|trace| - 1])
    requires local == Filter(trace[|trace| - 1], CoreOf(q, SetOf(trace[|trace| - 1])))
    ensures Leads(q, trace + [local], all, local)
    ensures local == trace[|trace| - 1] ==> Repeats(trace + [local])
  {
    forall i | 0 < i <= |trace|
      ensures TracedAt(q, trace + [local], i)
    {
      if i < |trace| {
        assert TracedAt(q, trace, i);
      }
    }
  }

  /** Where a trace leads. */
  lemma {:induction false} TracedRounds(q: Session, trace: seq<seq<Term>>, n: nat)
    requires Traced(q, trace) && AllLabelled(q.labels, trace[0]) && n < |trace|
    ensures trace[n] == Rounds(q, n, trace[0])
  {
    if n > 0 {
      TracedRounds(q, trace, n - 1);
      assert TracedAt(q, trace, n);
    }
  }

  /** Whether the loop ended at the limit or at a round that dropped nothing. */
  lemma {:induction false} TracedLimit(q: Session, trace: seq<seq<Term>>, all: seq<Term>, cand: seq<Term>, iter: nat)
    requires Leads(q, trace, all, cand) && AllLabelled(q.labels, all) && (iter == 0 || |trace| - 1 <= iter)
    requires |trace| - 1 == iter > 0 || Repeats(trace)
    ensures cand == Rounds(q, Limit(iter, all), all)
  {
    var n := |trace| - 1;
    TracedRounds(q, trace, n);
    if n != iter || iter == 0 {
      TracedRounds(q, trace, n - 1);
      RoundsStop(q, iter, n, all);
    }
  }

  /** The candidates left are those after as many rounds as the limit allows. */
  ghost predicate ReducedBy(q: Session, all: seq<Term>, iter: nat, kept: seq<Term>) {
    AllLabelled(q.labels, all) && kept == Rounds(q, Limit(iter, all), all)
  }

  /** Without a limit, or with one that is large enough, the core of the labels left is all of them. */
  lemma ReducedSettled<V(!new)>(th: Theory<V>, q: Session, all: seq<Term>, iter: nat, kept: seq<Term>)
    requires Exact(th, q.oracle) && GoodLabels(q.labels) && ReducedBy(q, all, iter, kept)
    requires iter == 0 || iter >= |all|
    ensures Settled(q, kept)
    ensures AllLabelled(q.labels, kept) && (!q.oracle.sat(q.asserted, LabelSet(q.labels, SetOf(kept))) ==>
      q.oracle.core(q.asserted, LabelSet(q.labels, SetOf(kept))) == LabelSet(q.labels, SetOf(kept)))
  {
    RoundsSettle(q, Limit(iter, all), all);
    if !q.oracle.sat(q.asserted, LabelSet(q.labels, SetOf(kept))) {
      SettledCore(th, q, kept);
    }
  }

  // ----- what is left need not be minimal -----

  /** Whatever unsatisfiable candidates it is given, the reduction without a limit ends with a minimal core. */
  ghost predicate AlwaysMinimal<V(!new)>(th: Theory<V>, q: Session, base: set<Term>, given: set<Term>)
    requires given <= q.labels.Keys
  {
    forall all :: ToReduce(th, q, base, given, all) ==> MinimalCore(th, base, SetOf(Rounds(q, Limit(0, all), all)))
  }

  ghost predicate ToReduce<V(!new)>(th: Theory<V>, q: Session, base: set<Term>, given: set<Term>, all: seq<Term>) {
    AllLabelled(q.labels, all) && SetOf(all) <= given && !Sat(th, base + SetOf(all))
  }

  /** Candidates that the oracle gives back whole are a minimal core. */
  ghost predicate SettledMinimal<V(!new)>(th: Theory<V>, q: Session, base: set<Term>, given: set<Term>) {
    forall cand :: ToReduce(th, q, base, given, cand) && Settled(q, cand) ==> MinimalCore(th, base, SetOf(cand))
  }

  /** The reduction without a limit gives minimal cores exactly when the oracle gives back whole only those. */
  lemma MinimalExactlyWhen<V(!new)>(th: Theory<V>, q: Session, base: set<Term>, given: set<Term>)
    requires Standard(th) && Exact(th, q.oracle) && Activated(q.labels, q.asserted, base, given)
    ensures AlwaysMinimal(th, q, base, given) <==> SettledMinimal(th, q, base, given)
  {
    forall all | ToReduce(th, q, base, given, all)
      ensures var r := Rounds(q, Limit(0, all), all); ToReduce(th, q, base, given, r) && Settled(q, r)
      ensures Settled(q, all) ==> Rounds(q, Limit(0, all), all) == all
    {
      RoundsSettle(q, |all|, all);
      RoundsExact(th, q, base, given, all, |all|);
      if Settled(q, all) {
        RoundsStay(q, |all|, 0, all);
      }
    }
  }

  /** Unsatisfiable candidates stay so. */
  lemma {:induction false} RoundsExact<V(!new)>(th: Theory<V>, q: Session, base: set<Term>, given: set<Term>,
                                                all: seq<Term>, n: nat)
    requires Standard(th) && Exact(th, q.oracle) && Activated(q.labels, q.asserted, base, given)
    requires ToReduce(th, q, base, given, all)
    ensures ToReduce(th, q, base, given, Rounds(q, n, all))
  {
    if n > 0 {
      RoundsExact(th, q, base, given, all, n - 1);
      RoundExact(th, q, base, given, Rounds(q, n - 1, all));
    }
  }

  lemma {:induction false} RoundExact<V(!new)>(th: Theory<V>, q: Session, base: set<Term>, given: set<Term>,
                                               cand: seq<Term>)
    requires Standard(th) && Exact(th, q.oracle) && Activated(q.labels, q.asserted, base, given)
    requires ToReduce(th, q, base, given, cand)
    ensures ToReduce(th, q, base, given, Filter(cand, CoreOf(q, SetOf(cand))))
  {
    var core := CoreOf(q, SetOf(cand));
    CoreExact(th, q, base, given, SetOf(cand));
    FilterMembers(cand, core);
    assert SetOf(Filter(cand, core)) == core;
  }

  /** An oracle whose cores are all of the assumptions. */
  ghost function LazyOracle<V(!new)>(th: Theory<V>): Oracle {
    Oracle((asserted, assumed) => Sat(th, asserted + assumed), (asserted, assumed) => assumed)
  }

  lemma LazyExact<V(!new)>(th: Theory<V>)
    ensures Exact(th, LazyOracle(th))
  {
    forall asserted, assumed
      ensures ExactAt(th, LazyOracle(th), asserted, assumed)
    {
    }
  }

  /** With it nothing is ever dropped. */
  lemma LazyKeepsAll<V(!new)>(th: Theory<V>, q: Session, all: seq<Term>)
    requires AllLabelled(q.labels, all) && q.oracle == LazyOracle(th)
    ensures ReducedBy(q, all, 0, all)
  {
    assert q.oracle.core(q.asserted, LabelSet(q.labels, SetOf(all))) == LabelSet(q.labels, SetOf(all));
    assert CoreOf(q, SetOf(all)) == SetOf(all);
    FilterMembers(all, SetOf(all));
    RoundsStay(q, |all|, 0, all);
  }

  lemma Contradictory<V(!new)>(th: Theory<V>, base: set<Term>, x: Term)
    requires Standard(th)
    ensures !Sat(th, base + {x, Make(Not, [x])})
  {
    var both := base + {x, Make(Not, [x])};
    assert x in both && Make(Not, [x]) in both;
    forall m
      ensures !Models(th, m, both)
    {
      TrueNot(th, m, x);
    }
  }

  /** x, not x and y are all kept then, although y is not needed. */
  lemma NotMinimal<V(!new)>(th: Theory<V>, q: Session, base: set<Term>, x: Term, y: Term)
    requires Standard(th) && q.oracle == LazyOracle(th)
    requires AllLabelled(q.labels, [x, Make(Not, [x]), y]) && y != x && y != Make(Not, [x])
    ensures Exact(th, q.oracle) && ReducedBy(q, [x, Make(Not, [x]), y], 0, [x, Make(Not, [x]), y])
    ensures !Sat(th, base + {x, Make(Not, [x]), y}) && !MinimalCore(th, base, {x, Make(Not, [x]), y})
  {
    LazyExact(th);
    LazyKeepsAll(th, q, [x, Make(Not, [x]), y]);
    Contradictory(th, base, x);
    var less, all := {x, Make(Not, [x])}, {x, Make(Not, [x]), y};
    assert less < all;
    if Sat(th, base + all) {
      SatSubset(th, base + less, base + all);
    }
  }

  /** How far the linear reduction is: the candidates still assumed, and the position to try next. */
  datatype Progress = Progress(kept: seq<Term>, pos: nat)

  /** One query without the candidate at the position: it stays when the query is satisfiable, and otherwise only
      the core of the query does. */
  ghost function Tried(q: Session, p: Progress): (r: Progress)
    requires AllLabelled(q.labels, p.kept)
    ensures AllLabelled(q.labels, r.kept)
  {
    if p.pos >= |p.kept| then p
    else
      var rest := Without(p.kept, p.pos);
      FilterMembers(p.kept, CoreOf(q, SetOf(rest)));
      if q.oracle.sat(q.asserted, LabelSet(q.labels, SetOf(rest))) then p.(pos := p.pos + 1)
      else p.(kept := Filter(p.kept, CoreOf(q, SetOf(rest))))
  }

  ghost function TriedTimes(q: Session, n: nat, p: Progress): (r: Progress)
    requires AllLabelled(q.labels, p.kept)
    ensures AllLabelled(q.labels, r.kept)
  {
    if n == 0 then p else Tried(q, TriedTimes(q, n - 1, p))
  }

  lemma {:induction false} TriedStays(q: Session, n: nat, k: nat, p: Progress)
    requires AllLabelled(q.labels, p.kept) && k <= n
    requires var r := TriedTimes(q, k, p); r.pos >= |r.kept|
    ensures TriedTimes(q, n, p) == TriedTimes(q, k, p)
  {
    if k < n {
      TriedStays(q, n - 1, k, p);
    }
  }

  /** The steps of a linear reduction. */
  ghost predicate Trying(q: Session, trace: seq<Progress>) {
    trace != [] && forall i :: 0 < i < |trace| ==> TryingAt(q, trace, i)
  }

  ghost predicate TryingAt(q: Session, trace: seq<Progress>, i: nat)
    requires 0 < i < |trace|
  {
    AllLabelled(q.labels, trace[i - 1].kept) && trace[i] == Tried(q, trace[i - 1])
  }

  ghost predicate TryingTo(q: Session, trace: seq<Progress>, all: seq<Term>, p: Progress) {
    Trying(q, trace) && trace[0] == Progress(all, 0) && trace[|trace| - 1] == p
  }

  lemma TryingStart(q: Session, all: seq<Term>)
    ensures TryingTo(q, [Progress(all, 0)], all, Progress(all, 0))
  {
  }

  lemma TryingNext(q: Session, trace: seq<Progress>, all: seq<Term>, p: Progress, p': Progress)
    requires TryingTo(q, trace, all, p) && AllLabelled(q.labels, p.kept) && p' == Tried(q, p)
    ensures TryingTo(q, trace + [p'], all, p')
  {
    forall i | 0 < i <= |trace|
      ensures TryingAt(q, trace + [p'], i)
    {
      if i < |trace| {
        assert TryingAt(q, trace, i);
      }
    }
  }

  lemma {:induction false} TryingTimes(q: Session, trace: seq<Progress>, all: seq<Term>, n: nat)
    requires Trying(q, trace) && trace[0] == Progress(all, 0) && AllLabelled(q.labels, all) && n < |trace|
    ensures trace[n] == TriedTimes(q, n, Progress(all, 0))
  {
    if n > 0 {
      TryingTimes(q, trace, all, n - 1);
      assert TryingAt(q, trace, n);
    }
  }

  /** How many queries the linear reduction makes at most. */
  function LinearLimit(iter: nat, all: seq<Term>): nat {
    if iter == 0 then |all| else iter + 1
  }

  /** The candidates left are those after as many queries as the limit allows. */
  ghost predicate LinearlyReducedBy(q: Session, all: seq<Term>, iter: nat, kept: seq<Term>) {
    AllLabelled(q.labels, all) && kept == TriedTimes(q, LinearLimit(iter, all), Progress(all, 0)).kept
  }

  /** The loop ends at the limit, or when every position has been tried. */
  lemma TryingLimit(q: Session, trace: seq<Progress>, all: seq<Term>, p: Progress, iter: nat)
    requires TryingTo(q, trace, all, p) && AllLabelled(q.labels, all)
    requires |trace| - 1 <= LinearLimit(iter, all) && (|trace| - 1 == LinearLimit(iter, all) || p.pos >= |p.kept|)
    ensures LinearlyReducedBy(q, all, iter, p.kept)
  {
    var n := |trace| - 1;
    TryingTimes(q, trace, all, n);
    if p.pos >= |p.kept| {
      TriedStays(q, LinearLimit(iter, all), n, Progress(all, 0));
    }
  }

  /** How many queries are made at most; a limit of zero is none. */
  function Limit(iter: nat, all: seq<Term>): nat {
    if iter == 0 then |all| else iter
  }

  /** Some first candidates are necessary: all of them, or as many that, with those that were dropped, there is one
      for each of the queries allowed by the limit. */
  ghost predicate NecessaryUpTo<V(!new)>(th: Theory<V>, base: set<Term>, all: seq<Term>, kept: seq<Term>, iter: nat) {
    exists p: nat :: Necessary(th, base, kept, p) && (p == |kept| || (iter > 0 && p + |all| - |kept| > iter))
  }

  /** Without a limit, or with one that allows a query for each candidate, what is left is a minimal core. */
  lemma NecessaryMinimal<V(!new)>(th: Theory<V>, base: set<Term>, all: seq<Term>, kept: seq<Term>, iter: nat)
    requires NecessaryUpTo(th, base, all, kept, iter) && !Sat(th, base + SetOf(kept))
    requires iter == 0 || iter + 1 >= |all|
    ensures MinimalCore(th, base, SetOf(kept))
  {
    AllNecessary(th, base, kept);
  }

  // ----- the reducer -----

  /** What stays fixed while a loop runs: the base with the activations of the candidates is
      asserted, and no label occurs in the base or in a candidate. */
  ghost predicate Activated(lbl: Labels, asserted: set<Term>, base: set<Term>, cand: set<Term>) {
    && GoodLabels(lbl) && cand <= lbl.Keys
    && asserted == base + Activations(lbl, cand)
    && AllFree(lbl, base + cand)
  }

  /** More labels, and more declared symbols: labels are kept, and the names of new ones were not declared. */
  ghost predicate Grown(lbl: Labels, declared: set<string>, lbl': Labels, declared': set<string>) {
    && (forall a :: a in lbl ==> a in lbl' && lbl'[a] == lbl[a])
    && declared <= declared'
    && forall n :: n in LabelNames(lbl') ==> n in LabelNames(lbl) || n !in declared
  }

  lemma GrownFurther(l0: Labels, d0: set<string>, l1: Labels, d1: set<string>, l2: Labels, d2: set<string>)
    requires Grown(l0, d0, l1, d1) && Grown(l1, d1, l2, d2)
    ensures Grown(l0, d0, l2, d2)
  {
  }

  /** Terms over declared symbols that are no labels. */
  ghost predicate Known(lbl: Labels, declared: set<string>, ts: set<Term>) {
    forall t :: t in ts ==> Names(t) <= declared && FreeOf(LabelNames(lbl), t)
  }

  lemma KnownStaysFree(lbl: Labels, declared: set<string>, lbl': Labels, declared': set<string>, ts: set<Term>)
    requires Grown(lbl, declared, lbl', declared') && Known(lbl, declared, ts)
    ensures AllFree(lbl', ts)
  {
  }

  class UnsatCoreReducer<V(!new)> {
    const solver: Solver<V>
    const transfer: Term -> Term
    const hash: Term -> nat
    var labels: Labels

    constructor (solver: Solver<V>, transfer: Term -> Term, hash: Term -> nat)
      requires solver.Valid()
      ensures Valid() && this.solver == solver && this.transfer == transfer && this.hash == hash && labels == map[]
    {
      this.solver, this.transfer, this.hash, labels := solver, transfer, hash, map[];
    }

    ghost predicate Valid()
      reads this`labels, solver`levels, solver.symbols
    {
      solver.Valid() && GoodLabels(labels) && LabelNames(labels) <= solver.symbols.declared
    }

    function Transferred(s: seq<Term>): (r: seq<Term>)
      ensures |r| == |s| && forall i :: 0 <= i < |s| ==> r[i] == transfer(s[i])
    {
      seq(|s|, i requires 0 <= i < |s| => transfer(s[i]))
    }

    /** The label of a term: the one it has, or a fresh symbol. */
    method Label(t: Term) returns (l: Term)
      requires Valid()
      modifies this`labels, solver.symbols
      ensures Valid() && t in labels && l == labels[t]
      ensures labels == old(labels)[t := l]
      ensures if t in old(labels) then l == old(labels)[t]
        else l == Symbol(FreshName(old(solver.symbols.declared), "assump_" + Decimal(hash(t)) + "_", 0), BoolSort)
      ensures Grown(old(labels), old(solver.symbols.declared), labels, solver.symbols.declared)
    {
      if t in labels {
        return labels[t];
      }
      l := solver.symbols.MakeFresh("assump_" + Decimal(hash(t)) + "_", 0, BoolSort);
      labels := labels[t := l];
      assert LabelNames(labels) <= old(LabelNames(labels)) + {l.name};
    }

    ghost predicate TakesBack(toExt: Labels, assump: seq<Term>) {
      forall t :: t in toExt ==> transfer(toExt[t]) == t && toExt[t] in assump
    }

    /** The translated assumptions, and the way back. */
    method TransferAll(assump: seq<Term>) returns (cand: seq<Term>, toExt: Labels)
      ensures cand == Transferred(assump) && toExt.Keys == SetOf(cand)
      ensures TakesBack(toExt, assump)
    {
      cand, toExt := [], map[];
      for i := 0 to |assump|
        invariant cand == Transferred(assump)[..i] && toExt.Keys == SetOf(cand)
        invariant TakesBack(toExt, assump)
      {
        var t := transfer(assump[i]);
        cand := cand + [t];
        toExt := toExt[t := assump[i]];
      }
    }

    /** The label of one more candidate, asserted to imply it. */
    method LabelNext(t: Term) returns (l: Term)
      requires Valid()
      modifies this`labels, solver`levels, solver.symbols
      ensures Valid() && t in labels && l == labels[t]
      ensures Grown(old(labels), old(solver.symbols.declared), labels, solver.symbols.declared)
      ensures solver.Asserted() == old(solver.Asserted()) + {Make(Implies, [l, t])}
      ensures SameBelow(old(solver.levels), solver.levels)
    {
      l := Label(t);
      solver.Assert(Make(Implies, [l, t]));
    }

    /** One step of the loop that labels the candidates. */
    method LabelOne(t: Term, boolAssump: seq<Term>, labelToCand: Labels,
                    ghost l0: Labels, ghost d0: set<string>, ghost base: set<Term>, ghost done: seq<Term>)
      returns (boolAssump': seq<Term>, labelToCand': Labels)
      requires Valid() && Grown(l0, d0, labels, solver.symbols.declared)
      requires Labelling(labels, solver.Asserted(), base, done, boolAssump, labelToCand)
      modifies this`labels, solver`levels, solver.symbols
      ensures Valid() && Grown(l0, d0, labels, solver.symbols.declared)
      ensures SameBelow(old(solver.levels), solver.levels)
      ensures Labelling(labels, solver.Asserted(), base, done + [t], boolAssump', labelToCand')
    {
      ghost var l1, d1, a1 := labels, solver.symbols.declared, solver.Asserted();
      var l := LabelNext(t);
      GrownFurther(l0, d0, l1, d1, labels, solver.symbols.declared);
      LabellingNext(l1, labels, a1, base, done, boolAssump, labelToCand, t);
      boolAssump' := boolAssump + [l];
      labelToCand' := if l in labelToCand then labelToCand else labelToCand[l := t];
    }

    /** Labels the candidates and asserts that each label implies its candidate. */
    method LabelAll(cand: seq<Term>) returns (boolAssump: seq<Term>, labelToCand: Labels)
      requires Valid() && Known(labels, solver.symbols.declared, solver.Asserted() + SetOf(cand))
      modifies this`labels, solver`levels, solver.symbols
      ensures Valid() && AllLabelled(labels, cand) && boolAssump == Map(labels, cand)
      ensures SameBelow(old(solver.levels), solver.levels)
      ensures Activated(labels, solver.Asserted(), old(solver.Asserted()), SetOf(cand))
      ensures BackOn(labelToCand, labels, cand)
    {
      boolAssump, labelToCand := [], map[];
      ghost var base, l0, d0 := solver.Asserted(), labels, solver.symbols.declared;
      assert cand[..0] == [];
      assert base + Activations(labels, {}) == base;
      for i := 0 to |cand|
        invariant Valid() && Grown(l0, d0, labels, solver.symbols.declared)
        invariant SameBelow(old(solver.levels), solver.levels)
        invariant Labelling(labels, solver.Asserted(), base, cand[..i], boolAssump, labelToCand)
      {
        TakeNext(cand, i);
        boolAssump, labelToCand := LabelOne(cand[i], boolAssump, labelToCand, l0, d0, base, cand[..i]);
      }
      TakeAll(cand);
      KnownStaysFree(l0, d0, labels, solver.symbols.declared, base + SetOf(cand));
    }

    /** What the next query depends on. */
    ghost function Here(): Session
      reads this`labels, solver`levels
    {
      Session(solver.oracle, solver.Asserted(), labels)
    }

    /** What the queries of a reduction depend on, once its candidates are labelled. */
    ghost function Asked(base: set<Term>, given: set<Term>): Session
      reads this`labels
    {
      Session(solver.oracle, base + Activations(labels, given * labels.Keys), labels)
    }

    /** A query over labels, and what it says about the terms they stand for. */
    method CheckLabels(query: seq<Term>, ghost base: set<Term>, ghost cand: set<Term>, ghost kept: seq<Term>)
      returns (sat: bool, ghost core: set<Term>)
      requires Valid() && Activated(labels, solver.Asserted(), base, cand)
      requires SetOf(kept) <= cand && AllLabelled(labels, kept) && query == Map(labels, kept)
      modifies solver`core
      ensures Valid() && sat == Sat(solver.th, base + SetOf(kept))
      ensures !sat ==> core <= SetOf(kept) && !Sat(solver.th, base + core) && solver.core == LabelSet(labels, core)
      ensures sat == solver.oracle.sat(solver.Asserted(), LabelSet(labels, SetOf(kept)))
      ensures !sat ==> core == CoreOf(Here(), SetOf(kept))
    {
      sat := solver.CheckSatAssuming(query);
      MapSet(labels, kept);
      CoreExact(solver.th, Here(), base, cand, SetOf(kept));
      core := Labelled(labels, SetOf(kept), solver.core);
      if !sat {
        LabelledBack(labels, SetOf(kept), solver.core);
      }
    }

    // ----- what both reductions establish -----

    /** Every term of the call belongs to the solver and mentions no label of an earlier call. */
    ghost predicate Ready(formula: Term, assump: seq<Term>)
      reads this, solver, solver.symbols
    {
      Valid() && Known(labels, solver.symbols.declared,
                       solver.Asserted() + {transfer(formula)} + SetOf(Transferred(assump)))
    }

    /** Pushes, asserts the formula, and checks it alone. */
    method Enter(formula: Term) returns (sat: bool)
      requires Valid()
      modifies solver`levels
      ensures Valid() && solver.levels != [] && solver.levels[..|solver.levels| - 1] == old(solver.levels)
      ensures solver.Asserted() == old(solver.Asserted()) + {transfer(formula)}
      ensures sat == Sat(solver.th, solver.Asserted())
    {
      solver.Push();
      solver.Assert(transfer(formula));
      sat := solver.CheckSat();
    }

    method External(toExt: Labels, kept: seq<Term>, ghost assump: seq<Term>) returns (out: seq<Term>)
      requires SetOf(kept) <= toExt.Keys && TakesBack(toExt, assump)
      ensures Transferred(out) == kept && SetOf(out) <= SetOf(assump)
    {
      out := [];
      for i := 0 to |kept|
        invariant Transferred(out) == kept[..i] && SetOf(out) <= SetOf(assump)
      {
        assert kept[i] in kept;
        out := out + [toExt[kept[i]]];
      }
    }

    /** The core of reduce_assump_unsatcore: keep the candidates whose labels are in the core. */
    method Keep(cand: seq<Term>, core: set<Term>, ghost coreTerms: set<Term>)
      returns (localAssump: seq<Term>, boolAssump: seq<Term>, removed: seq<Term>)
      requires AllLabelled(labels, cand) && GoodLabels(labels)
      requires coreTerms <= SetOf(cand) && core == LabelSet(labels, coreTerms)
      ensures localAssump == Filter(cand, coreTerms) && AllLabelled(labels, localAssump)
      ensures boolAssump == Map(labels, localAssump)
      ensures multiset(localAssump) + multiset(removed) == multiset(cand)
    {
      localAssump, boolAssump, removed := [], [], [];
      assert cand[..0] == [];
      for i := 0 to |cand|
        invariant Keeping(labels, cand[..i], coreTerms, localAssump, boolAssump, removed)
      {
        var a := cand[i];
        assert cand[..i + 1] == cand[..i] + [a] && a in cand;
        KeepNext(labels, cand[..i], coreTerms, localAssump, boolAssump, removed, a);
        if labels[a] in core {
          localAssump, boolAssump := localAssump + [a], boolAssump + [labels[a]];
        } else {
          removed := removed + [a];
        }
      }
      TakeAll(cand);
    }

    /** One round: the query over the labels of the candidates, and those that its core leaves. */
    method ReduceStep(ghost all: seq<Term>, query: seq<Term>, cand: seq<Term>, ghost trace: seq<seq<Term>>,
                      ghost base: set<Term>, ghost given: set<Term>)
      returns (sat: bool, local: seq<Term>, query': seq<Term>, gone: seq<Term>, ghost trace': seq<seq<Term>>)
      requires Valid() && Activated(labels, solver.Asserted(), base, given)
      requires AllLabelled(labels, cand) && query == Map(labels, cand) && SetOf(cand) <= given
      requires Leads(Here(), trace, all, cand)
      modifies solver`core
      ensures Valid() && sat == Sat(solver.th, base + SetOf(cand))
      ensures !sat ==> AllLabelled(labels, local) && query' == Map(labels, local) && SetOf(local) <= given
      ensures !sat ==> !Sat(solver.th, base + SetOf(local))
      ensures !sat ==> Leads(Here(), trace', all, local) && |trace'| == |trace| + 1
      ensures !sat ==> multiset(local) + multiset(gone) == multiset(cand) && |local| <= |cand|
      ensures !sat && |local| == |cand| ==> local == cand && gone == [] && Repeats(trace')
    {
      ghost var core;
      sat, core := CheckLabels(query, base, given, cand);
      local, query', gone, trace' := [], [], [], trace;
      if !sat {
        local, query', gone := Keep(cand, solver.core, core);
        FilterMembers(cand, core);
        assert SetOf(local) == core;
        FilterStays(cand, core);
        TracedNext(Here(), trace, all, local);
        trace' := trace + [local];
        if |local| == |cand| {
          FilterNothing(cand, core, gone);
        }
      }
    }

    /** The loop of reduce_assump_unsatcore; satisfiable tells the exit where nothing can be reduced. The trace holds
        the candidates after each round. */
    method ReduceLoop(all: seq<Term>, query: seq<Term>, iter: nat, ghost base: set<Term>)
      returns (satisfiable: bool, cand: seq<Term>, removed: seq<Term>, ghost trace: seq<seq<Term>>)
      requires Valid() && Activated(labels, solver.Asserted(), base, SetOf(all))
      requires AllLabelled(labels, all) && query == Map(labels, all)
      modifies solver`core
      ensures Valid() && ReducedTo(solver.th, base, all, satisfiable, cand, removed)
      ensures !satisfiable ==> Leads(Here(), trace, all, cand) && (iter == 0 || |trace| - 1 <= iter)
      ensures !satisfiable ==> |trace| - 1 == iter > 0 || Repeats(trace)
    {
      cand, removed, trace := all, [], [all];
      var boolAssump, curIter, first := query, 0, true;
      TracedStart(Here(), all);
      while iter == 0 || curIter < iter
        invariant Valid() && (first ==> curIter == 0) && |trace| == curIter + 1 && (iter > 0 ==> curIter <= iter)
        invariant AllLabelled(labels, cand) && boolAssump == Map(labels, cand)
        invariant Leads(Here(), trace, all, cand)
        invariant Reducing(solver.th, base, SetOf(all), all, cand, removed, first)
        decreases |cand|, if first then 1 else 0, iter - curIter
      {
        curIter := curIter + 1;
        var sat, local, gone;
        sat, local, boolAssump, gone, trace := ReduceStep(all, boolAssump, cand, trace, base, SetOf(all));
        if first && sat {
          return true, cand, removed, trace;
        }
        assert !sat;
        ReduceNext(solver.th, base, SetOf(all), all, cand, removed, first, local, gone);
        removed, first := removed + gone, false;
        if |local| == |cand| {
          break;
        }
        cand := local;
      }
      satisfiable := false;
    }

    /** Labels the candidates and runs the loop on them. */
    method ReduceCandidates(all: seq<Term>, iter: nat)
      returns (satisfiable: bool, kept: seq<Term>, removed: seq<Term>)
      requires Valid() && Known(labels, solver.symbols.declared, solver.Asserted() + SetOf(all))
      modifies this`labels, solver`levels, solver`core, solver.symbols
      ensures Valid() && SameBelow(old(solver.levels), solver.levels)
      ensures ReducedTo(solver.th, old(solver.Asserted()), all, satisfiable, kept, removed)
      ensures Activated(labels, solver.Asserted(), old(solver.Asserted()), SetOf(all))
      ensures !satisfiable ==> ReducedBy(Here(), all, iter, kept)
    {
      ghost var base := solver.Asserted();
      var boolAssump, _ := LabelAll(all);
      ghost var trace;
      satisfiable, kept, removed, trace := ReduceLoop(all, boolAssump, iter, base);
      if !satisfiable {
        TracedLimit(Here(), trace, all, kept, iter);
      }
    }

    /** The part of reduce_assump_unsatcore between push and pop. */
    method ReduceInside(cand: seq<Term>, toExt: Labels, iter: nat, ghost assump: seq<Term>)
      returns (ok: bool, red: seq<Term>, rem: seq<Term>)
      requires Valid() && Known(labels, solver.symbols.declared, solver.Asserted() + SetOf(cand))
      requires toExt.Keys == SetOf(cand) && TakesBack(toExt, assump)
      modifies this`labels, solver`levels, solver`core, solver.symbols
      ensures Valid() && SameBelow(old(solver.levels), solver.levels)
      ensures ReducedTo(solver.th, old(solver.Asserted()), cand, !ok, Transferred(red), Transferred(rem))
      ensures SetOf(red) <= SetOf(assump) && SetOf(rem) <= SetOf(assump)
      ensures ok ==> ReducedBy(Asked(old(solver.Asserted()), SetOf(cand)), cand, iter, Transferred(red))
    {
      var satisfiable, kept, removed := ReduceCandidates(cand, iter);
      ok, red, rem := !satisfiable, [], [];
      if ok {
        PartsMembers(kept, removed, cand);
        red := External(toExt, kept, assump);
        rem := External(toExt, removed, assump);
        AskedHere(old(solver.Asserted()), cand);
      }
    }

    lemma AskedHere(base: set<Term>, cand: seq<Term>)
      requires Activated(labels, solver.Asserted(), base, SetOf(cand))
      ensures Asked(base, SetOf(cand)) == Here()
    {
      assert SetOf(cand) * labels.Keys == SetOf(cand);
    }

    /** reduce_assump_unsatcore. The order in which shuffle puts the candidates is not known. */
    method ReduceAssumpUnsatcore(formula: Term, assump: seq<Term>, iter: nat, shuffle: seq<Term> -> seq<Term>)
      returns (ok: bool, red: seq<Term>, rem: seq<Term>)
      requires Ready(formula, assump)
      requires forall s :: multiset(shuffle(s)) == multiset(s)
      modifies this`labels, solver`levels, solver`core, solver.symbols
      ensures Valid() && solver.levels == old(solver.levels)
      ensures Reduced(solver.th, old(solver.Asserted()) + {transfer(formula)}, Transferred(assump),
                      ok, Transferred(red), Transferred(rem))
      ensures SetOf(red) <= SetOf(assump) && SetOf(rem) <= SetOf(assump)
      ensures ok && Sat(solver.th, old(solver.Asserted()) + {transfer(formula)}) ==>
        ReducedBy(Asked(old(solver.Asserted()) + {transfer(formula)}, SetOf(Transferred(assump))),
                  shuffle(Transferred(assump)), iter, Transferred(red))
    {
      var cand, toExt := TransferAll(assump);
      ok, red, rem := true, [], [];
      var alone := Enter(formula);
      if alone {
        cand := shuffle(cand);
        SameMembers(cand, Transferred(assump));
        ok, red, rem := ReduceInside(cand, toExt, iter, assump);
      }
      solver.Pop();
    }

    // ----- linear reduction -----

    /** The query that leaves out one label. */
    method LeaveOut(boolAssump: seq<Term>, pos: nat) returns (query: seq<Term>)
      requires pos < |boolAssump|
      ensures query == Without(boolAssump, pos)
    {
      query := [];
      for idx := 0 to |boolAssump|
        invariant query == if idx <= pos then boolAssump[..idx] else boolAssump[..pos] + boolAssump[pos + 1..idx]
      {
        if idx != pos {
          query := query + [boolAssump[idx]];
        }
      }
    }

    /** The query without the label at pos. */
    method CheckWithout(boolAssump: seq<Term>, pos: nat, ghost base: set<Term>, ghost cand: set<Term>,
                        ghost kept: seq<Term>)
      returns (sat: bool, ghost core: set<Term>)
      requires Valid() && Activated(labels, solver.Asserted(), base, cand)
      requires SetOf(kept) <= cand && NoRepeats(kept) && AllLabelled(labels, kept)
      requires boolAssump == Map(labels, kept) && pos < |kept|
      modifies solver`core
      ensures Valid() && sat == Sat(solver.th, base + (SetOf(kept) - {kept[pos]}))
      ensures !sat ==> core <= SetOf(kept) - {kept[pos]} && !Sat(solver.th, base + core)
      ensures !sat ==> solver.core == LabelSet(labels, core)
      ensures sat ==> Tried(Here(), Progress(kept, pos)) == Progress(kept, pos + 1)
      ensures !sat ==> Tried(Here(), Progress(kept, pos)) == Progress(Filter(kept, core), pos)
    {
      var query := LeaveOut(boolAssump, pos);
      MapWithout(labels, kept, pos);
      WithoutSet(kept, pos);
      sat, core := CheckLabels(query, base, cand, Without(kept, pos));
    }

    /** The labels that are in the core, in their order. */
    method FilterByCore(boolAssump: seq<Term>, ghost kept: seq<Term>, ghost core: set<Term>) returns (r: seq<Term>)
      requires GoodLabels(labels) && AllLabelled(labels, kept) && boolAssump == Map(labels, kept)
      requires core <= labels.Keys && solver.core == LabelSet(labels, core)
      ensures AllLabelled(labels, Filter(kept, core)) && r == Map(labels, Filter(kept, core))
    {
      r := [];
      assert boolAssump[..0] == [];
      for i := 0 to |boolAssump|
        invariant r == Filter(boolAssump[..i], solver.core)
      {
        TakeNext(boolAssump, i);
        FilterSnoc(boolAssump[..i], boolAssump[i], solver.core);
        if boolAssump[i] in solver.core {
          r := r + [boolAssump[i]];
        }
      }
      TakeAll(boolAssump);
      FilterLabels(labels, kept, core);
    }

    /** One step: the label at pos is found necessary, or the labels are filtered by a core without it. */
    method LinearStep(ghost all: seq<Term>, query: seq<Term>, pos: nat, ghost base: set<Term>, ghost kept: seq<Term>,
                      ghost trace: seq<Progress>)
      returns (boolAssump: seq<Term>, pos': nat, ghost kept': seq<Term>, ghost trace': seq<Progress>)
      requires Valid() && Activated(labels, solver.Asserted(), base, SetOf(all))
      requires AllLabelled(labels, kept) && query == Map(labels, kept) && pos < |kept| && Sat(solver.th, base)
      requires Shrunk(solver.th, base, all, kept) && Necessary(solver.th, base, kept, pos)
      requires TryingTo(Here(), trace, all, Progress(kept, pos))
      modifies solver`core
      ensures Valid() && AllLabelled(labels, kept') && boolAssump == Map(labels, kept')
      ensures Shrunk(solver.th, base, all, kept') && Necessary(solver.th, base, kept', pos')
      ensures |kept'| - pos' < |kept| - pos
      ensures TryingTo(Here(), trace', all, Progress(kept', pos')) && |trace'| == |trace| + 1
    {
      var sat;
      ghost var core;
      sat, core := CheckWithout(query, pos, base, SetOf(all), kept);
      if sat {
        NecessaryNext(solver.th, base, kept, pos);
        boolAssump, pos', kept' := query, pos + 1, kept;
      } else {
        ShrinkNext(solver.th, base, all, kept, pos, core);
        boolAssump := FilterByCore(query, kept, core);
        pos', kept' := pos, Filter(kept, core);
      }
      assert Progress(kept', pos') == Tried(Here(), Progress(kept, pos));
      TryingNext(Here(), trace, all, Progress(kept, pos), Progress(kept', pos'));
      trace' := trace + [Progress(kept', pos')];
    }

    /** The loop of linear_reduce_assump_unsatcore. Every label before pos is necessary, so it is in
        every core, and filtering by a core never moves it. */
    method LinearLoop(all: seq<Term>, query: seq<Term>, iter: nat, ghost base: set<Term>)
      returns (boolAssump: seq<Term>, ghost kept: seq<Term>)
      requires Valid() && Activated(labels, solver.Asserted(), base, SetOf(all))
      requires NoRepeats(all) && AllLabelled(labels, all) && query == Map(labels, all)
      requires Sat(solver.th, base) && !Sat(solver.th, base + SetOf(all))
      modifies solver`core
      ensures Valid() && AllLabelled(labels, kept) && boolAssump == Map(labels, kept)
      ensures Shrunk(solver.th, base, all, kept) && NecessaryUpTo(solver.th, base, all, kept, iter)
      ensures LinearlyReducedBy(Here(), all, iter, kept)
    {
      boolAssump, kept := query, all;
      var curIter: nat, pos: nat := 0, 0;
      ghost var trace := [Progress(all, 0)];
      ShrunkStart(solver.th, base, all);
      TryingStart(Here(), all);
      while curIter <= iter && pos < |boolAssump|
        invariant Valid() && curIter == (if iter == 0 then 0 else |trace| - 1) <= iter + 1
        invariant AllLabelled(labels, kept) && boolAssump == Map(labels, kept)
        invariant Shrunk(solver.th, base, all, kept) && Necessary(solver.th, base, kept, pos)
        invariant TryingTo(Here(), trace, all, Progress(kept, pos)) && |trace| - 1 <= pos + |all| - |kept|
        decreases |kept| - pos
      {
        curIter := if iter > 0 then curIter + 1 else curIter;
        boolAssump, pos, kept, trace := LinearStep(all, boolAssump, pos, base, kept, trace);
      }
      TryingLimit(Here(), trace, all, Progress(kept, pos), iter);
    }

    /** The candidates whose labels did not remain. */
    method Remaining(cand: seq<Term>, boolAssump: seq<Term>, ghost kept: seq<Term>) returns (removed: seq<Term>)
      requires GoodLabels(labels) && AllLabelled(labels, cand) && AllLabelled(labels, kept)
      requires boolAssump == Map(labels, kept)
      ensures removed == Filter(cand, SetOf(cand) - SetOf(kept))
    {
      removed := [];
      assert cand[..0] == [];
      MapSet(labels, kept);
      for i := 0 to |cand|
        invariant removed == Filter(cand[..i], SetOf(cand) - SetOf(kept))
      {
        assert cand[..i + 1] == cand[..i] + [cand[i]] && cand[i] in cand;
        FilterSnoc(cand[..i], cand[i], SetOf(cand) - SetOf(kept));
        LabelInSet(labels, SetOf(kept), cand[i]);
        if labels[cand[i]] !in SetOf(boolAssump) {
          removed := removed + [cand[i]];
        }
      }
      TakeAll(cand);
    }

    /** The candidates behind the remaining labels. */
    method Candidates(boolAssump: seq<Term>, labelToCand: Labels, ghost cand: seq<Term>, ghost kept: seq<Term>)
      returns (r: seq<Term>)
      requires BackOn(labelToCand, labels, cand) && SetOf(kept) <= SetOf(cand)
      requires AllLabelled(labels, kept) && boolAssump == Map(labels, kept)
      ensures r == kept
    {
      r := [];
      for i := 0 to |boolAssump|
        invariant r == kept[..i]
      {
        assert kept[i] in SetOf(kept);
        r := r + [labelToCand[boolAssump[i]]];
      }
    }

    method LinearCandidates(cand: seq<Term>, iter: nat)
      returns (satisfiable: bool, kept: seq<Term>, removed: seq<Term>)
      requires Valid() && Known(labels, solver.symbols.declared, solver.Asserted() + SetOf(cand))
      requires NoRepeats(cand) && Sat(solver.th, solver.Asserted())
      modifies this`labels, solver`levels, solver`core, solver.symbols
      ensures Valid() && SameBelow(old(solver.levels), solver.levels)
      ensures ReducedTo(solver.th, old(solver.Asserted()), cand, satisfiable, kept, removed)
      ensures Activated(labels, solver.Asserted(), old(solver.Asserted()), SetOf(cand))
      ensures !satisfiable ==> NecessaryUpTo(solver.th, old(solver.Asserted()), cand, kept, iter)
      ensures !satisfiable ==> LinearlyReducedBy(Here(), cand, iter, kept)
    {
      ghost var base := solver.Asserted();
      var boolAssump, labelToCand := LabelAll(cand);
      ghost var core;
      satisfiable, core := CheckLabels(boolAssump, base, SetOf(cand), cand);
      kept, removed := [], [];
      if !satisfiable {
        ghost var left;
        boolAssump, left := LinearLoop(cand, boolAssump, iter, base);
        FilterMembers(cand, SetOf(left));
        kept := Candidates(boolAssump, labelToCand, cand, left);
        removed := Remaining(cand, boolAssump, left);
        FilterParts(cand, SetOf(left), SetOf(cand) - SetOf(left));
      }
    }

    /** The part of linear_reduce_assump_unsatcore between push and pop. */
    method LinearInside(cand: seq<Term>, toExt: Labels, iter: nat, ghost assump: seq<Term>)
      returns (ok: bool, red: seq<Term>, rem: seq<Term>)
      requires Valid() && Known(labels, solver.symbols.declared, solver.Asserted() + SetOf(cand))
      requires NoRepeats(cand) && Sat(solver.th, solver.Asserted())
      requires toExt.Keys == SetOf(cand) && TakesBack(toExt, assump)
      modifies this`labels, solver`levels, solver`core, solver.symbols
      ensures Valid() && SameBelow(old(solver.levels), solver.levels)
      ensures ReducedTo(solver.th, old(solver.Asserted()), cand, !ok, Transferred(red), Transferred(rem))
      ensures SetOf(red) <= SetOf(assump) && SetOf(rem) <= SetOf(assump)
      ensures ok ==> NecessaryUpTo(solver.th, old(solver.Asserted()), cand, Transferred(red), iter)
      ensures ok ==> LinearlyReducedBy(Asked(old(solver.Asserted()), SetOf(cand)), cand, iter, Transferred(red))
    {
      var satisfiable, kept, removed := LinearCandidates(cand, iter);
      ok, red, rem := !satisfiable, [], [];
      if ok {
        PartsMembers(kept, removed, cand);
        red := External(toExt, kept, assump);
        rem := External(toExt, removed, assump);
        AskedHere(old(solver.Asserted()), cand);
      }
    }

    /** linear_reduce_assump_unsatcore: with iter zero, or so large that each assumption can be tried, the reduced
        assumptions are a minimal core. */
    method LinearReduceAssumpUnsatcore(formula: Term, assump: seq<Term>, iter: nat)
      returns (ok: bool, red: seq<Term>, rem: seq<Term>)
      requires Ready(formula, assump) && NoRepeats(Transferred(assump))
      modifies this`labels, solver`levels, solver`core, solver.symbols
      ensures Valid() && solver.levels == old(solver.levels)
      ensures Reduced(solver.th, old(solver.Asserted()) + {transfer(formula)}, Transferred(assump),
                      ok, Transferred(red), Transferred(rem))
      ensures SetOf(red) <= SetOf(assump) && SetOf(rem) <= SetOf(assump)
      ensures Sat(solver.th, old(solver.Asserted()) + {transfer(formula)}) && ok ==>
        var base, all := old(solver.Asserted()) + {transfer(formula)}, Transferred(assump);
        && NecessaryUpTo(solver.th, base, all, Transferred(red), iter)
        && LinearlyReducedBy(Asked(base, SetOf(all)), all, iter, Transferred(red))
        && (iter == 0 || iter + 1 >= |assump| ==> MinimalCore(solver.th, base, SetOf(Transferred(red))))
    {
      var cand, toExt := TransferAll(assump);
      ok, red, rem := true, [], [];
      var alone := Enter(formula);
      if alone {
        ghost var base := solver.Asserted();
        ok, red, rem := LinearInside(cand, toExt, iter, assump);
        if ok && (iter == 0 || iter + 1 >= |assump|) {
          NecessaryMinimal(solver.th, base, cand, Transferred(red), iter);
        }
      }
      solver.Pop();
    }
  }

  /** The labels still assumed stand for an unsatisfiable part of the candidates, in their order. */
  ghost predicate Shrunk<V(!new)>(th: Theory<V>, base: set<Term>, all: seq<Term>, kept: seq<Term>) {
    && NoRepeats(kept) && SetOf(kept) <= SetOf(all)
    && kept == Filter(all, SetOf(kept))
    && !Sat(th, base + SetOf(kept))
  }

  lemma ShrunkStart<V(!new)>(th: Theory<V>, base: set<Term>, all: seq<Term>)
    requires NoRepeats(all) && !Sat(th, base + SetOf(all))
    ensures Shrunk(th, base, all, all) && Necessary(th, base, all, 0)
  {
    FilterMembers(all, SetOf(all));
  }

  /** A core that leaves out the member at pos: the members before stay in place and necessary,
      and fewer remain. */
  lemma {:induction false} ShrinkNext<V(!new)>(th: Theory<V>, base: set<Term>, all: seq<Term>, kept: seq<Term>,
                                               pos: nat, core: set<Term>)
    requires Shrunk(th, base, all, kept) && Necessary(th, base, kept, pos) && pos < |kept|
    requires core <= SetOf(kept) - {kept[pos]} && !Sat(th, base + core) && Sat(th, base)
    ensures Shrunk(th, base, all, Filter(kept, core)) && Necessary(th, base, Filter(kept, core), pos)
    ensures |Filter(kept, core)| < |kept| && Filter(kept, core) != []
  {
    NecessaryKept(th, base, kept, pos, core);
    FilterDistinct(kept, core);
    FilterShorter(kept, core, pos);
    FilterAgain(all, SetOf(kept), core);
    FilterMembers(kept, core);
    assert base + {} == base;
    assert core != {};
    var t :| t in core;
    assert t in Filter(kept, core);
  }

  /** A satisfiable query without the member at pos makes it necessary. */
  lemma NecessaryNext<V(!new)>(th: Theory<V>, base: set<Term>, kept: seq<Term>, pos: nat)
    requires Necessary(th, base, kept, pos) && pos < |kept| && Sat(th, base + (SetOf(kept) - {kept[pos]}))
    ensures Necessary(th, base, kept, pos + 1)
  {
  }

  /** Two assertion stacks that differ at most in their top level. */
  ghost predicate SameBelow(a: seq<set<Term>>, b: seq<set<Term>>) {
    |a| == |b| > 0 && b[..|b| - 1] == a[..|a| - 1]
  }

  ghost predicate ReducedTo<V(!new)>(th: Theory<V>, base: set<Term>, all: seq<Term>,
                                     satisfiable: bool, kept: seq<Term>, removed: seq<Term>)
  {
    && (satisfiable <==> Sat(th, base + SetOf(all)))
    && (!satisfiable ==> !Sat(th, base + SetOf(kept)) && multiset(kept) + multiset(removed) == multiset(all))
  }

  /** What a reduction reports, in terms of the solver: nothing to reduce when the base is
      unsatisfiable alone; otherwise whether base and assumptions are unsatisfiable together,
      and if so an unsatisfiable part of the assumptions beside the rest. */
  ghost predicate Reduced<V(!new)>(th: Theory<V>, base: set<Term>, all: seq<Term>, ok: bool, red: seq<Term>,
                                   rem: seq<Term>) {
    && (!Sat(th, base) ==> ok && red == [] && rem == [])
    && (Sat(th, base) ==> (ok <==> !Sat(th, base + SetOf(all))))
    && (Sat(th, base) && ok ==> !Sat(th, base + SetOf(red)) && multiset(red) + multiset(rem) == multiset(all))
  }

  /** The state of the loop in Keep after the candidates in done. */
  ghost predicate Keeping(lbl: Labels, done: seq<Term>, core: set<Term>, local: seq<Term>, query: seq<Term>,
                          removed: seq<Term>) {
    && local == Filter(done, core) && AllLabelled(lbl, local) && query == Map(lbl, local)
    && multiset(local) + multiset(removed) == multiset(done)
  }

  lemma KeepNext(lbl: Labels, done: seq<Term>, core: set<Term>, local: seq<Term>, query: seq<Term>, removed: seq<Term>,
                 a: Term)
    requires Keeping(lbl, done, core, local, query, removed) && GoodLabels(lbl) && core <= lbl.Keys && a in lbl
    ensures lbl[a] in LabelSet(lbl, core) ==> Keeping(lbl, done + [a], core, local + [a], query + [lbl[a]], removed)
    ensures lbl[a] !in LabelSet(lbl, core) ==> Keeping(lbl, done + [a], core, local, query, removed + [a])
  {
    FilterSnoc(done, a, core);
    LabelInSet(lbl, core, a);
    if a in core {
      MapSnoc(lbl, local, a);
    }
  }

  /** The state of the reduction loop: after the first round the candidates are unsatisfiable with
      the base, and nothing is lost between candidates and removed ones. */
  ghost predicate Reducing<V(!new)>(th: Theory<V>, base: set<Term>, given: set<Term>, all: seq<Term>,
                                    cand: seq<Term>, removed: seq<Term>, first: bool)
  {
    && SetOf(cand) <= given
    && multiset(cand) + multiset(removed) == multiset(all)
    && (first ==> SetOf(cand) == given)
    && (!first ==> !Sat(th, base + SetOf(cand)))
    && (!first ==> !Sat(th, base + given))
  }

  lemma ReduceNext<V(!new)>(th: Theory<V>, base: set<Term>, given: set<Term>, all: seq<Term>,
                            cand: seq<Term>, removed: seq<Term>, first: bool, local: seq<Term>, gone: seq<Term>)
    requires Reducing(th, base, given, all, cand, removed, first)
    requires SetOf(local) <= given && !Sat(th, base + SetOf(local))
    requires multiset(local) + multiset(gone) == multiset(cand)
    ensures Reducing(th, base, given, all, local, removed + gone, false)
  {
    if Sat(th, base + given) {
      SatSubset(th, base + SetOf(local), base + given);
    }
  }

  lemma {:induction false} FilterNothing(cand: seq<Term>, core: set<Term>, gone: seq<Term>)
    requires multiset(Filter(cand, core)) + multiset(gone) == multiset(cand) && |Filter(cand, core)| == |cand|
    ensures Filter(cand, core) == cand && gone == []
  {
    assert |multiset(gone)| == |gone|;
    FilterStays(cand, core);
  }

  lemma PartsMembers(a: seq<Term>, b: seq<Term>, all: seq<Term>)
    requires multiset(a) + multiset(b) == multiset(all)
    ensures SetOf(a) <= SetOf(all) && SetOf(b) <= SetOf(all)
  {
    forall t | t in a || t in b
      ensures t in all
    {
      assert t in multiset(a) + multiset(b);
    }
  }

  /** The map from labels back to the terms labelled. */
  ghost predicate BackOn(back: Labels, lbl: Labels, s: seq<Term>) {
    && (forall l :: l in back ==> back[l] in s && back[l] in lbl && lbl[back[l]] == l)
    && (forall a :: a in s ==> a in lbl && lbl[a] in back && back[lbl[a]] == a)
  }

  /** The state of the labelling loop after the candidates in done. */
  ghost predicate Labelling(lbl: Labels, asserted: set<Term>, base: set<Term>, done: seq<Term>,
                            boolAssump: seq<Term>, back: Labels)
  {
    && AllLabelled(lbl, done) && boolAssump == Map(lbl, done)
    && asserted == base + Activations(lbl, SetOf(done))
    && BackOn(back, lbl, done)
  }

  lemma LabellingNext(lbl: Labels, lbl': Labels, asserted: set<Term>, base: set<Term>, done: seq<Term>,
                      boolAssump: seq<Term>, back: Labels, t: Term)
    requires Labelling(lbl, asserted, base, done, boolAssump, back) && GoodLabels(lbl') && t in lbl'
    requires forall a :: a in lbl ==> a in lbl' && lbl'[a] == lbl[a]
    ensures Labelling(lbl', asserted + {Make(Implies, [lbl'[t], t])}, base, done + [t], boolAssump + [lbl'[t]],
                      if lbl'[t] in back then back else back[lbl'[t] := t])
  {
    LabelsKept(lbl, lbl', done);
    MapSnoc(lbl', done, t);
    BackNext(back, lbl, lbl', done, t);
    assert SetOf(done + [t]) == SetOf(done) + {t};
    ActivationsGrow(lbl', SetOf(done), t);
  }

  lemma BackNext(back: Labels, lbl: Labels, lbl': Labels, s: seq<Term>, t: Term)
    requires BackOn(back, lbl, s) && GoodLabels(lbl') && t in lbl'
    requires forall a :: a in lbl ==> a in lbl' && lbl'[a] == lbl[a]
    ensures BackOn(if lbl'[t] in back then back else back[lbl'[t] := t], lbl', s + [t])
  {
  }

  lemma ActivationsGrow(lbl: Labels, terms: set<Term>, t: Term)
    requires terms + {t} <= lbl.Keys
    ensures Activations(lbl, terms + {t}) == Activations(lbl, terms) + {Make(Implies, [lbl[t], t])}
  {
  }

  lemma LabelsKept(lbl: Labels, lbl': Labels, s: seq<Term>)
    requires AllLabelled(lbl, s) && forall a :: a in lbl ==> a in lbl' && lbl'[a] == lbl[a]
    ensures AllLabelled(lbl', s) && Map(lbl', s) == Map(lbl, s)
    ensures Activations(lbl', SetOf(s)) == Activations(lbl, SetOf(s))
  {
    forall t
      ensures t in Activations(lbl', SetOf(s)) <==> t in Activations(lbl, SetOf(s))
    {
      if t in Activations(lbl', SetOf(s)) {
        var a :| a in SetOf(s) && t == Make(Implies, [lbl'[a], a]);
        assert t == Make(Implies, [lbl[a], a]);
      }
      if t in Activations(lbl, SetOf(s)) {
        var a :| a in SetOf(s) && t == Make(Implies, [lbl[a], a]);
        assert t == Make(Implies, [lbl'[a], a]);
      }
    }
  }

  lemma SameMembers(a: seq<Term>, b: seq<Term>)
    requires multiset(a) == multiset(b)
    ensures SetOf(a) == SetOf(b)
  {
    forall t
      ensures t in a <==> t in b
    {
      assert t in a <==> t in multiset(a);
      assert t in b <==> t in multiset(b);
    }
  }
}
