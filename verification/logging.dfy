/** Hash-consing in LoggingSolver: src/logging_term.cpp, src/term_hashtable.cpp and the term
    builders of src/logging_solver.cpp. The wrapped solver may rewrite as it likes: its terms are
    values of any type W. */
module Logging {
  import opened Terms
  import opened Sorts

  class LoggingTerm<W(==, !new)> {
    const wrapped: W
    const sort: Sort
    const op: Option<Op>
    const children: seq<LoggingTerm<W>>
    const repr: string
    const isSymbol: bool
    const isParam: bool
    const id: nat

    constructor (wrapped: W, sort: Sort, op: Option<Op>, children: seq<LoggingTerm<W>>, id: nat)
      ensures this.wrapped == wrapped && this.sort == sort && this.op == op && this.children == children
      ensures this.id == id && repr == "" && !isSymbol && !isParam
    {
      this.wrapped, this.sort, this.op, this.children, this.id := wrapped, sort, op, children, id;
      repr, isSymbol, isParam := "", false, false;
    }

    constructor Named(wrapped: W, sort: Sort, repr: string, isSymbol: bool, id: nat)
      ensures this.wrapped == wrapped && this.sort == sort && op == None && children == []
      ensures this.id == id && this.repr == repr && this.isSymbol == isSymbol && isParam == !isSymbol
    {
      this.wrapped, this.sort, op, children, this.id := wrapped, sort, None, [], id;
      this.repr, this.isSymbol, isParam := repr, isSymbol, !isSymbol;
    }

    /** Compares the children as objects. */
    predicate Compare(t: LoggingTerm<W>) {
      && wrapped == t.wrapped && sort == t.sort && op == t.op
      && |children| == |t.children|
      && forall i :: 0 <= i < |children| ==> children[i] == t.children[i]
    }
  }

  /** Everything a term is made of, all the way down. */
  datatype Deep<W> = Deep(wrapped: W, sort: Sort, op: Option<Op>, children: seq<Deep<W>>)

  /** Children are built before their parents. */
  ghost predicate Grounded<W(!new)>(t: LoggingTerm<W>)
    decreases t.id
  {
    forall c :: c in t.children ==> c.id < t.id && Grounded(c)
  }

  ghost function DeepOf<W(!new)>(t: LoggingTerm<W>): Deep<W>
    requires Grounded(t)
    decreases t.id
  {
    Deep(t.wrapped, t.sort, t.op,
      seq(|t.children|, i requires 0 <= i < |t.children| => assert t.children[i] in t.children; DeepOf(t.children[i])))
  }

  /** No two stored terms compare equal, ids tell them apart, and children are stored. */
  ghost predicate Consed<W(!new)>(all: set<LoggingTerm<W>>, next: nat) {
    && (forall t, u :: t in all && u in all && t.Compare(u) ==> t == u)
    && (forall t, u :: t in all && u in all && t.id == u.id ==> t == u)
    && (forall t :: t in all ==> t.id < next)
    && (forall t, c :: t in all && c in t.children ==> c in all && c.id < t.id)
  }

  lemma {:induction false} ConsedGrounded<W(!new)>(all: set<LoggingTerm<W>>, next: nat, t: LoggingTerm<W>)
    requires Consed(all, next) && t in all
    ensures Grounded(t)
    decreases t.id
  {
    forall c | c in t.children
      ensures c.id < t.id && Grounded(c)
    {
      ConsedGrounded(all, next, c);
    }
  }

  /** Two stored terms are the same object exactly when they are deeply equal. */
  lemma {:induction false} SameObjectIffDeeplyEqual<W(!new)>(all: set<LoggingTerm<W>>, next: nat, t: LoggingTerm<W>,
                                                             u: LoggingTerm<W>)
    requires Consed(all, next) && t in all && u in all
    ensures Grounded(t) && Grounded(u)
    ensures t == u <==> DeepOf(t) == DeepOf(u)
    decreases t.id
  {
    ConsedGrounded(all, next, t);
    ConsedGrounded(all, next, u);
    if DeepOf(t) == DeepOf(u) {
      assert |DeepOf(t).children| == |t.children| && |DeepOf(u).children| == |u.children|;
      forall i | 0 <= i < |t.children|
        ensures t.children[i] == u.children[i]
      {
        assert t.children[i] in t.children && u.children[i] in u.children;
        assert DeepOf(t).children[i] == DeepOf(u).children[i];
        SameObjectIffDeeplyEqual(all, next, t.children[i], u.children[i]);
      }
      assert t.Compare(u);
    }
  }

  /** Looking at the child objects only finds a candidate exactly when a deeply equal term is stored. */
  lemma {:induction false} ShallowCompareSuffices<W(!new)>(all: set<LoggingTerm<W>>, next: nat, t: LoggingTerm<W>,
                                                           x: LoggingTerm<W>)
    requires Consed(all, next) && t in all && Grounded(x) && forall c :: c in x.children ==> c in all
    ensures Grounded(t) && (t.Compare(x) <==> DeepOf(t) == DeepOf(x))
  {
    ConsedGrounded(all, next, t);
    assert |DeepOf(t).children| == |t.children| && |DeepOf(x).children| == |x.children|;
    if t.Compare(x) {
      assert DeepOf(t).children == DeepOf(x).children;
    }
    if DeepOf(t) == DeepOf(x) {
      forall i | 0 <= i < |t.children|
        ensures t.children[i] == x.children[i]
      {
        assert t.children[i] in t.children && x.children[i] in x.children;
        assert DeepOf(t).children[i] == DeepOf(x).children[i];
        SameObjectIffDeeplyEqual(all, next, t.children[i], x.children[i]);
      }
    }
  }

  class TermHashTable<W(==, !new)> {
    var table: map<nat, set<LoggingTerm<W>>>
    const hash: W -> nat

    constructor (hash: W -> nat)
      ensures this.hash == hash && table == map[]
    {
      this.hash, table := hash, map[];
    }

    ghost function All(): set<LoggingTerm<W>>
      reads this
    {
      set h, t | h in table && t in table[h] :: t
    }

    /** Each term is in the bucket of its hash. */
    ghost predicate Valid()
      reads this
    {
      forall h, t :: h in table && t in table[h] ==> hash(t.wrapped) == h
    }

    predicate Contains(t: LoggingTerm<W>)
      requires Valid()
      reads this
      ensures Contains(t) <==> exists u :: u in All() && u.Compare(t)
    {
      var h := hash(t.wrapped);
      assert forall u :: u in All() && u.Compare(t) ==> h in table && u in table[h];
      h in table && exists u :: u in table[h] && u.Compare(t)
    }

    /** Inserting into an unordered set does nothing when an equal member is there. */
    method Insert(t: LoggingTerm<W>)
      requires Valid()
      modifies this
      ensures Valid() && All() == if old(Contains(t)) then old(All()) else old(All()) + {t}
    {
      var h := hash(t.wrapped);
      var bucket := if h in table then table[h] else {};
      if !(exists u :: u in bucket && u.Compare(t)) {
        bucket := bucket + {t};
      }
      ghost var all := All();
      table := table[h := bucket];
      assert forall u :: u in old(All()) ==> u in old(table)[hash(u.wrapped)] && u in table[hash(u.wrapped)];
      assert forall u :: u in All() ==> u in table[hash(u.wrapped)];
      assert t in bucket ==> t in table[h];
      assert All() == if old(Contains(t)) then all else all + {t};
    }

    /** The stored term that compares equal, if there is one. */
    method Lookup(t: LoggingTerm<W>) returns (found: bool, r: LoggingTerm<W>)
      requires Valid()
      ensures found == Contains(t)
      ensures if found then r in All() && r.Compare(t) else r == t
    {
      found, r := Contains(t), t;
      if found {
        r :| r in table[hash(t.wrapped)] && r.Compare(t);
      }
    }
  }

  /** LoggingSort::compare. */
  predicate SameSort(s: Sort, t: Sort)
    decreases s
  {
    match (s, t)
    case (BVSort(v), BVSort(w)) => v == w
    case (ArraySort(i, e), ArraySort(j, f)) => SameSort(i, j) && SameSort(e, f)
    case (FunctionSort(ds, c), FunctionSort(es, d)) =>
      |ds| == |es| && SameSort(c, d) && forall i :: 0 <= i < |ds| ==> SameSort(ds[i], es[i])
    case (UninterpretedSort(n), UninterpretedSort(m)) => n == m
    case _ => s == t
  }

  /** Comparing sorts part by part is equality. */
  lemma {:induction false} SameSortIsEquality(s: Sort, t: Sort)
    ensures SameSort(s, t) <==> s == t
    decreases s
  {
    match (s, t)
    case (ArraySort(i, e), ArraySort(j, f)) => {
      SameSortIsEquality(i, j);
      SameSortIsEquality(e, f);
    }
    case (FunctionSort(ds, c), FunctionSort(es, d)) => {
      SameSortIsEquality(c, d);
      if |ds| == |es| {
        forall i | 0 <= i < |ds|
          ensures SameSort(ds[i], es[i]) <==> ds[i] == es[i]
        {
          SameSortIsEquality(ds[i], es[i]);
        }
        assert SameSort(s, t) ==> ds == es;
      }
    }
    case _ =>
  }

  /** A new id and no equal term in the table: the term can be added. */
  lemma ConsedAdd<W(!new)>(all: set<LoggingTerm<W>>, next: nat, t: LoggingTerm<W>)
    requires Consed(all, next) && t.id == next
    requires forall u :: u in all ==> !u.Compare(t)
    requires forall c :: c in t.children ==> c in all
    ensures Consed(all + {t}, next + 1)
  {
    forall u | u in all + {t} && (t.Compare(u) || u.Compare(t))
      ensures u == t
    {
      if u in all {
        assert u.Compare(t);
      }
    }
  }

  /** The wrapped terms of some terms, in their order. */
  function WrappedOf<W(!new)>(terms: seq<LoggingTerm<W>>): (ws: seq<W>)
    ensures |ws| == |terms| && forall i :: 0 <= i < |terms| ==> ws[i] == terms[i].wrapped
  {
    seq(|terms|, i requires 0 <= i < |terms| => terms[i].wrapped)
  }

  function SortsOf<W(!new)>(terms: seq<LoggingTerm<W>>): (ss: seq<Sort>)
    ensures |ss| == |terms| && forall i :: 0 <= i < |terms| ==> ss[i] == terms[i].sort
  {
    seq(|terms|, i requires 0 <= i < |terms| => terms[i].sort)
  }

  // ----- what the reported structure means -----

  function Each<W, V>(of: W -> V, ws: seq<W>): (vs: seq<V>)
    ensures |vs| == |ws| && forall i :: 0 <= i < |ws| ==> vs[i] == of(ws[i])
  {
    seq(|ws|, i requires 0 <= i < |ws| => of(ws[i]))
  }

  /** The value of a term as it reports itself: operator and children, or its wrapped term where it reports none. */
  ghost function Reported<W(!new), V>(of: W -> V, m: Interp<V>, t: LoggingTerm<W>): V
    requires Grounded(t)
    decreases t.id
  {
    if t.op.Some? then
      m.apply(t.op.value,
        seq(|t.children|, i requires 0 <= i < |t.children| =>
          assert t.children[i] in t.children; Reported(of, m, t.children[i])))
    else if |t.children| == 1 then
      assert t.children[0] in t.children;
      m.constArray(t.sort, Reported(of, m, t.children[0]))
    else of(t.wrapped)
  }

  /** The term builders of LoggingSolver. What the wrapped solver builds, or refuses to build, is given
      by functions; so is the rule that computes the sort of an application. */
  class LoggingSolver<W(==, !new)> {
    const hashtable: TermHashTable<W>
    var nextTermId: nat
    var symbolTable: map<string, LoggingTerm<W>>
    const wrappedValue: (Term, Sort) -> Option<W>
    const wrappedSymbol: (string, Sort) -> Option<W>
    const wrappedParam: (string, Sort) -> Option<W>
    const wrappedConstArray: (W, Sort) -> Option<W>
    const wrappedApply: (Op, seq<W>) -> Option<W>
    const computeSort: (Op, seq<Sort>) -> Option<Sort>

    constructor (hash: W -> nat,
                 value: (Term, Sort) -> Option<W>, symbol: (string, Sort) -> Option<W>,
                 param: (string, Sort) -> Option<W>,
                 constArray: (W, Sort) -> Option<W>, apply: (Op, seq<W>) -> Option<W>,
                 computeSort: (Op, seq<Sort>) -> Option<Sort>)
      ensures Valid() && Stored() == {} && nextTermId == 0 && symbolTable == map[] && fresh(hashtable)
      ensures wrappedValue == value && wrappedSymbol == symbol && wrappedParam == param
      ensures wrappedConstArray == constArray && wrappedApply == apply && this.computeSort == computeSort
    {
      hashtable := new TermHashTable(hash);
      nextTermId, symbolTable := 0, map[];
      wrappedValue, wrappedSymbol, wrappedParam := value, symbol, param;
      wrappedConstArray, wrappedApply, this.computeSort := constArray, apply, computeSort;
    }

    ghost function Stored(): set<LoggingTerm<W>>
      reads this, hashtable
    {
      hashtable.All()
    }

    ghost predicate Valid()
      reads this, hashtable
    {
      && hashtable.Valid()
      && Consed(Stored(), nextTermId)
      && (forall t :: t in Stored() ==> Honest(t))
      && forall n :: n in symbolTable ==> symbolTable[n] in Stored() && Names(n, symbolTable[n])
    }

    /** A term is what the wrapped solver made of the operator and the children that it reports. */
    ghost predicate Honest(t: LoggingTerm<W>) {
      match t.op
      case Some(op) =>
        && wrappedApply(op, WrappedOf(t.children)) == Some(t.wrapped)
        && computeSort(op, SortsOf(t.children)) == Some(t.sort)
      case None =>
        t.children == [] || (|t.children| == 1 && wrappedConstArray(t.children[0].wrapped, t.sort) == Some(t.wrapped))
    }

    /** The wrapped solver knows the symbol by this name. */
    ghost predicate Names(name: string, t: LoggingTerm<W>) {
      wrappedSymbol(name, t.sort) == Some(t.wrapped)
    }

    /** `r` is stored, nothing else is new, and an id is used up exactly when `r` is new. */
    twostate predicate Grown(new r: LoggingTerm<W>)
      reads this, hashtable
    {
      && Stored() == old(Stored()) + {r}
      && nextTermId == old(nextTermId) + (if r in old(Stored()) then 0 else 1)
      && (r !in old(Stored()) ==> r.id == old(nextTermId))
    }

    /** The stored equal of a newly built term, or the term itself, which is then stored. */
    method Intern(t: LoggingTerm<W>) returns (r: LoggingTerm<W>)
      requires Valid() && t.id == nextTermId && Honest(t) && forall c :: c in t.children ==> c in Stored()
      modifies this`nextTermId, hashtable
      ensures Valid() && Grown(r) && r.Compare(t)
      ensures r == t || r in old(Stored())
    {
      var found;
      found, r := hashtable.Lookup(t);
      if !found {
        ConsedAdd(Stored(), nextTermId, t);
        hashtable.Insert(r);
        nextTermId := nextTermId + 1;
      } else {
        assert Stored() == Stored() + {r};
      }
    }

    /** A value of a sort; the sort of `true` and `false` is the Boolean sort. */
    method MakeValue(v: Term, sort: Sort) returns (r: Option<LoggingTerm<W>>)
      requires Valid()
      modifies this`nextTermId, hashtable
      ensures Valid() && r.Some? == wrappedValue(v, sort).Some?
      ensures r.None? ==> Stored() == old(Stored()) && nextTermId == old(nextTermId)
      ensures r.Some? ==> Grown(r.value) && r.value.wrapped == wrappedValue(v, sort).value
      ensures r.Some? ==> r.value.sort == sort && r.value.op == None && r.value.children == []
    {
      var w := wrappedValue(v, sort);
      if w.None? {
        return None;
      }
      var res := new LoggingTerm(w.value, sort, None, [], nextTermId);
      var kept := Intern(res);
      r := Some(kept);
    }

    /** Constant arrays keep the value as their only child. */
    method MakeConstArray(v: LoggingTerm<W>, sort: Sort) returns (r: Option<LoggingTerm<W>>)
      requires Valid() && v in Stored()
      modifies this`nextTermId, hashtable
      ensures Valid() && r.Some? == (wrappedConstArray(v.wrapped, sort).Some? && sort.ArraySort?)
      ensures r.None? ==> Stored() == old(Stored()) && nextTermId == old(nextTermId)
      ensures r.Some? ==> Grown(r.value) && r.value.wrapped == wrappedConstArray(v.wrapped, sort).value
      ensures r.Some? ==> r.value.sort == sort && r.value.op == None && r.value.children == [v]
    {
      var w := wrappedConstArray(v.wrapped, sort);
      if w.None? || !sort.ArraySort? {
        return None;
      }
      var res := new LoggingTerm(w.value, sort, None, [v], nextTermId);
      var kept := Intern(res);
      r := Some(kept);
    }

    method MakeSymbol(name: string, sort: Sort) returns (r: Option<LoggingTerm<W>>)
      requires Valid()
      modifies this, hashtable
      ensures Valid() && r.Some? == wrappedSymbol(name, sort).Some?
      ensures r.None? ==> Stored() == old(Stored()) && nextTermId == old(nextTermId) && symbolTable == old(symbolTable)
      ensures r.Some? ==> Grown(r.value) && r.value.wrapped == wrappedSymbol(name, sort).value
      ensures r.Some? ==> r.value.sort == sort && r.value.op == None && r.value.children == []
      ensures r.Some? ==> symbolTable == old(symbolTable)[name := r.value]
      ensures r.Some? && r.value !in old(Stored()) ==> r.value.isSymbol && r.value.repr == name
    {
      var w := wrappedSymbol(name, sort);
      if w.None? {
        return None;
      }
      var res := new LoggingTerm.Named(w.value, sort, name, true, nextTermId);
      var kept := Intern(res);
      symbolTable := symbolTable[name := kept];
      r := Some(kept);
    }

    method MakeParam(name: string, sort: Sort) returns (r: Option<LoggingTerm<W>>)
      requires Valid()
      modifies this`nextTermId, hashtable
      ensures Valid() && r.Some? == wrappedParam(name, sort).Some?
      ensures r.None? ==> Stored() == old(Stored()) && nextTermId == old(nextTermId)
      ensures r.Some? ==> Grown(r.value) && r.value.wrapped == wrappedParam(name, sort).value
      ensures r.Some? ==> r.value.sort == sort && r.value.op == None && r.value.children == []
      ensures r.Some? && r.value !in old(Stored()) ==> r.value.isParam && r.value.repr == name
    {
      var w := wrappedParam(name, sort);
      if w.None? {
        return None;
      }
      var res := new LoggingTerm.Named(w.value, sort, name, false, nextTermId);
      var kept := Intern(res);
      r := Some(kept);
    }

    /** Whatever the wrapped solver makes of the application, the result reports the operator and the
        very child objects given. */
    method MakeTerm(op: Op, terms: seq<LoggingTerm<W>>) returns (r: Option<LoggingTerm<W>>)
      requires Valid() && forall t :: t in terms ==> t in Stored()
      modifies this`nextTermId, hashtable
      ensures Valid()
      ensures r.Some? == (wrappedApply(op, WrappedOf(terms)).Some? && computeSort(op, SortsOf(terms)).Some?)
      ensures r.None? ==> Stored() == old(Stored()) && nextTermId == old(nextTermId)
      ensures r.Some? ==> Grown(r.value) && r.value.wrapped == wrappedApply(op, WrappedOf(terms)).value
      ensures r.Some? ==> r.value.sort == computeSort(op, SortsOf(terms)).value
      ensures r.Some? ==> r.value.op == Some(op) && r.value.children == terms
    {
      var wrapped := [];
      for i := 0 to |terms|
        invariant wrapped == WrappedOf(terms)[..i]
      {
        wrapped := wrapped + [terms[i].wrapped];
      }
      assert wrapped == WrappedOf(terms);
      var w := wrappedApply(op, wrapped);
      if w.None? {
        return None;
      }
      var sort := computeSort(op, SortsOf(terms));
      if sort.None? {
        return None;
      }
      var res := new LoggingTerm(w.value, sort.value, Some(op), terms, nextTermId);
      var kept := Intern(res);
      r := Some(kept);
    }

    // ----- whatever the wrapped solver rewrites -----

    /** Values of the wrapped terms that agree with what the wrapped solver builds: its rewriting keeps the value. */
    ghost predicate Respects<V(!new)>(of: W -> V, m: Interp<V>) {
      && (forall op, ws :: wrappedApply(op, ws).Some? ==> of(wrappedApply(op, ws).value) == m.apply(op, Each(of, ws)))
      && (forall w, s :: wrappedConstArray(w, s).Some? ==> of(wrappedConstArray(w, s).value) == m.constArray(s, of(w)))
    }

    /** A stored term means what it reports, however the wrapped solver has rewritten it: the wrapped term has the
        value of the reported operators at the values of the reported leaves. */
    lemma {:induction false} ReportedMeans<V(!new)>(of: W -> V, m: Interp<V>, t: LoggingTerm<W>)
      requires Valid() && t in Stored() && Respects(of, m)
      ensures Grounded(t) && of(t.wrapped) == Reported(of, m, t)
      decreases t.id
    {
      ConsedGrounded(Stored(), nextTermId, t);
      assert Honest(t);
      forall i | 0 <= i < |t.children|
        ensures of(t.children[i].wrapped) == Reported(of, m, t.children[i])
      {
        assert t.children[i] in t.children;
        ReportedMeans(of, m, t.children[i]);
      }
      if t.op.Some? {
        assert Each(of, WrappedOf(t.children)) == seq(|t.children|, i requires 0 <= i < |t.children| =>
          assert t.children[i] in t.children; Reported(of, m, t.children[i]));
      } else if |t.children| == 1 {
        assert t.children[0] in t.children;
      }
    }

    /** The sort of a stored application is the one inferred from the sorts that its children report. */
    lemma ReportedSort(t: LoggingTerm<W>)
      requires Valid() && t in Stored() && t.op.Some?
      ensures computeSort(t.op.value, SortsOf(t.children)) == Some(t.sort)
    {
      assert Honest(t);
    }
  }
}
