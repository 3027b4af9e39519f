/** A solver seen from outside: declared symbols, a stack of assertions, and an exact oracle
    that says whether assertions and assumptions are satisfiable and, if not, gives a core. */
module Solvers {
  import opened Terms
  import opened Logic
  import opened Symbols

  datatype Oracle = Oracle(sat: (set<Term>, set<Term>) -> bool, core: (set<Term>, set<Term>) -> set<Term>)

  /** The oracle never errs and never gives up; cores are unsatisfiable subsets of the assumptions. */
  ghost predicate Exact<V(!new)>(th: Theory<V>, o: Oracle) {
    forall asserted, assumed :: ExactAt(th, o, asserted, assumed)
  }

  ghost predicate ExactAt<V(!new)>(th: Theory<V>, o: Oracle, asserted: set<Term>, assumed: set<Term>) {
    && o.sat(asserted, assumed) == Sat(th, asserted + assumed)
    && (!o.sat(asserted, assumed) ==>
          o.core(asserted, assumed) <= assumed && !Sat(th, asserted + o.core(asserted, assumed)))
  }

  function Union(levels: seq<set<Term>>): set<Term> {
    if levels == [] then {} else Union(levels[..|levels| - 1]) + levels[|levels| - 1]
  }

  class Solver<V(!new)> {
    ghost const th: Theory<V>
    const oracle: Oracle
    const symbols: SymbolTable
    var levels: seq<set<Term>>
    var core: set<Term>

    ghost predicate Valid()
      reads this`levels
    {
      levels != [] && Standard(th) && Exact(th, oracle)
    }

    function Asserted(): set<Term>
      reads this`levels
    {
      Union(levels)
    }

    constructor (ghost th: Theory<V>, oracle: Oracle, symbols: SymbolTable)
      requires Standard(th) && Exact(th, oracle)
      ensures Valid() && this.th == th && this.oracle == oracle && this.symbols == symbols
      ensures Asserted() == {}
    {
      this.th, this.oracle, this.symbols, levels, core := th, oracle, symbols, [{}], {};
      new;
      assert levels[..0] == [];
    }

    method Push()
      requires Valid()
      modifies this`levels
      ensures Valid() && levels == old(levels) + [{}] && Asserted() == old(Asserted())
    {
      levels := levels + [{}];
      assert levels[..|levels| - 1] == old(levels);
    }

    method Pop()
      requires Valid() && |levels| > 1
      modifies this`levels
      ensures Valid() && levels == old(levels)[..|old(levels)| - 1]
    {
      levels := levels[..|levels| - 1];
    }

    method Assert(t: Term)
      requires Valid()
      modifies this`levels
      ensures Valid() && levels == old(levels)[|old(levels)| - 1 := old(levels)[|old(levels)| - 1] + {t}]
      ensures Asserted() == old(Asserted()) + {t}
    {
      var k := |levels| - 1;
      levels := levels[k := levels[k] + {t}];
      assert levels[..k] == old(levels)[..k];
    }

    method CheckSat() returns (sat: bool)
      requires Valid()
      ensures sat == Sat(th, Asserted())
    {
      assert ExactAt(th, oracle, Asserted(), {});
      sat := oracle.sat(Asserted(), {});
      assert Asserted() + {} == Asserted();
    }

    /** The core is kept for get_unsat_assumptions. */
    method CheckSatAssuming(assumptions: seq<Term>) returns (sat: bool)
      requires Valid()
      modifies this`core
      ensures Valid() && sat == Sat(th, Asserted() + SetOf(assumptions))
      ensures !sat ==> core <= SetOf(assumptions) && !Sat(th, Asserted() + core)
      ensures sat == oracle.sat(Asserted(), SetOf(assumptions))
      ensures !sat ==> core == oracle.core(Asserted(), SetOf(assumptions))
    {
      assert ExactAt(th, oracle, Asserted(), SetOf(assumptions));
      sat := oracle.sat(Asserted(), SetOf(assumptions));
      if !sat {
        core := oracle.core(Asserted(), SetOf(assumptions));
      }
    }
  }
}
