/** The symbols declared in a solver, and the search for a fresh name by numbered attempts. */
module Symbols {
  import opened Terms
  import opened Sorts
  import opened Text

  /** The first index from k on whose name is not taken. */
  function FreshIndex(taken: set<string>, prefix: string, k: nat): (r: nat)
    ensures r >= k && prefix + Decimal(r) !in taken
    ensures forall j :: k <= j < r ==> prefix + Decimal(j) in taken
    decreases |taken|
  {
    var name := prefix + Decimal(k);
    if name !in taken then k
    else
      var r := FreshIndex(taken - {name}, prefix, k + 1);
      assert prefix + Decimal(r) != name by {
        if prefix + Decimal(r) == name {
          assert (prefix + Decimal(r))[|prefix|..] == Decimal(r) && name[|prefix|..] == Decimal(k);
          PrintedApart(r, k);
        }
      }
      r
  }

  function FreshName(taken: set<string>, prefix: string, k: nat): (name: string)
    ensures name !in taken
  {
    prefix + Decimal(FreshIndex(taken, prefix, k))
  }

  class SymbolTable {
    var declared: set<string>

    constructor (declared: set<string>)
      ensures this.declared == declared
    {
      this.declared := declared;
    }

    /** make_symbol: None stands for the exception on a name that is taken. */
    method MakeSymbol(name: string, sort: Sort) returns (r: Option<Term>)
      modifies this
      ensures r == if name in old(declared) then None else Some(Symbol(name, sort))
      ensures declared == old(declared) + {name}
    {
      if name in declared {
        r := None;
      } else {
        r := Some(Symbol(name, sort));
      }
      declared := declared + {name};
    }

    /** The loop that tries prefix + k, prefix + (k + 1), ... until a symbol can be made. */
    method MakeFresh(prefix: string, k: nat, sort: Sort) returns (x: Term)
      modifies this
      ensures x == Symbol(FreshName(old(declared), prefix, k), sort)
      ensures declared == old(declared) + {x.name}
    {
      var i := k;
      var r := MakeSymbol(prefix + Decimal(i), sort);
      while r.None?
        invariant k <= i <= FreshIndex(old(declared), prefix, k)
        invariant r == if prefix + Decimal(i) in old(declared) then None else Some(Symbol(prefix + Decimal(i), sort))
        invariant declared == old(declared) + {prefix + Decimal(i)}
        decreases FreshIndex(old(declared), prefix, k) - i
      {
        i := i + 1;
        r := MakeSymbol(prefix + Decimal(i), sort);
      }
      x := r.value;
    }
  }
}
