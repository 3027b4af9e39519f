/** SmtLibReader of src/smtlib_reader.cpp: scopes, symbols, temporaries and defined functions,
    driven by the term rules of src/smtlibparser.yy. */
module Reader {
  import opened Terms
  import opened Sorts
  import opened Text
  import opened Symbols
  import opened Substitution
  import opened Scopes
  import opened Macros
  import opened Lets
  import opened Commands

  type Counts = map<Sort, nat>

  ghost function TempsOf(tmp: Temporaries): set<Term> {
    set s, t | s in tmp && t in tmp[s] :: t
  }

  /** The temporaries that the open scope has handed out. */
  ghost function InUse(tmp: Temporaries, ids: Counts): set<Term> {
    set s, i | s in tmp && s in ids && 0 <= i < |tmp[s]| && i < ids[s] :: tmp[s][i]
  }

  /** Every declared symbol is known under its name. */
  ghost predicate SymbolsOk(all: map<string, Term>, declared: set<string>) {
    forall n :: n in all ==> all[n].Symbol? && all[n].name == n && n in declared
  }

  /** Temporaries are symbols of their sort, different from each other and from what the user declared. */
  ghost predicate TempsOk(tmp: Temporaries, all: map<string, Term>, declared: set<string>) {
    && (forall s :: s in tmp ==> AllDifferent(tmp[s]))
    && forall s, t :: s in tmp && t in tmp[s] ==> t.Symbol? && t.sort == s && t.name in declared && t.name !in all
  }

  ghost predicate TempsNamed(tmp: Temporaries, c: Setting) {
    forall s, i :: s in tmp && 0 <= i < |tmp[s]| ==> tmp[s][i] == Symbol(TemporaryName(c, s, i), s)
  }

  lemma TempsNamedSnoc(tmp: Temporaries, c: Setting, sort: Sort, t: Term)
    requires TempsNamed(tmp, c) && t == Symbol(TemporaryName(c, sort, |TempsIn(tmp, sort)|), sort)
    ensures TempsNamed(WithTemp(tmp, sort, t), c)
  {
  }

  ghost predicate CountOk(ids: Counts, tmp: Temporaries) {
    forall s :: s in ids ==> s in tmp && ids[s] <= |tmp[s]|
  }

  ghost predicate CountsOk(ids: seq<Counts>, tmp: Temporaries) {
    forall k :: 0 <= k < |ids| ==> CountOk(ids[k], tmp)
  }

  // ----- steps -----

  lemma TempsApart(tmp: Temporaries, all: map<string, Term>, declared: set<string>)
    requires SymbolsOk(all, declared) && TempsOk(tmp, all, declared)
    ensures TempsOf(tmp) !! all.Values
  {
  }

  lemma NewSymbolOk(tmp: Temporaries, all: map<string, Term>, declared: set<string>, name: string, sort: Sort)
    requires SymbolsOk(all, declared) && TempsOk(tmp, all, declared) && name !in declared
    ensures SymbolsOk(all[name := Symbol(name, sort)], declared + {name})
    ensures TempsOk(tmp, all[name := Symbol(name, sort)], declared + {name})
    ensures all.Values <= all[name := Symbol(name, sort)].Values
    ensures Symbol(name, sort) in all[name := Symbol(name, sort)].Values
  {
    var all' := all[name := Symbol(name, sort)];
    assert all'[name] in all'.Values;
    forall t | t in all.Values
      ensures t in all'.Values
    {
      var n :| n in all && all[n] == t;
      assert all'[n] == t;
    }
  }

  /** A new temporary at the end of the list of its sort. */
  lemma NewTempOk(tmp: Temporaries, all: map<string, Term>, declared: set<string>, name: string, sort: Sort)
    requires SymbolsOk(all, declared) && TempsOk(tmp, all, declared) && name !in declared
    ensures var tmp' := WithTemp(tmp, sort, Symbol(name, sort));
      && TempsOk(tmp', all, declared + {name}) && TempsOf(tmp) <= TempsOf(tmp')
  {
    var ts := TempsIn(tmp, sort);
    var x := Symbol(name, sort);
    assert forall t :: t in ts ==> t != x;
    assert AllDifferent(ts + [x]);
    var tmp' := tmp[sort := ts + [x]];
    forall t | t in TempsOf(tmp)
      ensures t in TempsOf(tmp')
    {
      var s :| s in tmp && t in tmp[s];
      assert t in tmp'[s];
    }
  }

  /** Handing out the next temporary of a sort: it is not in use yet. */
  lemma NextTemp(tmp: Temporaries, all: map<string, Term>, declared: set<string>, ids: Counts, sort: Sort)
    requires TempsOk(tmp, all, declared) && CountOk(ids, tmp) && sort in tmp
    requires (if sort in ids then ids[sort] else 0) < |tmp[sort]|
    ensures var id := if sort in ids then ids[sort] else 0;
      && tmp[sort][id] !in InUse(tmp, ids) && tmp[sort][id] in TempsOf(tmp)
      && tmp[sort][id].Symbol? && tmp[sort][id].sort == sort
      && InUse(tmp, Next(ids, sort, id)) == InUse(tmp, ids) + {tmp[sort][id]}
  {
    var id := if sort in ids then ids[sort] else 0;
    var x, ids' := tmp[sort][id], Next(ids, sort, id);
    assert x in tmp[sort];
    forall s, i | s in tmp && s in ids && 0 <= i < |tmp[s]| && i < ids[s]
      ensures tmp[s][i] != x
    {
      assert tmp[s][i] in tmp[s] && tmp[s][i].sort == s;
      assert s == sort ==> i < id;
    }
    forall t | t in InUse(tmp, ids)
      ensures t in InUse(tmp, ids')
    {
      var s, i :| s in tmp && s in ids && 0 <= i < |tmp[s]| && i < ids[s] && t == tmp[s][i];
      assert s in ids' && i < ids'[s];
    }
    forall t | t in InUse(tmp, ids')
      ensures t in InUse(tmp, ids) + {x}
    {
      var s, i :| s in tmp && s in ids' && 0 <= i < |tmp[s]| && i < ids'[s] && t == tmp[s][i];
      if s != sort || i < id {
        assert s in ids && i < ids[s];
      }
    }
    assert sort in ids' && id < ids'[sort];
  }

  /** A new temporary is not in use. */
  lemma SameInUse(tmp: Temporaries, ids: Counts, sort: Sort, x: Term)
    requires CountOk(ids, tmp)
    ensures InUse(WithTemp(tmp, sort, x), ids) == InUse(tmp, ids)
  {
    var tmp' := WithTemp(tmp, sort, x);
    forall t | t in InUse(tmp, ids)
      ensures t in InUse(tmp', ids)
    {
      var s, i :| s in tmp && s in ids && 0 <= i < |tmp[s]| && i < ids[s] && t == tmp[s][i];
      assert tmp'[s][i] == t;
    }
    forall t | t in InUse(tmp', ids)
      ensures t in InUse(tmp, ids)
    {
      var s, i :| s in tmp' && s in ids && 0 <= i < |tmp'[s]| && i < ids[s] && t == tmp'[s][i];
      assert tmp[s][i] == t;
    }
  }

  lemma CountsTemp(ids: seq<Counts>, tmp: Temporaries, sort: Sort, x: Term)
    requires CountsOk(ids, tmp)
    ensures CountsOk(ids, WithTemp(tmp, sort, x))
  {
    var tmp' := WithTemp(tmp, sort, x);
    forall k | 0 <= k < |ids|
      ensures CountOk(ids[k], tmp')
    {
      assert CountOk(ids[k], tmp);
    }
  }

  function Next(ids: Counts, sort: Sort, id: nat): Counts {
    ids[sort := id + 1]
  }

  lemma CountsNext(ids: seq<Counts>, tmp: Temporaries, sort: Sort, id: nat)
    requires CountsOk(ids, tmp) && ids != [] && sort in tmp && id < |tmp[sort]|
    ensures CountsOk(ids[|ids| - 1 := Next(ids[|ids| - 1], sort, id)], tmp)
  {
    assert CountOk(ids[|ids| - 1], tmp);
    assert CountOk(Next(ids[|ids| - 1], sort, id), tmp);
  }

  /** How many temporaries of each sort are handed out. */
  ghost predicate CountsAre(ids: Counts, params: seq<(string, Sort)>) {
    forall s: Sort :: (if s in ids then ids[s] else 0) == CountOf(params, s)
  }

  lemma {:induction false} CountsSnoc(ids: Counts, params: seq<(string, Sort)>, p: (string, Sort))
    requires CountsAre(ids, params)
    ensures CountsAre(Next(ids, p.1, CountOf(params, p.1)), params + [p])
  {
    var ids', all := Next(ids, p.1, CountOf(params, p.1)), params + [p];
    assert all[..|params|] == params;
    forall s: Sort
      ensures (if s in ids' then ids'[s] else 0) == CountOf(all, s)
    {
      assert (if s in ids then ids[s] else 0) == CountOf(params, s);
    }
  }

  lemma {:induction false} ZipKeys<T>(xs: seq<string>, vs: seq<T>)
    requires |xs| == |vs|
    ensures forall x :: x in Zip(xs, vs) <==> x in xs
    decreases |xs|
  {
    if xs != [] {
      ZipKeys(xs[..|xs| - 1], vs[..|vs| - 1]);
      SplitLast(xs);
    }
  }

  /** The parameters have got different temporaries, and nothing else is bound or in use. */
  ghost predicate Registered(c: Setting, params: seq<(string, Sort)>, formals: seq<Term>, temps: set<Term>,
                             handed: set<Term>, locals: map<string, Term>)
  {
    && formals == FormalsOf(c, params) && AllDifferent(formals) && SetOf(formals) == handed
    && (forall v :: v in formals ==> v in temps && v.Symbol?)
    && locals == Zip(NamesOf(params), formals)
  }

  lemma {:induction false} RegisteredSnoc(c: Setting, params: seq<(string, Sort)>, formals: seq<Term>,
                                          temps: set<Term>, handed: set<Term>,
                                          locals: map<string, Term>, p: (string, Sort), v: Term, temps': set<Term>)
    requires Registered(c, params, formals, temps, handed, locals)
    requires v == Symbol(TemporaryName(c, p.1, CountOf(params, p.1)), p.1)
    requires v !in handed && v in temps' && temps <= temps'
    ensures Registered(c, params + [p], formals + [v], temps', handed + {v}, locals[p.0 := v])
  {
    ZipSnoc(NamesOf(params), formals, p.0, v);
    assert (params + [p])[..|params|] == params;
    assert NamesOf(params + [p]) == NamesOf(params) + [p.0];
    assert forall u :: u in formals ==> u in SetOf(formals);
  }

  // ----- where global names come from -----

  /** In every scope, each name stands for what its origin says. */
  ghost predicate ScopeOrigins(user: set<Term>, ds: seq<Definition>, origins: Frames<Global>, frames: Frames<Term>) {
    |origins| == |frames| && forall i :: 0 <= i < |frames| ==> Origins(user, ds, origins[i], frames[i])
  }

  lemma OriginsMore(user: set<Term>, ds: seq<Definition>, names: map<string, Global>, globals: map<string, Term>,
                    user': set<Term>, ds': seq<Definition>)
    requires Origins(user, ds, names, globals) && user <= user' && ds <= ds'
    ensures Origins(user', ds', names, globals)
  {
  }

  lemma ScopeOriginsMore(user: set<Term>, ds: seq<Definition>, origins: Frames<Global>, frames: Frames<Term>,
                         user': set<Term>, ds': seq<Definition>)
    requires ScopeOrigins(user, ds, origins, frames) && user <= user' && ds <= ds'
    ensures ScopeOrigins(user', ds', origins, frames)
  {
    forall i | 0 <= i < |frames|
      ensures Origins(user', ds', origins[i], frames[i])
    {
      OriginsMore(user, ds, origins[i], frames[i], user', ds');
    }
  }

  lemma ScopeOriginsAdd(user: set<Term>, ds: seq<Definition>, origins: Frames<Global>, frames: Frames<Term>,
                        name: string, g: Global, t: Term)
    requires ScopeOrigins(user, ds, origins, frames) && frames != []
      && Origins(user, ds, map[name := g], map[name := t])
    ensures ScopeOrigins(user, ds, Added(origins, name, g), Added(frames, name, t))
  {
    var top := |frames| - 1;
    assert name in map[name := g];
    assert Origins(user, ds, origins[top][name := g], frames[top][name := t]);
  }

  lemma ScopeOriginsPush(user: set<Term>, ds: seq<Definition>, origins: Frames<Global>, frames: Frames<Term>, n: nat)
    requires ScopeOrigins(user, ds, origins, frames)
    ensures ScopeOrigins(user, ds, origins + Opened(n), frames + Opened(n))
  {
    forall i | 0 <= i < |frames| + n
      ensures Origins(user, ds, (origins + Opened(n))[i], (frames + Opened(n))[i])
    {
      if i >= |frames| {
        assert (origins + Opened(n))[i] == map[] && (frames + Opened(n))[i] == map[];
      }
    }
  }

  lemma OneOrigin(user: set<Term>, ds: seq<Definition>, name: string, g: Global, t: Term)
    requires match g
      case Declared(u) => u == t && t.Symbol? && t in user
      case Alias(k) => k < |ds| && ds[k].params == [] && ds[k].term == t
    ensures Origins(user, ds, map[name := g], map[name := t])
  {
  }

  lemma {:induction false} MergedOrigins(user: set<Term>, ds: seq<Definition>, origins: Frames<Global>,
                                         frames: Frames<Term>)
    requires ScopeOrigins(user, ds, origins, frames)
    ensures Origins(user, ds, Merged(origins), Merged(frames))
  {
    if frames != [] {
      MergedOrigins(user, ds, origins[..|origins| - 1], frames[..|frames| - 1]);
      assert Origins(user, ds, origins[|origins| - 1], frames[|frames| - 1]);
    }
  }

  /** Only the innermost scope has changed. */
  ghost predicate SameOutside(ids: seq<Counts>, frames: Frames<Term>, ids': seq<Counts>, frames': Frames<Term>) {
    && |ids'| == |ids| && |frames'| == |frames|
    && (ids != [] ==> ids'[..|ids| - 1] == ids[..|ids| - 1])
    && Outer(frames') == Outer(frames)
  }

  lemma OutsideStep(ids: seq<Counts>, frames: Frames<Term>, sort: Sort, id: nat, name: string, t: Term)
    requires ids != [] && frames != []
    ensures SameOutside(ids, frames, ids[|ids| - 1 := Next(ids[|ids| - 1], sort, id)], Added(frames, name, t))
  {
  }

  lemma OutsideAgain(ids: seq<Counts>, frames: Frames<Term>, ids': seq<Counts>, frames': Frames<Term>,
                     ids'': seq<Counts>, frames'': Frames<Term>)
    requires SameOutside(ids, frames, ids', frames') && SameOutside(ids', frames', ids'', frames'')
    ensures SameOutside(ids, frames, ids'', frames'')
  {
  }

  function Outer(fs: Frames<Term>): Frames<Term> {
    if fs == [] then [] else fs[..|fs| - 1]
  }

  lemma PrefixOf(fs: Frames<Term>, n: nat)
    requires 0 < n <= |fs|
    ensures fs[..n][..n - 1] == fs[..n - 1]
  {
  }

  /** The name of a temporary does not determine its sort: the eleventh of a sort A and the first of a
      sort A1 are called the same. */
  lemma TemporaryNamesCollide(prefix: string, text: string)
    ensures prefix + text + Decimal(10) == prefix + (text + "1") + Decimal(0)
  {
    assert Decimal(10) == "10" && Decimal(0) == "0";
    assert prefix + text + "10" == prefix + (text + "1") + "0";
  }

  class SmtLibReader {
    const globalSymbols: ScopedSymbolMap
    const argParamMap: ScopedSymbolMap
    const solver: SymbolTable
    const strict: bool
    const sortText: Sort -> string
    const defArgPrefix: string
    const allowUfs: bool
    var solverLevel: nat
    var allSymbols: map<string, Term>
    /** defs_ and def_args_, which always have the same keys. */
    var defs: map<string, Macro>
    var tmpArgs: Temporaries
    var sortArgIds: seq<Counts>
    /** The definitions so far, oldest first. */
    ghost var history: seq<Definition>
    /** Where the names of each global scope come from. */
    ghost var origins: Frames<Global>

    constructor (solver: SymbolTable, strict: bool, allowUfs: bool, sortText: Sort -> string)
      ensures Valid() && fresh(globalSymbols) && fresh(argParamMap) && this.solver == solver
      ensures this.strict == strict && this.allowUfs == allowUfs && this.sortText == sortText
      ensures State() == Start(solver.declared) && solverLevel == 0
    {
      globalSymbols := new ScopedSymbolMap();
      argParamMap := new ScopedSymbolMap();
      this.solver, this.strict, this.allowUfs, this.sortText := solver, strict, allowUfs, sortText;
      defArgPrefix, solverLevel, allSymbols, defs := "__defvar_", 0, map[], map[];
      tmpArgs, sortArgIds, history, origins := map[], [], [], [map[]];
    }

    function Conf(): Setting {
      Setting(strict, allowUfs, defArgPrefix, sortText)
    }

    ghost function PoolNow(): Pool
      reads this`tmpArgs, solver
    {
      Pool(tmpArgs, solver.declared)
    }

    /** The state between two commands. */
    ghost function State(): Snapshot
      reads this`history, this`origins, this`allSymbols, this`tmpArgs, globalSymbols`frames, solver
    {
      Snapshot(globalSymbols.frames, origins, history, allSymbols, PoolNow())
    }

    ghost function User(): set<Term>
      reads this`allSymbols
    {
      allSymbols.Values
    }

    ghost function Temps(): set<Term>
      reads this`tmpArgs
    {
      TempsOf(tmpArgs)
    }

    /** The temporaries handed out in the innermost scope. */
    ghost function Handed(): set<Term>
      reads this`tmpArgs, this`sortArgIds
    {
      if sortArgIds == [] then {} else InUse(tmpArgs, sortArgIds[|sortArgIds| - 1])
    }

    /** What names mean at this point of the text. */
    ghost function Here(): Env
      reads this`defs, globalSymbols, argParamMap
    {
      Env(InOrder, argParamMap.symbolMap, globalSymbols.symbolMap, defs)
    }

    ghost predicate ScopesOk()
      reads this`solverLevel, this`sortArgIds, globalSymbols, argParamMap
    {
      && globalSymbols != argParamMap && globalSymbols.Valid() && argParamMap.Valid()
      && solverLevel == globalSymbols.CurrentScope() && |sortArgIds| == argParamMap.CurrentScope()
      && argParamMap.frames[0] == map[]
    }

    ghost predicate SymbolTablesOk()
      reads this`allSymbols, this`tmpArgs, this`sortArgIds, solver
    {
      && SymbolsOk(allSymbols, solver.declared) && TempsOk(tmpArgs, allSymbols, solver.declared)
      && CountsOk(sortArgIds, tmpArgs) && TempsNamed(tmpArgs, Conf())
    }

    ghost predicate MacrosOk()
      reads this`defs, this`history, this`allSymbols, this`tmpArgs
    {
      defs == MacrosOf(history) && Defined(InOrder, User(), Temps(), history)
    }

    ghost predicate OriginsOk()
      reads this`history, this`origins, this`allSymbols, globalSymbols`frames
    {
      ScopeOrigins(User(), history, origins, globalSymbols.frames)
    }

    /** Global terms mention declared symbols only; local ones may mention temporaries. */
    ghost predicate TermsOk()
      reads this`allSymbols, this`tmpArgs, globalSymbols, argParamMap
    {
      AllClean(globalSymbols.symbolMap, User()) && AllClean(argParamMap.symbolMap, User() + Temps())
    }

    ghost predicate Valid()
      reads this, globalSymbols, argParamMap, solver
    {
      ScopesOk() && SymbolTablesOk() && MacrosOk() && OriginsOk() && TermsOk()
    }

    /** What is needed to say that reading keeps the meaning. */
    lemma HereIsGood()
      requires Valid()
      ensures InForce(User(), Temps(), history, Merged(origins), Here())
    {
      TempsApart(tmpArgs, allSymbols, solver.declared);
      VisibleIsMerged(globalSymbols.symbols, globalSymbols.symbolMap);
      MergedOrigins(User(), history, origins, globalSymbols.frames);
    }

    // ----- solver contexts -----

    /** Opens as many scopes as the solver opens contexts. */
    method Push(num: nat)
      requires Valid()
      modifies this`solverLevel, this`origins, globalSymbols
      ensures Valid() && solverLevel == old(solverLevel) + num
      ensures globalSymbols.symbolMap == old(globalSymbols.symbolMap)
      ensures CommandStep(Conf(), old(State()), Command.Push(num), State())
    {
      StateShape();
      PushStep(Conf(), State(), num);
      ScopeOriginsPush(User(), history, origins, globalSymbols.frames, num);
      PushScopes(globalSymbols, num);
      origins, solverLevel := origins + Opened(num), solverLevel + num;
    }

    static method PushScopes(m: ScopedSymbolMap, num: nat)
      requires m.Valid()
      modifies m
      ensures m.Valid() && |m.symbols| == |old(m.symbols)| + num
      ensures m.frames == old(m.frames) + Opened(num) && m.symbolMap == old(m.symbolMap)
    {
      for i := 0 to num
        invariant m.Valid() && |m.symbols| == |old(m.symbols)| + i
        invariant m.frames == old(m.frames) + Opened(i) && m.symbolMap == old(m.symbolMap)
      {
        m.PushScope();
      }
    }

    static method PopScopes(m: ScopedSymbolMap, num: nat)
      requires m.Valid() && num <= m.CurrentScope()
      modifies m
      ensures m.Valid() && |m.symbols| == |old(m.symbols)| - num
      ensures m.frames == old(m.frames)[..|m.symbols|]
      ensures m.symbolMap == Merged(m.frames)
      ensures Submap(m.symbolMap, old(m.symbolMap))
    {
      VisibleIsMerged(m.symbols, m.symbolMap);
      ghost var before, total := m.frames, |m.symbols|;
      for i := 0 to num
        invariant m.Valid() && |m.symbols| == total - i
        invariant m.frames == before[..total - i]
        invariant m.symbolMap == Merged(m.frames)
        invariant Submap(m.symbolMap, old(m.symbolMap))
      {
        m.PopScope();
        PrefixOf(before, total - i);
      }
    }

    /** Closes as many scopes as the solver closes contexts; definitions stay. */
    method Pop(num: nat)
      requires Valid() && num <= globalSymbols.CurrentScope()
      modifies this`solverLevel, this`origins, globalSymbols
      ensures Valid() && solverLevel == old(solverLevel) - num
      ensures globalSymbols.symbolMap == Merged(globalSymbols.frames)
      ensures defs == old(defs) && CommandStep(Conf(), old(State()), Command.Pop(num), State())
    {
      CanPop(num);
      ghost var before, user := globalSymbols.symbolMap, User();
      PopScopes(globalSymbols, num);
      assert User() == user && AllClean(globalSymbols.symbolMap, User()) by {
        AllCleanSub(globalSymbols.symbolMap, before, User());
      }
      origins, solverLevel := origins[..|origins| - num], solverLevel - num;
    }

    lemma CanPop(num: nat)
      requires Valid() && num <= globalSymbols.CurrentScope()
      ensures num < |globalSymbols.frames| && num <= |origins|
      ensures CommandStep(Conf(), State(), Command.Pop(num),
        State().(frames := globalSymbols.frames[..|globalSymbols.frames| - num], origins := origins[..|origins| - num]))
    {
      StateShape();
      PopStep(Conf(), State(), num);
    }

    // ----- symbols -----

    function LookupSymbol(sym: string): Option<Term>
      requires argParamMap.symbols != []
      reads this, globalSymbols, argParamMap
    {
      if sym == "true" then Some(BoolValue(true))
      else if sym == "false" then Some(BoolValue(false))
      else if argParamMap.CurrentScope() > 0 && argParamMap.GetSymbol(sym).Some? then argParamMap.GetSymbol(sym)
      else globalSymbols.GetSymbol(sym)
    }

    /** Nothing is bound outside of all argument scopes. */
    lemma NothingBound()
      requires Valid() && argParamMap.CurrentScope() == 0
      ensures argParamMap.symbolMap == map[] && argParamMap.frames == [map[]]
    {
      VisibleIsMerged(argParamMap.symbols, argParamMap.symbolMap);
      var fs := argParamMap.frames;
      assert fs[..0] == [] && Merged(fs) == Merged([]) + fs[0];
    }

    lemma LookupHere(sym: string)
      requires Valid()
      ensures LookupSymbol(sym) == Lookup(Here(), sym)
    {
      if argParamMap.CurrentScope() == 0 {
        NothingBound();
      }
    }

    /** A popped name that is declared again at its old sort is the same symbol as before;
        at another sort it is refused. */
    method NewSymbol(name: string, sort: Sort) returns (ok: bool)
      requires Valid()
      modifies this`allSymbols, this`origins, globalSymbols, solver
      ensures Valid() && ok == old(Accepts(Conf(), State(), Declare(name, sort)))
      ensures !ok ==> allSymbols == old(allSymbols) && globalSymbols.frames == old(globalSymbols.frames)
      ensures ok ==> CommandStep(Conf(), old(State()), Declare(name, sort), State())
      ensures ok && name in old(allSymbols) ==> allSymbols == old(allSymbols)
    {
      WhenDeclared(name, sort);
      if globalSymbols.GetSymbol(name).Some? {
        return false;
      }
      if name in allSymbols {
        if allSymbols[name].sort != sort {
          return false;
        }
        Redeclare(name);
        return true;
      }
      if strict && !allowUfs && sort.FunctionSort? {
        return false;
      }
      ok := DeclareNew(name, sort);
    }

    /** When a declaration is accepted, and its effect then. */
    lemma WhenDeclared(name: string, sort: Sort)
      requires Valid()
      ensures Accepts(Conf(), State(), Declare(name, sort)) ==
        (name !in globalSymbols.symbolMap &&
         if name in allSymbols then allSymbols[name].Symbol? && allSymbols[name].sort == sort
         else !(strict && !allowUfs && sort.FunctionSort?) && name !in solver.declared)
      ensures Accepts(Conf(), State(), Declare(name, sort)) ==>
        CommandStep(Conf(), State(), Declare(name, sort), WithSymbol(State(), name, Symbol(name, sort)))
    {
      VisibleIsMerged(globalSymbols.symbols, globalSymbols.symbolMap);
      StateShape();
      if Accepts(Conf(), State(), Declare(name, sort)) {
        DeclareStep(Conf(), State(), name, sort);
      }
    }

    /** The symbol is known from a scope that was closed. */
    method Redeclare(name: string)
      requires Valid() && name in allSymbols && name !in globalSymbols.symbolMap
      modifies this`origins, globalSymbols
      ensures Valid() && allSymbols[name] == Symbol(name, allSymbols[name].sort) && name in solver.declared
      ensures globalSymbols.frames == Added(old(globalSymbols.frames), name, allSymbols[name])
      ensures origins == Added(old(origins), name, Global.Declared(allSymbols[name]))
    {
      assert allSymbols[name] in User();
      AllCleanAdd(globalSymbols.symbolMap, name, allSymbols[name], User());
      OneOrigin(User(), history, name, Global.Declared(allSymbols[name]), allSymbols[name]);
      ScopeOriginsAdd(User(), history, origins, globalSymbols.frames, name, Global.Declared(allSymbols[name]),
        allSymbols[name]);
      var ok := globalSymbols.AddMapping(name, allSymbols[name]);
      origins := Added(origins, name, Global.Declared(allSymbols[name]));
    }

    method DeclareNew(name: string, sort: Sort) returns (ok: bool)
      requires Valid() && name !in allSymbols && name !in globalSymbols.symbolMap
      modifies this`allSymbols, this`origins, globalSymbols, solver
      ensures Valid() && ok == (name !in old(solver.declared)) && solver.declared == old(solver.declared) + {name}
      ensures !ok ==> allSymbols == old(allSymbols) && globalSymbols.frames == old(globalSymbols.frames)
      ensures ok ==> allSymbols == old(allSymbols)[name := Symbol(name, sort)]
      ensures ok ==> globalSymbols.frames == Added(old(globalSymbols.frames), name, allSymbols[name])
      ensures ok ==> origins == Added(old(origins), name, Global.Declared(allSymbols[name]))
    {
      ghost var declared, user, globals := solver.declared, User(), globalSymbols.symbolMap;
      ghost var frames := globalSymbols.frames;
      var r := solver.MakeSymbol(name, sort);
      if r.None? {
        assert solver.declared == declared;
        return false;
      }
      NewSymbolOk(tmpArgs, allSymbols, declared, name, sort);
      ok := globalSymbols.AddMapping(name, r.value);
      allSymbols := allSymbols[name := r.value];
      DefinedMore(InOrder, user, Temps(), history, User(), Temps());
      AllCleanMore(globals, user, User());
      AllCleanAdd(globals, name, r.value, User());
      AllCleanMore(argParamMap.symbolMap, user + Temps(), User() + Temps());
      ScopeOriginsMore(user, history, origins, frames, User(), history);
      OneOrigin(User(), history, name, Global.Declared(r.value), r.value);
      ScopeOriginsAdd(User(), history, origins, frames, name, Global.Declared(r.value), r.value);
      origins := Added(origins, name, Global.Declared(r.value));
    }

    lemma StateShape()
      requires Valid()
      ensures Shape(State())
    {
      forall i | 0 <= i < |origins|
        ensures origins[i].Keys == globalSymbols.frames[i].Keys
      {
        assert Origins(User(), history, origins[i], globalSymbols.frames[i]);
      }
    }

    // ----- arguments of defined functions -----

    /** A scope for the arguments of a define-fun or the bindings of a let. */
    method PushScope()
      requires Valid()
      modifies this`sortArgIds, argParamMap
      ensures Valid() && Handed() == {} && sortArgIds == old(sortArgIds) + [map[]]
      ensures argParamMap.symbolMap == old(argParamMap.symbolMap)
      ensures argParamMap.frames == old(argParamMap.frames) + [map[]]
    {
      argParamMap.PushScope();
      sortArgIds := sortArgIds + [map[]];
    }

    method PopScope()
      requires Valid() && argParamMap.CurrentScope() > 0
      modifies this`sortArgIds, argParamMap
      ensures Valid() && sortArgIds == old(sortArgIds)[..|old(sortArgIds)| - 1] && State() == old(State())
      ensures argParamMap.CurrentScope() == old(argParamMap.CurrentScope()) - 1
      ensures argParamMap.frames == old(argParamMap.frames)[..|old(argParamMap.frames)| - 1]
      ensures argParamMap.symbolMap == Merged(argParamMap.frames)
    {
      ghost var before := argParamMap.symbolMap;
      argParamMap.PopScope();
      sortArgIds := sortArgIds[..|sortArgIds| - 1];
      AllCleanSub(argParamMap.symbolMap, before, User() + Temps());
    }

    /** How many temporaries of a sort the innermost scope has handed out. */
    function IdOf(sort: Sort): nat
      requires sortArgIds != []
      reads this`sortArgIds
    {
      var ids := sortArgIds[|sortArgIds| - 1];
      if sort in ids then ids[sort] else 0
    }

    function TempsAt(sort: Sort): seq<Term>
      reads this`tmpArgs
    {
      TempsIn(tmpArgs, sort)
    }

    /** No more temporaries are handed out than there are. */
    lemma IdBound(sort: Sort)
      requires SymbolTablesOk() && sortArgIds != []
      ensures IdOf(sort) <= |TempsAt(sort)|
    {
      assert CountOk(sortArgIds[|sortArgIds| - 1], tmpArgs);
    }

    /** The next temporary of a sort. */
    lemma NextOf(sort: Sort)
      requires SymbolTablesOk() && sortArgIds != [] && sort in tmpArgs && IdOf(sort) < |tmpArgs[sort]|
      ensures var t := tmpArgs[sort][IdOf(sort)];
        t == Symbol(TempName(sort, IdOf(sort)), sort) && t in Temps() && t !in Handed()
    {
      NextTemp(tmpArgs, allSymbols, solver.declared, sortArgIds[|sortArgIds| - 1], sort);
    }

    /** The name of a new temporary. */
    function TempName(sort: Sort, id: nat): string
    {
      TemporaryName(Conf(), sort, id)
    }

    /** A temporary is left over from before, or its name is free. */
    predicate Provided(sort: Sort)
      requires sortArgIds != []
      reads this`sortArgIds, this`tmpArgs, solver
    {
      CanProvide(Conf(), Pool(tmpArgs, solver.declared), sort, IdOf(sort))
    }

    /** A new temporary of a sort. */
    method MakeTemp(sort: Sort, name: string) returns (ok: bool)
      requires Valid() && sortArgIds != [] && name == TempName(sort, |TempsAt(sort)|)
      modifies this`tmpArgs, solver
      ensures Valid() && Handed() == old(Handed()) && old(Temps()) <= Temps() && ok == (name !in old(solver.declared))
      ensures tmpArgs == if ok then WithTemp(old(tmpArgs), sort, Symbol(name, sort)) else old(tmpArgs)
      ensures solver.declared == old(solver.declared) + {name}
    {
      ghost var declared, temps := solver.declared, Temps();
      var r := solver.MakeSymbol(name, sort);
      if r.None? {
        assert solver.declared == declared;
        return false;
      }
      NewTempOk(tmpArgs, allSymbols, declared, name, sort);
      CountsTemp(sortArgIds, tmpArgs, sort, r.value);
      SameInUse(tmpArgs, sortArgIds[|sortArgIds| - 1], sort, r.value);
      TempsNamedSnoc(tmpArgs, Conf(), sort, r.value);
      tmpArgs := WithTemp(tmpArgs, sort, r.value);
      DefinedMore(InOrder, User(), temps, history, User(), Temps());
      AllCleanMore(argParamMap.symbolMap, User() + temps, User() + Temps());
      ok := true;
    }

    /** Makes sure that there is a temporary of the sort that is not in use in this scope. */
    method ProvideTemp(sort: Sort) returns (ok: bool)
      requires Valid() && sortArgIds != []
      modifies this`tmpArgs, solver
      ensures Valid() && Handed() == old(Handed()) && old(Temps()) <= Temps()
      ensures ok == old(Provided(sort))
      ensures ok ==> sort in tmpArgs && IdOf(sort) < |tmpArgs[sort]|
      ensures ok ==> PoolNow() == Provide(Conf(), old(PoolNow()), sort, IdOf(sort))
    {
      var id := IdOf(sort);
      IdBound(sort);
      if id < |TempsAt(sort)| {
        return true;
      }
      assert id == |TempsAt(sort)|;
      var name := TempName(sort, id);
      ok := MakeTemp(sort, name);
      assert IdOf(sort) == id;
    }

    /** Formals registered in one scope are different temporaries; a name that is bound is refused,
        and so is a temporary whose name the solver has already. */
    method RegisterArg(name: string, sort: Sort) returns (r: Option<Term>)
      requires Valid() && sortArgIds != []
      modifies this`tmpArgs, this`sortArgIds, argParamMap, solver
      ensures Valid() && |sortArgIds| == |old(sortArgIds)|
      ensures r.Some? ==> r.value == Symbol(TempName(sort, old(IdOf(sort))), sort) && r.value in Temps()
      ensures r.Some? ==> r.value !in old(Handed()) && Handed() == old(Handed()) + {r.value}
      ensures old(Temps()) <= Temps()
      ensures r.Some? ==> SameOutside(old(sortArgIds), old(argParamMap.frames), sortArgIds, argParamMap.frames)
      ensures r.Some? ==> name !in old(argParamMap.symbolMap)
      ensures r.Some? ==> argParamMap.symbolMap == old(argParamMap.symbolMap)[name := r.value]
      ensures r.Some? ==> argParamMap.frames == Added(old(argParamMap.frames), name, r.value)
      ensures r.None? == (name in old(argParamMap.symbolMap) || !old(Provided(sort)))
      ensures r.Some? ==> PoolNow() == Provide(Conf(), old(PoolNow()), sort, old(IdOf(sort)))
      ensures r.Some? ==> sortArgIds[|sortArgIds| - 1] == Next(old(sortArgIds)[|sortArgIds| - 1], sort, old(IdOf(sort)))
    {
      r := None;
      var provided := ProvideTemp(sort);
      if provided {
        r := HandOut(name, sort);
      }
    }

    /** Once eleven temporaries of a sort A exist, the first argument of a sort called A1 is refused: the solver
        already has a symbol of the name its temporary would get. */
    lemma CollidingTempRefused(a: Sort, b: Sort)
      requires SymbolTablesOk() && sortArgIds != [] && sortText(b) == sortText(a) + "1"
      requires |TempsAt(a)| > 10 && TempsAt(b) == []
      ensures !Provided(b)
    {
      TemporaryNamesCollide(defArgPrefix, sortText(a));
      IdBound(b);
      assert tmpArgs[a][10] in tmpArgs[a];
    }

    /** Binds a name to the next temporary of a sort. */
    method HandOut(name: string, sort: Sort) returns (r: Option<Term>)
      requires Valid() && sortArgIds != [] && sort in tmpArgs && IdOf(sort) < |tmpArgs[sort]|
      modifies this`sortArgIds, argParamMap
      ensures Valid() && r.None? == (name in old(argParamMap.symbolMap))
      ensures r.Some? ==> r.value == Symbol(TempName(sort, old(IdOf(sort))), sort) && r.value in Temps()
      ensures r.Some? ==> r.value !in old(Handed()) && Handed() == old(Handed()) + {r.value}
      ensures |sortArgIds| == |old(sortArgIds)|
      ensures r.Some? ==> SameOutside(old(sortArgIds), old(argParamMap.frames), sortArgIds, argParamMap.frames)
      ensures r.Some? ==> argParamMap.symbolMap == old(argParamMap.symbolMap)[name := r.value]
      ensures r.Some? ==> argParamMap.frames == Added(old(argParamMap.frames), name, r.value)
      ensures r.Some? ==> sortArgIds[|sortArgIds| - 1] == Next(old(sortArgIds)[|sortArgIds| - 1], sort, old(IdOf(sort)))
    {
      var id := IdOf(sort);
      var tmpvar := tmpArgs[sort][id];
      NextOf(sort);
      OutsideStep(sortArgIds, argParamMap.frames, sort, id, name, tmpvar);
      AllCleanAdd(argParamMap.symbolMap, name, tmpvar, User() + Temps());
      var ok := argParamMap.AddMapping(name, tmpvar);
      if !ok {
        return None;
      }
      CountUp(sort);
      r := Some(tmpvar);
    }

    /** One more temporary of a sort is in use in the innermost scope. */
    method CountUp(sort: Sort)
      requires Valid() && sortArgIds != [] && sort in tmpArgs && IdOf(sort) < |tmpArgs[sort]|
      modifies this`sortArgIds
      ensures Valid() && |sortArgIds| == |old(sortArgIds)|
      ensures sortArgIds
        == old(sortArgIds)[|sortArgIds| - 1 := Next(old(sortArgIds)[|sortArgIds| - 1], sort, old(IdOf(sort)))]
      ensures Handed() == old(Handed()) + {tmpArgs[sort][old(IdOf(sort))]}
    {
      var id, last := IdOf(sort), sortArgIds[|sortArgIds| - 1];
      NextTemp(tmpArgs, allSymbols, solver.declared, last, sort);
      CountsNext(sortArgIds, tmpArgs, sort, id);
      var next := Next(last, sort, id);
      sortArgIds := sortArgIds[|sortArgIds| - 1 := next];
    }

    /** Some parameters have got their temporaries, from a pool, and only the innermost scope has changed. */
    ghost predicate ArgsBound(pool: Pool, ids: seq<Counts>, frames: Frames<Term>, params: seq<(string, Sort)>,
                              formals: seq<Term>)
      requires sortArgIds != []
      reads this, argParamMap, solver
    {
      && PoolNow() == AfterArgs(Conf(), pool, params)
      && Registered(Conf(), params, formals, Temps(), Handed(), argParamMap.symbolMap)
      && CountsAre(sortArgIds[|sortArgIds| - 1], params)
      && SameOutside(ids, frames, sortArgIds, argParamMap.frames)
    }

    /** The argument list of a define-fun, in a new scope. */
    method RegisterArgs(params: seq<(string, Sort)>) returns (r: Option<seq<Term>>)
      requires Valid() && sortArgIds != [] && sortArgIds[|sortArgIds| - 1] == map[] && argParamMap.symbolMap == map[]
      modifies this`tmpArgs, this`sortArgIds, argParamMap, solver
      ensures Valid() && |sortArgIds| == |old(sortArgIds)|
      ensures r.Some? == ArgsAccepted(Conf(), old(PoolNow()), params)
      ensures r.Some? ==> ArgsBound(old(PoolNow()), old(sortArgIds), old(argParamMap.frames), params, r.value)
      decreases |params|
    {
      if params == [] {
        assert NamesOf(params) == [];
        return Some([]);
      }
      var n := |params| - 1;
      var front := RegisterArgs(params[..n]);
      if front.None? {
        return None;
      }
      r := RegisterLast(old(PoolNow()), old(sortArgIds), old(argParamMap.frames), params[..n], front.value, params[n]);
      SplitLast(params);
    }

    /** One more argument. */
    method RegisterLast(ghost pool: Pool, ghost ids: seq<Counts>, ghost frames: Frames<Term>,
                        ghost params: seq<(string, Sort)>, front: seq<Term>, p: (string, Sort))
      returns (r: Option<seq<Term>>)
      requires Valid() && sortArgIds != [] && ArgsAccepted(Conf(), pool, params)
        && ArgsBound(pool, ids, frames, params, front)
      modifies this`tmpArgs, this`sortArgIds, argParamMap, solver
      ensures Valid() && |sortArgIds| == |old(sortArgIds)|
      ensures r.Some? == ArgsAccepted(Conf(), pool, params + [p])
      ensures r.Some? ==> ArgsBound(pool, ids, frames, params + [p], r.value)
    {
      ghost var temps, handed, locals := Temps(), Handed(), argParamMap.symbolMap;
      ghost var ids0, frames0 := sortArgIds, argParamMap.frames;
      ArgsSnoc(Conf(), pool, params, p);
      assert IdOf(p.1) == CountOf(params, p.1);
      ZipKeys(NamesOf(params), front);
      var v := RegisterArg(p.0, p.1);
      if v.None? {
        return None;
      }
      RegisteredSnoc(Conf(), params, front, temps, handed, locals, p, v.value, Temps());
      CountsSnoc(ids0[|ids0| - 1], params, p);
      OutsideAgain(ids, frames, ids0, frames0, sortArgIds, argParamMap.frames);
      r := Some(front + [v.value]);
    }

    // ----- terms -----

    /** apply_define_fun, for at least one argument. */
    method ApplyDefineFun(defname: string, args: seq<Term>) returns (r: Option<Term>)
      requires Valid() && args != []
      ensures r == Expanded(defs, defname, args)
    {
      if defname !in defs || |args| != |defs[defname].formals| {
        return None;
      }
      var formals, subsMap: Subst := defs[defname].formals, map[];
      for i := 0 to |args|
        invariant subsMap == Bindings(formals[..i], args[..i])
      {
        BindingsSnoc(formals, args, i);
        subsMap := subsMap[formals[i] := args[i]];
      }
      assert formals[..|args|] == formals && args[..|args|] == args;
      BindingsOf(formals, args);
      FormalsAreSymbols(InOrder, User(), Temps(), history, defname);
      var res := Substitute(defs[defname].body, subsMap);
      r := Some(res);
    }

    /** Reads a term. All scopes opened on the way are closed again when this succeeds. */
    method ReadTerm(e: Expr) returns (r: Option<Term>)
      requires Valid()
      modifies this`sortArgIds, argParamMap
      ensures r == Read(old(Here()), e)
      ensures r.Some? ==> Valid() && Here() == old(Here())
      ensures r.Some? ==> sortArgIds == old(sortArgIds) && argParamMap.frames == old(argParamMap.frames)
      decreases e, 1
    {
      match e
      case Name(x) =>
        LookupHere(x);
        r := LookupSymbol(x);
      case Constant(w, n) =>
        r := Some(BVValue(w, n));
      case Operator(op, args) =>
        var ts := ReadTerms(args);
        r := if ts.Some? then Some(App(op, ts.value)) else None;
      case Call(f, args) =>
        var ts := ReadTerms(args);
        if ts.None? {
          return None;
        }
        LookupHere(f);
        var uf := LookupSymbol(f);
        if uf.Some? {
          r := Some(App(Op(Apply, []), [uf.value] + ts.value));
        } else if ts.value == [] {
          r := None;
        } else {
          r := ApplyDefineFun(f, ts.value);
        }
      case Let(_, _) =>
        r := ReadLetTerm(e);
    }

    method ReadTerms(es: seq<Expr>) returns (r: Option<seq<Term>>)
      requires Valid()
      modifies this`sortArgIds, argParamMap
      ensures r == ReadAll(old(Here()), es)
      ensures r.Some? ==> Valid() && Here() == old(Here())
      ensures r.Some? ==> sortArgIds == old(sortArgIds) && argParamMap.frames == old(argParamMap.frames)
      decreases es, 0
    {
      var ts := [];
      for i := 0 to |es|
        invariant Valid() && Here() == old(Here())
        invariant sortArgIds == old(sortArgIds) && argParamMap.frames == old(argParamMap.frames)
        invariant ReadAll(old(Here()), es[..i]) == Some(ts)
      {
        ReadAllSnoc(old(Here()), es, i);
        var t := ReadTerm(es[i]);
        if t.None? {
          ReadAllPrefix(old(Here()), es, i + 1);
          return None;
        }
        ts := ts + [t.value];
      }
      assert es[..|es|] == es;
      r := Some(ts);
    }

    /** A let: its bindings share one scope and are added to it one after the other. */
    method ReadLetTerm(e: Expr) returns (r: Option<Term>)
      requires Valid() && e.Let?
      modifies this`sortArgIds, argParamMap
      ensures r == ReadLet(old(Here()), e, 0)
      ensures r.Some? ==> Valid() && Here() == old(Here())
      ensures r.Some? ==> sortArgIds == old(sortArgIds) && argParamMap.frames == old(argParamMap.frames)
      decreases e, 0, |e.binds| + 1
    {
      VisibleIsMerged(argParamMap.symbols, argParamMap.symbolMap);
      PushScope();
      r := ReadBindings(e, 0);
    }

    /** The bindings of a let from the i-th one on, and its body. */
    method ReadBindings(e: Expr, i: nat) returns (r: Option<Term>)
      requires Valid() && argParamMap.CurrentScope() > 0 && e.Let? && i <= |e.binds|
      modifies this`sortArgIds, argParamMap
      ensures r == ReadLet(old(Here()), e, i)
      ensures r.Some? ==> Valid() && sortArgIds == old(sortArgIds)[..|old(sortArgIds)| - 1]
      ensures r.Some? ==>
        argParamMap.frames == Outer(old(argParamMap.frames)) && argParamMap.symbolMap == Merged(argParamMap.frames)
      decreases e, 0, |e.binds| - i
    {
      if i == |e.binds| {
        r := ReadInScope(e.body);
      } else {
        var ok := ReadBinding(e.binds[i]);
        if !ok {
          return None;
        }
        r := ReadBindings(e, i + 1);
      }
    }

    /** The body of a let; its scope is closed afterwards. */
    method ReadInScope(body: Expr) returns (r: Option<Term>)
      requires Valid() && argParamMap.CurrentScope() > 0
      modifies this`sortArgIds, argParamMap
      ensures r == Read(old(Here()), body)
      ensures r.Some? ==> Valid() && sortArgIds == old(sortArgIds)[..|old(sortArgIds)| - 1]
      ensures r.Some? ==>
        argParamMap.frames == Outer(old(argParamMap.frames)) && argParamMap.symbolMap == Merged(argParamMap.frames)
      decreases body, 2
    {
      r := ReadTerm(body);
      if r.Some? {
        PopScope();
      }
    }

    /** One binding of a let: its term is read before its name is bound. */
    method ReadBinding(b: Binding) returns (ok: bool)
      requires Valid() && argParamMap.CurrentScope() > 0
      modifies this`sortArgIds, argParamMap
      ensures ok == (Read(old(Here()), b.bound).Some? && b.x !in old(Here()).locals)
      ensures ok ==> Valid() && sortArgIds == old(sortArgIds) && |argParamMap.frames| == |old(argParamMap.frames)|
      ensures ok ==> Outer(argParamMap.frames) == Outer(old(argParamMap.frames))
      ensures ok ==> Bound(old(Here()), b.x, Read(old(Here()), b.bound).value) == Some(Here())
      decreases b
    {
      var t := ReadTerm(b.bound);
      if t.None? {
        return false;
      }
      ok := LetBinding(b.x, b.bound, t.value);
    }

    method LetBinding(sym: string, ghost e: Expr, term: Term) returns (ok: bool)
      requires Valid() && argParamMap.CurrentScope() > 0 && Read(Here(), e) == Some(term)
      modifies argParamMap
      ensures Valid() && |argParamMap.frames| == |old(argParamMap.frames)|
      ensures Outer(argParamMap.frames) == Outer(old(argParamMap.frames))
      ensures ok == Bound(old(Here()), sym, term).Some?
      ensures ok ==> Bound(old(Here()), sym, term) == Some(Here())
    {
      HereIsGood();
      ReadClean(User(), Temps(), history, Here(), e, User() + Temps());
      AllCleanAdd(argParamMap.symbolMap, sym, term, User() + Temps());
      ok := argParamMap.AddMapping(sym, term);
    }

    // ----- definitions -----

    /** define_fun: a function is recorded under its name, also over an earlier one;
        without arguments the name becomes a symbol for the term. */
    method DefineFun(name: string, def: Term, args: seq<Term>) returns (ok: bool)
      requires globalSymbols.Valid()
      modifies this`defs, globalSymbols
      ensures globalSymbols.Valid() && |globalSymbols.symbols| == |old(globalSymbols.symbols)|
      ensures args != [] ==> ok && defs == old(defs)[name := Macro(args, def)]
      ensures args != [] ==>
        globalSymbols.symbolMap == old(globalSymbols.symbolMap) && globalSymbols.frames == old(globalSymbols.frames)
      ensures args == [] ==> defs == old(defs) && ok == (name !in old(globalSymbols.symbolMap))
      ensures !ok ==>
        globalSymbols.symbolMap == old(globalSymbols.symbolMap) && globalSymbols.frames == old(globalSymbols.frames)
      ensures args == [] && ok ==> globalSymbols.symbolMap == old(globalSymbols.symbolMap)[name := def]
      ensures args == [] && ok ==> globalSymbols.frames == Added(old(globalSymbols.frames), name, def)
    {
      if |args| > 0 {
        defs := defs[name := Macro(args, def)];
        ok := true;
      } else {
        ok := globalSymbols.AddMapping(name, def);
      }
    }

    /** The define-fun command, between other commands: exactly when it is refused, and its effect. */
    method DefineFunction(name: string, params: seq<(string, Sort)>, body: Expr) returns (ok: bool)
      requires Valid() && argParamMap.CurrentScope() == 0
      modifies this`tmpArgs, this`sortArgIds, this`defs, this`history, this`origins, argParamMap, globalSymbols, solver
      ensures ok == old(Accepts(Conf(), State(), Define(name, params, body)))
      ensures ok ==> Valid() && argParamMap.CurrentScope() == 0
      ensures ok ==> CommandStep(Conf(), old(State()), Define(name, params, body), State())
    {
      NothingBound();
      PushScope();
      ok := DefineInScope(name, params, body);
    }

    method DefineInScope(name: string, params: seq<(string, Sort)>, body: Expr) returns (ok: bool)
      requires Valid() && argParamMap.CurrentScope() == 1 && sortArgIds[0] == map[] && argParamMap.symbolMap == map[]
      modifies this`tmpArgs, this`sortArgIds, this`defs, this`history, this`origins, argParamMap, globalSymbols, solver
      ensures ok == old(Accepts(Conf(), State(), Define(name, params, body)))
      ensures ok ==> Valid() && argParamMap.CurrentScope() == 0
      ensures ok ==> CommandStep(Conf(), old(State()), Define(name, params, body), State())
    {
      ghost var before := State();
      StateShape();
      var formals := RegisterArgs(params);
      if formals.None? {
        return false;
      }
      BodyIsHere(before, params, formals.value);
      ok := DefineBody(before, name, params, body, formals.value);
    }

    /** The body of a define-fun, after its argument list. */
    method DefineBody(ghost before: Snapshot, name: string, params: seq<(string, Sort)>, body: Expr, formals: seq<Term>)
      returns (ok: bool)
      requires Valid() && argParamMap.CurrentScope() == 1 && Defining(before, params, formals)
      modifies this`sortArgIds, this`defs, this`history, this`origins, argParamMap, globalSymbols
      ensures ok == Accepts(Conf(), before, Define(name, params, body))
      ensures ok ==> Valid() && argParamMap.CurrentScope() == 0
      ensures ok ==> CommandStep(Conf(), before, Define(name, params, body), State())
    {
      var def := ReadTerm(body);
      if def.None? {
        return false;
      }
      ghost var d, now := DefinitionOf(Conf(), before, name, params, body), State();
      RecordableHere(before, name, params, body, formals);
      ok := Finish(name, formals, def.value, d);
      if ok {
        DefineStep(Conf(), before, name, params, body, now, d);
      }
    }

    /** The arguments of a define-fun are registered, and nothing else has changed but the pool. */
    ghost predicate Defining(before: Snapshot, params: seq<(string, Sort)>, formals: seq<Term>)
      reads this, globalSymbols, argParamMap, solver
    {
      && Shape(before) && ArgsAccepted(Conf(), before.pool, params)
      && State() == before.(pool := AfterArgs(Conf(), before.pool, params))
      && formals == FormalsOf(Conf(), params) && AllDifferent(formals)
      && (forall v :: v in formals ==> v in Temps() && v.Symbol?)
      && Here() == BodyScope(Conf(), before, params) && globalSymbols.symbolMap == Merged(before.frames)
    }

    /** After the argument list, names mean what they mean in the body. */
    lemma BodyIsHere(before: Snapshot, params: seq<(string, Sort)>, formals: seq<Term>)
      requires Valid() && Registered(Conf(), params, formals, Temps(), Handed(), argParamMap.symbolMap)
      requires before.frames == globalSymbols.frames && before.history == history
      ensures Here() == BodyScope(Conf(), before, params) && globalSymbols.symbolMap == Merged(globalSymbols.frames)
    {
      VisibleIsMerged(globalSymbols.symbols, globalSymbols.symbolMap);
    }

    /** A definition that can be recorded at this point. */
    ghost predicate Recordable(d: Definition)
      reads this, globalSymbols, argParamMap
    {
      && d.names == Merged(origins) && d.globals == globalSymbols.symbolMap
      && |d.params| == |d.formals| && AllDifferent(d.formals)
      && (forall v :: v in d.formals ==> v in Temps() && v.Symbol?)
      && Here().locals == Zip(d.params, d.formals) && Read(Here(), d.body) == Some(d.term)
    }

    lemma {:induction false} RecordableHere(before: Snapshot, name: string, params: seq<(string, Sort)>, body: Expr,
                                            formals: seq<Term>)
      requires Valid() && Defining(before, params, formals) && Read(Here(), body).Some?
      ensures Read(BodyScope(Conf(), before, params), body) == Read(Here(), body)
      ensures Recordable(DefinitionOf(Conf(), before, name, params, body))
    {
    }

    /** The end of a define-fun: the definition is recorded and the scope of its arguments closed. */
    method Finish(name: string, formals: seq<Term>, def: Term, ghost d: Definition) returns (ok: bool)
      requires Valid() && argParamMap.CurrentScope() == 1
      requires Recordable(d) && d.name == name && d.formals == formals && d.term == def
      modifies this`sortArgIds, this`defs, this`history, this`origins, argParamMap, globalSymbols
      ensures ok == (d.params == [] ==> name !in old(globalSymbols.symbolMap))
      ensures ok ==> Valid() && argParamMap.CurrentScope() == 0
      ensures ok ==>
        |origins| == |old(origins)| == |old(globalSymbols.frames)| && State() == WithDefinition(old(State()), d)
    {
      ok := DefineEither(name, formals, def, d);
      if ok {
        PopScope();
      }
    }

    method DefineEither(name: string, formals: seq<Term>, def: Term, ghost d: Definition) returns (ok: bool)
      requires Valid() && Recordable(d) && d.name == name && d.formals == formals && d.term == def
      modifies this`defs, this`history, this`origins, globalSymbols
      ensures ok == (d.params == [] ==> name !in old(globalSymbols.symbolMap))
      ensures ok ==> Valid() && |globalSymbols.symbols| == |old(globalSymbols.symbols)|
      ensures ok ==>
        |origins| == |old(origins)| == |old(globalSymbols.frames)| && State() == WithDefinition(old(State()), d)
    {
      if |formals| > 0 {
        DefineMacro(name, formals, def, d);
        ok := true;
      } else {
        ok := DefineAlias(name, def, d);
      }
    }

    method DefineMacro(name: string, formals: seq<Term>, def: Term, ghost d: Definition)
      requires Valid() && formals != [] && Recordable(d) && d.name == name && d.formals == formals && d.term == def
      modifies this`defs, this`history, globalSymbols
      ensures Valid() && history == old(history) + [d]
      ensures globalSymbols.frames == old(globalSymbols.frames)
        && globalSymbols.symbolMap == old(globalSymbols.symbolMap)
      ensures |globalSymbols.symbols| == |old(globalSymbols.symbols)|
    {
      ghost var user, frames, ds := User(), globalSymbols.frames, history + [d];
      Record(d);
      var ok := DefineFun(name, def, formals);
      history := ds;
      assert User() == user && globalSymbols.frames == frames;
    }

    method DefineAlias(name: string, def: Term, ghost d: Definition) returns (ok: bool)
      requires Valid() && Recordable(d) && d.name == name && d.formals == [] && d.term == def
      modifies this`defs, this`history, this`origins, globalSymbols
      ensures ok == (name !in old(globalSymbols.symbolMap))
      ensures ok ==> Valid() && history == old(history) + [d] && |globalSymbols.symbols| == |old(globalSymbols.symbols)|
      ensures ok ==> globalSymbols.frames == Added(old(globalSymbols.frames), name, def)
      ensures ok ==> old(origins) != [] && origins == Added(old(origins), name, Alias(|old(history)|))
    {
      RecordAlias(d);
      ok := DefineFun(name, def, []);
      if ok {
        origins := Added(origins, name, Alias(|history|));
        history := history + [d];
      }
    }

    /** One more definition without parameters, whose name joins the innermost scope. */
    lemma RecordAlias(d: Definition)
      requires Valid() && Recordable(d) && d.formals == []
      ensures Defined(InOrder, User(), Temps(), history + [d]) && MacrosOf(history + [d]) == defs && origins != []
      ensures ScopeOrigins(User(), history + [d], Added(origins, d.name, Alias(|history|)),
        Added(globalSymbols.frames, d.name, d.term))
      ensures AllClean(globalSymbols.symbolMap[d.name := d.term], User())
    {
      Record(d);
      HereIsGood();
      assert Here().locals == map[];
      ReadClean(User(), Temps(), history, Here(), d.body, User());
      AllCleanAdd(globalSymbols.symbolMap, d.name, d.term, User());
      OneOrigin(User(), history + [d], d.name, Alias(|history|), d.term);
      ScopeOriginsAdd(User(), history + [d], origins, globalSymbols.frames, d.name, Alias(|history|), d.term);
    }

    /** One more definition, read at this point. */
    lemma Record(d: Definition)
      requires Valid() && Recordable(d)
      ensures Defined(InOrder, User(), Temps(), history + [d])
      ensures MacrosOf(history + [d]) == if d.params == [] then defs else defs[d.name := Macro(d.formals, d.term)]
      ensures ScopeOrigins(User(), history + [d], origins, globalSymbols.frames)
    {
      HereIsGood();
      DefinedSnoc(InOrder, User(), Temps(), history, d);
      ScopeOriginsMore(User(), history, origins, globalSymbols.frames, User(), history + [d]);
    }

    // ----- commands -----

    /** Between commands, names mean what the state says. */
    lemma StateIsHere()
      requires Valid() && argParamMap.CurrentScope() == 0
      ensures Here() == Scope(State()) && Shape(State())
    {
      NothingBound();
      VisibleIsMerged(globalSymbols.symbols, globalSymbols.symbolMap);
      StateShape();
    }

    /** One command; false stands for an exception, and for the assertion that the outermost scope stays open. */
    method Execute(cmd: Command) returns (ok: bool)
      requires Valid() && argParamMap.CurrentScope() == 0
      modifies this, argParamMap, globalSymbols, solver
      ensures ok == old(Accepts(Conf(), State(), cmd))
      ensures ok ==> Valid() && argParamMap.CurrentScope() == 0 && CommandStep(Conf(), old(State()), cmd, State())
    {
      StateIsHere();
      match cmd
      case Push(n) =>
        this.Push(n);
        ok := true;
      case Pop(n) =>
        ok := n <= globalSymbols.CurrentScope();
        if ok {
          this.Pop(n);
        }
      case Declare(name, sort) =>
        ok := NewSymbol(name, sort);
      case Define(name, params, body) =>
        ok := DefineFunction(name, params, body);
      case Use(e) =>
        var t := ReadTerm(e);
        ok := t.Some?;
    }

    /** A text is read command by command, up to the first one that is refused. */
    method Run(cs: seq<Command>) returns (ok: bool, ghost trace: seq<Snapshot>)
      requires Valid() && argParamMap.CurrentScope() == 0
      modifies this, argParamMap, globalSymbols, solver
      ensures ok ==> Valid() && argParamMap.CurrentScope() == 0 && Executed(Conf(), trace, cs, old(State()), State())
      ensures !ok ==> Stopped(Conf(), trace, cs, old(State()))
    {
      trace := [State()];
      for i := 0 to |cs|
        invariant Valid() && argParamMap.CurrentScope() == 0 && |trace| == i + 1
        invariant Executed(Conf(), trace, cs[..i], old(State()), State())
      {
        ghost var before := State();
        ok := Execute(cs[i]);
        if !ok {
          return;
        }
        ExecutedNext(Conf(), trace, cs, i, old(State()), before, State());
        trace := trace + [State()];
      }
      TakeAll(cs);
      ok := true;
    }

    /** A push, commands that close every scope they open, and the pop: the global symbol map is the one held at
        the push. The map of defined functions is exactly when every function defined in between ends with the
        definition it had at the push; no other name is defined in addition exactly when all of them were defined. */
    method RunBracket(n: nat, cs: seq<Command>) returns (ok: bool)
      requires Valid() && argParamMap.CurrentScope() == 0 && n > 0 && WellBracketed(cs)
      modifies this, argParamMap, globalSymbols, solver
      ensures ok ==> Valid() && argParamMap.CurrentScope() == 0
      ensures ok ==>
        globalSymbols.symbolMap == old(globalSymbols.symbolMap) && globalSymbols.frames == old(globalSymbols.frames)
      ensures ok ==> (defs == old(defs) <==> forall f :: f in FunctionsIn(cs) ==> SameFunction(old(defs), defs, f))
      ensures ok ==> (defs.Keys == old(defs.Keys) <==> FunctionsIn(cs) <= old(defs.Keys))
    {
      StateIsHere();
      ghost var trace;
      ok, trace := Run([Command.Push(n)] + cs + [Command.Pop(n)]);
      if ok {
        BracketRestores(Conf(), trace, n, cs);
        BracketDefinitions(Conf(), trace, n, cs);
        StateIsHere();
      }
    }

    /** A function defined with arguments between a push and its pop can still be called after the pop. */
    method FunctionOutlivesScope(name: string, params: seq<(string, Sort)>, body: Expr) returns (ok: bool)
      requires Valid() && argParamMap.CurrentScope() == 0 && params != []
      modifies this, argParamMap, globalSymbols, solver
      ensures ok ==> Valid() && Callable(Here(), name, |params|)
    {
      ghost var trace;
      ok, trace := Run([Command.Push(1)] + [Define(name, params, body)] + [Command.Pop(1)]);
      if ok {
        SurvivorCallable(Conf(), trace, name, params, body);
        StateIsHere();
      }
    }

    /** What is read between commands has the value that SMT-LIB gives to the text under the definitions so far,
        when the lets of the text and of all definitions are independent. */
    lemma {:induction false} ReadingMeans<V>(m: Interp<V>, e: Expr)
      requires Valid() && argParamMap.CurrentScope() == 0 && Read(Here(), e).Some?
      requires AllIndependent(e) && BodiesIndependent(history)
      ensures ReadRightly(m, history, Merged(origins), Here(), map[], e)
    {
      NothingBound();
      HereIsGood();
      IndependentMeans(m, User(), Temps(), history, Merged(origins), Here(), map[], e);
    }

    /** When all definitions are read rightly, the same holds exactly when every name is visible outside of the lets
        that bind it, and the names that reach the term stand for the same terms there. */
    lemma {:induction false} ReadingMeansExactlyWhen<V>(m: Interp<V>, e: Expr)
      requires Valid() && argParamMap.CurrentScope() == 0 && Read(Here(), e).Some? && BodiesRight(history)
      ensures ReadingRight(Here(), e) ==> ReadRightly(m, history, Merged(origins), Here(), map[], e)
      ensures ReadingRight(Here(), e) <==> ReadRightly(Herbrand(), history, Merged(origins), Here(), map[], e)
    {
      NothingBound();
      HereIsGood();
      MeansExactlyWhen(m, User(), Temps(), history, Merged(origins), Here(), map[], e);
    }

    /** Whether all definitions are read rightly is decided by their bodies. */
    lemma DefinitionsExactlyWhen()
      requires Valid()
      ensures Defined(InParallel, User(), Temps(), history) <==> BodiesRight(history)
    {
      DefinedExactlyWhen(User(), Temps(), history);
    }
  }
}
