/** What the commands of an SMT-LIB text do to the scopes and definitions of the reader (the command rules of
    src/smtlibparser.yy), when they are refused, and what a push and its matching pop restore. */
module Commands {
  import opened Terms
  import opened Sorts
  import opened Text
  import opened Scopes
  import opened Macros
  import opened Lets

  datatype Command =
    | Push(n: nat)
    | Pop(n: nat)
    | Declare(name: string, sort: Sort)
    | Define(name: string, params: seq<(string, Sort)>, body: Expr)
    | Use(e: Expr)

  type Temporaries = map<Sort, seq<Term>>

  /** The temporaries made so far, and the names that the solver knows. */
  datatype Pool = Pool(temps: Temporaries, declared: set<string>)

  /** The state between two commands: what each open scope added and where it comes from, the definitions so far,
      oldest first, all symbols ever declared, and the temporaries. */
  datatype Snapshot = Snapshot(frames: Frames<Term>, origins: Frames<Global>, history: seq<Definition>,
                               symbols: map<string, Term>, pool: Pool)

  /** What does not change while a text is read. */
  datatype Setting = Setting(strict: bool, allowUfs: bool, prefix: string, sortText: Sort -> string)

  /** What names mean between commands. */
  function Scope(s: Snapshot): Env {
    Env(InOrder, map[], Merged(s.frames), MacrosOf(s.history))
  }

  // ----- the parameters of a definition -----

  function NamesOf(params: seq<(string, Sort)>): (xs: seq<string>)
    ensures |xs| == |params|
  {
    seq(|params|, i requires 0 <= i < |params| => params[i].0)
  }

  /** How many parameters have a sort. */
  function CountOf(params: seq<(string, Sort)>, sort: Sort): nat {
    if params == [] then 0
    else CountOf(params[..|params| - 1], sort) + if params[|params| - 1].1 == sort then 1 else 0
  }

  /** The name of the id-th temporary of a sort. */
  function TemporaryName(c: Setting, sort: Sort, id: nat): string {
    c.prefix + c.sortText(sort) + Decimal(id)
  }

  /** The temporaries that stand for the parameters: the first ones of each sort. */
  function FormalsOf(c: Setting, params: seq<(string, Sort)>): (formals: seq<Term>)
    ensures |formals| == |params|
  {
    if params == [] then []
    else
      var front, sort := params[..|params| - 1], params[|params| - 1].1;
      FormalsOf(c, front) + [Symbol(TemporaryName(c, sort, CountOf(front, sort)), sort)]
  }

  function TempsIn(tmp: Temporaries, sort: Sort): seq<Term> {
    if sort in tmp then tmp[sort] else []
  }

  /** One more temporary at the end of the list of its sort. */
  function WithTemp(tmp: Temporaries, sort: Sort, t: Term): Temporaries {
    tmp[sort := TempsIn(tmp, sort) + [t]]
  }

  /** One more parameter of a sort, of which id are in use: a temporary is left over from before, or is made. */
  function Provide(c: Setting, pool: Pool, sort: Sort, id: nat): Pool {
    if id < |TempsIn(pool.temps, sort)| then pool
    else
      var name := TemporaryName(c, sort, id);
      Pool(WithTemp(pool.temps, sort, Symbol(name, sort)), pool.declared + {name})
  }

  predicate CanProvide(c: Setting, pool: Pool, sort: Sort, id: nat) {
    id < |TempsIn(pool.temps, sort)| || TemporaryName(c, sort, id) !in pool.declared
  }

  function AfterArgs(c: Setting, pool: Pool, params: seq<(string, Sort)>): Pool {
    if params == [] then pool
    else
      var front, sort := params[..|params| - 1], params[|params| - 1].1;
      Provide(c, AfterArgs(c, pool, front), sort, CountOf(front, sort))
  }

  /** Parameters have different names, and there are temporaries for all of them. */
  predicate ArgsAccepted(c: Setting, pool: Pool, params: seq<(string, Sort)>) {
    params == [] ||
    (var front, p := params[..|params| - 1], params[|params| - 1];
     && ArgsAccepted(c, pool, front) && p.0 !in NamesOf(front)
     && CanProvide(c, AfterArgs(c, pool, front), p.1, CountOf(front, p.1)))
  }

  lemma {:induction false} ArgsSnoc(c: Setting, pool: Pool, params: seq<(string, Sort)>, p: (string, Sort))
    ensures AfterArgs(c, pool, params + [p]) == Provide(c, AfterArgs(c, pool, params), p.1, CountOf(params, p.1))
    ensures ArgsAccepted(c, pool, params + [p]) == (ArgsAccepted(c, pool, params) && p.0 !in NamesOf(params)
      && CanProvide(c, AfterArgs(c, pool, params), p.1, CountOf(params, p.1)))
  {
    assert (params + [p])[..|params|] == params;
  }

  // ----- commands -----

  /** Every scope knows where each of its names comes from. */
  predicate Shape(s: Snapshot) {
    |s.origins| == |s.frames| > 0 && forall i :: 0 <= i < |s.frames| ==> s.origins[i].Keys == s.frames[i].Keys
  }

  /** Where the body of a definition is read. */
  function BodyScope(c: Setting, s: Snapshot, params: seq<(string, Sort)>): Env {
    Scope(s).(locals := Zip(NamesOf(params), FormalsOf(c, params)))
  }

  /** When a command is not refused: a pop keeps the outermost scope; a declared name is not visible, and has its old
      sort if it was declared before; a definition has a readable body, and one without parameters a new name. */
  predicate Accepts(c: Setting, s: Snapshot, cmd: Command) {
    match cmd
    case Push(_) => true
    case Pop(n) => n < |s.frames|
    case Declare(name, sort) =>
      && name !in Merged(s.frames)
      && if name in s.symbols then s.symbols[name] == Symbol(name, sort)
         else !(c.strict && !c.allowUfs && sort.FunctionSort?) && name !in s.pool.declared
    case Define(name, params, body) =>
      && ArgsAccepted(c, s.pool, params) && Read(BodyScope(c, s, params), body).Some?
      && (params == [] ==> name !in Merged(s.frames))
    case Use(e) => Read(Scope(s), e).Some?
  }

  /** A definition is recorded with the names and the term of its body as read at this point. */
  function DefinitionOf(c: Setting, s: Snapshot, name: string, params: seq<(string, Sort)>, body: Expr): Definition
    requires Read(BodyScope(c, s, params), body).Some?
  {
    Definition(name, NamesOf(params), FormalsOf(c, params), body, Merged(s.origins), Merged(s.frames),
               Read(BodyScope(c, s, params), body).value)
  }

  /** The state with one more definition; one without parameters also adds its name to the innermost scope. */
  function WithDefinition(s: Snapshot, d: Definition): Snapshot
    requires |s.origins| == |s.frames| > 0
  {
    var recorded := s.(history := s.history + [d]);
    if d.params != [] then recorded
    else recorded.(frames := Added(s.frames, d.name, d.term), origins := Added(s.origins, d.name, Alias(|s.history|)))
  }

  /** The state with one more declared symbol in the innermost scope. */
  function WithSymbol(s: Snapshot, name: string, t: Term): Snapshot
    requires |s.origins| == |s.frames| > 0
  {
    Snapshot(Added(s.frames, name, t), Added(s.origins, name, Declared(t)), s.history, s.symbols[name := t],
             s.pool.(declared := s.pool.declared + {name}))
  }

  /** What a command does. */
  function After(c: Setting, s: Snapshot, cmd: Command): Snapshot
    requires Shape(s) && Accepts(c, s, cmd)
  {
    match cmd
    case Push(n) => s.(frames := s.frames + Opened(n), origins := s.origins + Opened(n))
    case Pop(n) => s.(frames := s.frames[..|s.frames| - n], origins := s.origins[..|s.origins| - n])
    case Declare(name, sort) => WithSymbol(s, name, Symbol(name, sort))
    case Define(name, params, body) =>
      WithDefinition(s, DefinitionOf(c, s, name, params, body)).(pool := AfterArgs(c, s.pool, params))
    case Use(_) => s
  }

  /** The body of a definition, read where the parameters stand for the temporaries, makes the definition. */
  lemma {:induction false} DefineStep(c: Setting, s: Snapshot, name: string, params: seq<(string, Sort)>, body: Expr,
                                      now: Snapshot,
                                      d: Definition)
    requires Shape(s) && Accepts(c, s, Define(name, params, body)) && d == DefinitionOf(c, s, name, params, body)
    requires now == s.(pool := AfterArgs(c, s.pool, params))
    ensures CommandStep(c, s, Define(name, params, body), WithDefinition(now, d))
  {
  }

  /** One command that succeeds. */
  ghost predicate CommandStep(c: Setting, s: Snapshot, cmd: Command, s': Snapshot) {
    Shape(s) && Accepts(c, s, cmd) && s' == After(c, s, cmd)
  }

  lemma PushStep(c: Setting, s: Snapshot, n: nat)
    requires Shape(s)
    ensures CommandStep(c, s, Push(n), s.(frames := s.frames + Opened(n), origins := s.origins + Opened(n)))
  {
  }

  lemma PopStep(c: Setting, s: Snapshot, n: nat)
    requires Shape(s) && n < |s.frames|
    ensures CommandStep(c, s, Pop(n), s.(frames := s.frames[..|s.frames| - n], origins := s.origins[..|s.frames| - n]))
  {
  }

  lemma DeclareStep(c: Setting, s: Snapshot, name: string, sort: Sort)
    requires Shape(s) && Accepts(c, s, Declare(name, sort))
    ensures CommandStep(c, s, Declare(name, sort), WithSymbol(s, name, Symbol(name, sort)))
  {
  }

  /** The states before, between and after some commands. */
  ghost predicate Trace(c: Setting, ss: seq<Snapshot>, cs: seq<Command>) {
    |ss| == |cs| + 1 && forall i {:trigger cs[i]} :: 0 <= i < |cs| ==> CommandStep(c, ss[i], cs[i], ss[i + 1])
  }

  /** Some commands have been executed one after the other. */
  ghost predicate Executed(c: Setting, ss: seq<Snapshot>, cs: seq<Command>, first: Snapshot, last: Snapshot) {
    Trace(c, ss, cs) && ss[0] == first && ss[|cs|] == last
  }

  /** The commands up to one that is refused have been executed. */
  ghost predicate Stopped(c: Setting, ss: seq<Snapshot>, cs: seq<Command>, first: Snapshot) {
    && 0 < |ss| <= |cs| && Executed(c, ss, cs[..|ss| - 1], first, ss[|ss| - 1])
    && !Accepts(c, ss[|ss| - 1], cs[|ss| - 1])
  }

  lemma ExecutedNext(c: Setting, ss: seq<Snapshot>, cs: seq<Command>, i: nat, first: Snapshot, last: Snapshot,
                     next: Snapshot)
    requires i < |cs| && Executed(c, ss, cs[..i], first, last) && CommandStep(c, last, cs[i], next)
    ensures Executed(c, ss + [next], cs[..i + 1], first, next)
  {
    TakeNext(cs, i);
  }

  // ----- brackets -----

  /** How many scopes a command opens. */
  function Opens(cmd: Command): int {
    match cmd
    case Push(n) => n
    case Pop(n) => -(n as int)
    case _ => 0
  }

  /** How many scopes some commands leave open. */
  function Level(cs: seq<Command>): int {
    if cs == [] then 0 else Level(cs[..|cs| - 1]) + Opens(cs[|cs| - 1])
  }

  /** Every scope that is opened is closed again, and no other is closed. */
  ghost predicate WellBracketed(cs: seq<Command>) {
    Level(cs) == 0 && forall k :: 0 <= k <= |cs| ==> Level(cs[..k]) >= 0
  }

  predicate IsFunction(cmd: Command) {
    cmd.Define? && cmd.params != []
  }

  /** The functions that some commands define. */
  ghost function FunctionsIn(cs: seq<Command>): set<string> {
    set cmd | cmd in cs && IsFunction(cmd) :: cmd.name
  }

  lemma AddedStep<T>(fs: Frames<T>, name: string, t: T)
    requires fs != [] && name !in fs[|fs| - 1]
    ensures Step(fs, Added(fs, name, t))
  {
  }

  /** Every command is a step of the scopes, and opens as many as it says; nothing is forgotten. */
  lemma CommandScopes(c: Setting, s: Snapshot, cmd: Command, s': Snapshot)
    requires CommandStep(c, s, cmd, s')
    ensures Step(s.frames, s'.frames) && |s'.frames| == |s.frames| + Opens(cmd)
    ensures Step(s.origins, s'.origins) && Shape(s')
    ensures s.history <= s'.history
    ensures forall n :: n in s.symbols ==> n in s'.symbols && s'.symbols[n] == s.symbols[n]
  {
    var top := |s.frames| - 1;
    match cmd
    case Declare(name, sort) =>
      AddedStep(s.frames, name, Symbol(name, sort));
      AddedStep(s.origins, name, Declared(Symbol(name, sort)));
    case Define(name, params, body) =>
      if params == [] {
        AddedStep(s.frames, name, DefinitionOf(c, s, name, params, body).term);
        AddedStep(s.origins, name, Alias(|s.history|));
      }
    case _ =>
  }

  /** At any point of a run, as many scopes are open as the commands so far have left open. */
  lemma {:induction false} TraceLevels(c: Setting, ss: seq<Snapshot>, cs: seq<Command>, k: nat)
    requires Trace(c, ss, cs) && k <= |cs| && Shape(ss[0])
    ensures |ss[k].frames| == |ss[0].frames| + Level(cs[..k]) && Shape(ss[k])
  {
    if k > 0 {
      TraceLevels(c, ss, cs, k - 1);
      assert CommandStep(c, ss[k - 1], cs[k - 1], ss[k]);
      CommandScopes(c, ss[k - 1], cs[k - 1], ss[k]);
      assert cs[..k][..k - 1] == cs[..k - 1];
    }
  }

  /** Definitions and declared symbols are never taken back, whatever is popped. */
  lemma {:induction false} TraceGrows(c: Setting, ss: seq<Snapshot>, cs: seq<Command>)
    requires Trace(c, ss, cs)
    ensures var last := ss[|cs|];
      && ss[0].history <= last.history
      && forall n :: n in ss[0].symbols ==> n in last.symbols && last.symbols[n] == ss[0].symbols[n]
    decreases |cs|
  {
    if cs != [] {
      var k := |cs| - 1;
      assert Trace(c, ss[..k + 1], cs[..k]);
      TraceGrows(c, ss[..k + 1], cs[..k]);
      assert CommandStep(c, ss[k], cs[k], ss[k + 1]);
      CommandScopes(c, ss[k], cs[k], ss[k + 1]);
    }
  }

  /** What a command does to the map of defined functions. */
  lemma CommandMacros(c: Setting, s: Snapshot, cmd: Command, s': Snapshot)
    requires CommandStep(c, s, cmd, s')
    ensures !IsFunction(cmd) ==> MacrosOf(s'.history) == MacrosOf(s.history)
    ensures IsFunction(cmd) ==> cmd.name in MacrosOf(s'.history)
    ensures IsFunction(cmd) ==> MacrosOf(s'.history) == MacrosOf(s.history)[cmd.name := MacrosOf(s'.history)[cmd.name]]
  {
    if cmd.Define? {
      var d := DefinitionOf(c, s, cmd.name, cmd.params, cmd.body);
      assert (s.history + [d])[..|s.history|] == s.history;
      if cmd.params != [] {
        assert NamesOf(cmd.params) != [];
        assert MacrosOf(s'.history) == MacrosOf(s.history)[cmd.name := Macro(d.formals, d.term)];
      }
    }
  }

  /** Some functions have become known, and all others are as they were. */
  ghost predicate Updated(before: map<string, Macro>, after: map<string, Macro>, fs: set<string>) {
    && after.Keys == before.Keys + fs
    && forall f :: f in before && f !in fs ==> after[f] == before[f]
  }

  lemma {:induction false} TraceMacros(c: Setting, ss: seq<Snapshot>, cs: seq<Command>)
    requires Trace(c, ss, cs)
    ensures Updated(MacrosOf(ss[0].history), MacrosOf(ss[|cs|].history), FunctionsIn(cs))
    decreases |cs|
  {
    if cs != [] {
      var k := |cs| - 1;
      assert Trace(c, ss[..k + 1], cs[..k]);
      TraceMacros(c, ss[..k + 1], cs[..k]);
      assert CommandStep(c, ss[k], cs[k], ss[k + 1]);
      CommandMacros(c, ss[k], cs[k], ss[k + 1]);
      FunctionsSnoc(cs[..k], cs[k]);
      SplitLast(cs);
      if IsFunction(cs[k]) {
        UpdatedNext(MacrosOf(ss[0].history), MacrosOf(ss[k].history), MacrosOf(ss[k + 1].history),
          FunctionsIn(cs[..k]), cs[k].name);
      } else {
        assert FunctionsIn(cs) == FunctionsIn(cs[..k]);
      }
    }
  }

  lemma UpdatedNext(before: map<string, Macro>, now: map<string, Macro>, after: map<string, Macro>, fs: set<string>,
                    f: string)
    requires Updated(before, now, fs) && f in after && after == now[f := after[f]]
    ensures Updated(before, after, fs + {f})
  {
  }

  lemma FunctionsSnoc(cs: seq<Command>, cmd: Command)
    ensures FunctionsIn(cs + [cmd]) == FunctionsIn(cs) + if IsFunction(cmd) then {cmd.name} else {}
  {
    forall f | f in FunctionsIn(cs)
      ensures f in FunctionsIn(cs + [cmd])
    {
      var d :| d in cs && IsFunction(d) && d.name == f;
      assert d in cs + [cmd];
    }
    assert cmd in cs + [cmd];
  }

  function FramesIn(ss: seq<Snapshot>): (fs: seq<Frames<Term>>)
    ensures |fs| == |ss|
  {
    seq(|ss|, i requires 0 <= i < |ss| => ss[i].frames)
  }

  function OriginsIn(ss: seq<Snapshot>): (fs: seq<Frames<Global>>)
    ensures |fs| == |ss|
  {
    seq(|ss|, i requires 0 <= i < |ss| => ss[i].origins)
  }

  lemma TraceSteps(c: Setting, ss: seq<Snapshot>, cs: seq<Command>)
    requires Trace(c, ss, cs)
    ensures Steps(FramesIn(ss)) && Steps(OriginsIn(ss))
  {
    forall i | 0 <= i < |ss| - 1
      ensures Step(FramesIn(ss)[i], FramesIn(ss)[i + 1]) && Step(OriginsIn(ss)[i], OriginsIn(ss)[i + 1])
    {
      assert CommandStep(c, ss[i], cs[i], ss[i + 1]);
      CommandScopes(c, ss[i], cs[i], ss[i + 1]);
    }
  }

  ghost function Bracket(n: nat, cs: seq<Command>): seq<Command> {
    [Push(n)] + cs + [Pop(n)]
  }

  lemma InnerTrace(c: Setting, ss: seq<Snapshot>, n: nat, cs: seq<Command>)
    requires Trace(c, ss, Bracket(n, cs))
    ensures Trace(c, ss[1..|cs| + 2], cs)
    ensures CommandStep(c, ss[0], Push(n), ss[1]) && CommandStep(c, ss[|cs| + 1], Pop(n), ss[|cs| + 2])
  {
    var all, inner := Bracket(n, cs), ss[1..|cs| + 2];
    assert all[0] == Push(n) && all[|cs| + 1] == Pop(n);
    forall i | 0 <= i < |cs|
      ensures CommandStep(c, inner[i], cs[i], inner[i + 1])
    {
      assert all[i + 1] == cs[i] && CommandStep(c, ss[i + 1], all[i + 1], ss[i + 2]);
    }
  }

  /** A push, any commands that close what they open, and the pop: the scopes and all visible names are those at
      the push. */
  lemma BracketRestores(c: Setting, ss: seq<Snapshot>, n: nat, cs: seq<Command>)
    requires n > 0 && WellBracketed(cs) && Trace(c, ss, Bracket(n, cs))
    ensures var first, last := ss[0], ss[|cs| + 2];
      && last.frames == first.frames && Scope(last).globals == Scope(first).globals
      && last.origins == first.origins
  {
    InnerTrace(c, ss, n, cs);
    var inner := ss[1..|cs| + 2];
    CommandScopes(c, ss[0], Push(n), ss[1]);
    TraceSteps(c, inner, cs);
    forall k | 0 <= k <= |cs|
      ensures |inner[k].frames| >= |ss[0].frames| + n && |inner[k].origins| == |inner[k].frames|
    {
      TraceLevels(c, inner, cs, k);
    }
    TraceLevels(c, inner, cs, |cs|);
    TakeAll(cs);
    PopRestores(ss[0].frames, n, FramesIn(inner));
    PopRestores(ss[0].origins, n, OriginsIn(inner));
  }

  /** The map of defined functions is then the one at the push exactly when every function that was defined in between
      had a definition at the push and ends with the same one. No name is known in addition exactly when all these
      functions were known. */
  lemma BracketDefinitions(c: Setting, ss: seq<Snapshot>, n: nat, cs: seq<Command>)
    requires Trace(c, ss, Bracket(n, cs))
    ensures var before, after := MacrosOf(ss[0].history), MacrosOf(ss[|cs| + 2].history);
      && (after == before <==> forall f :: f in FunctionsIn(cs) ==> SameFunction(before, after, f))
      && (after.Keys == before.Keys <==> FunctionsIn(cs) <= before.Keys)
  {
    TraceMacros(c, ss, Bracket(n, cs));
    BracketFunctions(n, cs);
    var before, after := MacrosOf(ss[0].history), MacrosOf(ss[|cs| + 2].history);
    UpdatedSame(before, after, FunctionsIn(cs));
  }

  ghost predicate SameFunction(before: map<string, Macro>, after: map<string, Macro>, f: string) {
    f in before && f in after && after[f] == before[f]
  }

  lemma UpdatedSame(before: map<string, Macro>, after: map<string, Macro>, fs: set<string>)
    requires Updated(before, after, fs)
    ensures after == before <==> forall f :: f in fs ==> SameFunction(before, after, f)
    ensures after.Keys == before.Keys <==> fs <= before.Keys
  {
    if forall f :: f in fs ==> SameFunction(before, after, f) {
      forall f | f in after
        ensures f in before && after[f] == before[f]
      {
        if f in fs {
          assert SameFunction(before, after, f);
        }
      }
      assert after.Keys == before.Keys;
      assert after == before;
    } else {
      var f :| f in fs && !SameFunction(before, after, f);
      assert f in after;
    }
  }

  lemma BracketFunctions(n: nat, cs: seq<Command>)
    ensures FunctionsIn(Bracket(n, cs)) == FunctionsIn(cs) && |Bracket(n, cs)| == |cs| + 2
  {
    assert [] + [Push(n)] == [Push(n)];
    forall f | f in FunctionsIn(cs)
      ensures f in FunctionsIn(Bracket(n, cs))
    {
      var d :| d in cs && IsFunction(d) && d.name == f;
      assert d in Bracket(n, cs);
    }
  }

  // ----- what survives a pop -----

  /** A call with that many arguments can be read whenever its arguments can. */
  ghost predicate Callable(env: Env, name: string, n: nat) {
    forall args {:trigger ReadAll(env, args)} :: |args| == n && ReadAll(env, args).Some? ==>
      Read(env, Call(name, args)).Some?
  }

  /** Nothing that happens to the scopes makes a defined function unknown. */
  lemma DefinedCallable(c: Setting, s: Snapshot, name: string, params: seq<(string, Sort)>, body: Expr, s': Snapshot,
                        last: Snapshot)
    requires params != [] && CommandStep(c, s, Define(name, params, body), s') && last.history == s'.history
    ensures Callable(Scope(last), name, |params|)
  {
    var d := DefinitionOf(c, s, name, params, body);
    assert (s.history + [d])[..|s.history|] == s.history && NamesOf(params) != [];
    assert MacrosOf(last.history)[name] == Macro(d.formals, d.term);
  }

  lemma SurvivorCallable(c: Setting, ss: seq<Snapshot>, name: string, params: seq<(string, Sort)>, body: Expr)
    requires params != [] && Trace(c, ss, Bracket(1, [Define(name, params, body)]))
    ensures Callable(Scope(ss[3]), name, |params|)
  {
    var all := Bracket(1, [Define(name, params, body)]);
    assert all[1] == Define(name, params, body) && all[2] == Pop(1);
    assert CommandStep(c, ss[1], all[1], ss[2]) && CommandStep(c, ss[2], all[2], ss[3]);
    DefinedCallable(c, ss[1], name, params, body, ss[2], ss[3]);
  }

  /** The state before all commands. */
  function Start(declared: set<string>): Snapshot {
    Snapshot([map[]], [map[]], [], map[], Pool(map[], declared))
  }

  lemma TraceOf(c: Setting, s0: Snapshot, s1: Snapshot, s2: Snapshot, s3: Snapshot, a: Command, b: Command, d: Command)
    requires CommandStep(c, s0, a, s1) && CommandStep(c, s1, b, s2) && CommandStep(c, s2, d, s3)
    ensures Trace(c, [s0, s1, s2, s3], [a, b, d])
  {
  }

  /** The definition of a function that returns its argument. */
  function Identity(f: string, x: string): Command {
    Define(f, [(x, BoolSort)], Name(x))
  }

  function FirstTemp(c: Setting): Term {
    Symbol(TemporaryName(c, BoolSort, 0), BoolSort)
  }

  lemma {:induction false} OneParameter(c: Setting, x: string)
    ensures var ps := [(x, BoolSort)];
      NamesOf(ps) == [x] && FormalsOf(c, ps) == [FirstTemp(c)]
        && Zip(NamesOf(ps), FormalsOf(c, ps)) == map[x := FirstTemp(c)]
  {
    var ps, v := [(x, BoolSort)], FirstTemp(c);
    assert ps[..0] == [] && FormalsOf(c, ps[..0]) == [] && NamesOf(ps) == [x];
    assert [x][..0] == [] && [v][..0] == [] && Zip([x], [v]) == map[x := v];
  }

  /** It is accepted in any state whose pool has, or can make, a Boolean temporary. */
  lemma IdentityAccepted(c: Setting, s: Snapshot, f: string, x: string)
    requires Shape(s) && CanProvide(c, s.pool, BoolSort, 0) && x != "true" && x != "false"
    ensures Accepts(c, s, Identity(f, x))
    ensures var d := DefinitionOf(c, s, f, [(x, BoolSort)], Name(x));
      d.name == f && d.params == [x] && d.formals == [FirstTemp(c)] && d.term == FirstTemp(c)
    ensures After(c, s, Identity(f, x)).pool == Provide(c, s.pool, BoolSort, 0)
  {
    var ps := [(x, BoolSort)];
    OneParameter(c, x);
    assert ps[..0] == [] && NamesOf(ps[..0]) == [] && ArgsAccepted(c, s.pool, ps[..0]);
    assert AfterArgs(c, s.pool, ps[..0]) == s.pool && CountOf(ps[..0], BoolSort) == 0;
    assert AfterArgs(c, s.pool, ps) == Provide(c, s.pool, BoolSort, 0);
    assert Lookup(BodyScope(c, s, ps), x) == Some(FirstTemp(c));
  }

  lemma NoScope()
    ensures Scope(Start({})) == Env(InOrder, map[], map[], map[])
  {
    OneScope<Term>(map[]);
  }

  lemma OneScope<T>(names: map<string, T>)
    ensures Merged([names]) == names
  {
    var fs: Frames<T> := [names];
    assert fs[..0] == [] && Merged(fs[..0]) == map[];
  }

  lemma OneFunction(d: Definition)
    requires d.params != []
    ensures MacrosOf([d]) == map[d.name := Macro(d.formals, d.term)]
  {
    assert [d][..0] == [];
  }

  /** Calling the function that returns its argument. */
  lemma {:induction false} CallIdentity(env: Env, f: string, v: Term)
    requires f != "true" && f != "false" && env.locals == env.globals == map[] && v.Symbol?
    ensures env.macros == map[f := Macro([v], v)] ==> Read(env, Call(f, [Name("true")])) == Some(BoolValue(true))
    ensures env.macros == map[] ==> Read(env, Call(f, [Name("true")])) == None
  {
    var args := [Name("true")];
    assert args[..0] == [] && args[0] == Name("true");
    assert ReadAll(env, args[..0]) == Some([]) && Read(env, args[0]) == Some(BoolValue(true));
    assert ReadAll(env, args) == Some([] + [BoolValue(true)]);
    assert [v][..0] == [] && [BoolValue(true)][..0] == [];
    assert Bindings([v], [BoolValue(true)]) == Bindings([v][..0], [BoolValue(true)][..0])[v := BoolValue(true)];
  }

  /** A function defined between a push and its pop can still be called after the pop; it was unknown before. */
  lemma FunctionSurvivesPop(c: Setting, f: string, x: string) returns (ss: seq<Snapshot>)
    requires f != "true" && f != "false" && x != "true" && x != "false"
    ensures Trace(c, ss, [Push(1), Identity(f, x), Pop(1)]) && ss[0] == Start({})
    ensures Read(Scope(ss[0]), Call(f, [Name("true")])) == None
    ensures Read(Scope(ss[3]), Call(f, [Name("true")])) == Some(BoolValue(true))
  {
    var s0 := Start({});
    var s1 := After(c, s0, Push(1));
    IdentityAccepted(c, s1, f, x);
    var s2 := After(c, s1, Identity(f, x));
    var s3 := After(c, s2, Pop(1));
    OneFunction(DefinitionOf(c, s1, f, [(x, BoolSort)], Name(x)));
    assert s3.frames == [map[]];
    NoScope();
    CallIdentity(Scope(s0), f, FirstTemp(c));
    CallIdentity(Scope(s3), f, FirstTemp(c));
    TraceOf(c, s0, s1, s2, s3, Push(1), Identity(f, x), Pop(1));
    ss := [s0, s1, s2, s3];
  }

  /** The map of functions can be as before although one was defined in between: it was the same definition again. */
  lemma SameDefinitionRestored(c: Setting, f: string, x: string) returns (ss: seq<Snapshot>)
    requires x != "true" && x != "false"
    ensures Trace(c, ss, Bracket(1, [Identity(f, x)])) && Shape(ss[0])
    ensures MacrosOf(ss[3].history) == MacrosOf(ss[0].history) && |ss[3].history| == |ss[0].history| + 1
  {
    var start := Start({});
    IdentityAccepted(c, start, f, x);
    var s0 := After(c, start, Identity(f, x));
    var s1 := After(c, s0, Push(1));
    IdentityAccepted(c, s1, f, x);
    var s2 := After(c, s1, Identity(f, x));
    var s3 := After(c, s2, Pop(1));
    OneFunction(s0.history[0]);
    TwoDefinitions(s3.history, s0.history[0]);
    assert Bracket(1, [Identity(f, x)]) == [Push(1), Identity(f, x), Pop(1)];
    TraceOf(c, s0, s1, s2, s3, Push(1), Identity(f, x), Pop(1));
    ss := [s0, s1, s2, s3];
  }

  lemma {:induction false} TwoDefinitions(ds: seq<Definition>, d: Definition)
    requires |ds| == 2 && ds[0] == d && d.params != [] && ds[1].params != []
    requires ds[1].name == d.name && ds[1].formals == d.formals && ds[1].term == d.term
    ensures MacrosOf(ds) == MacrosOf([d])
  {
    assert ds[..1] == [d];
    OneFunction(d);
  }

  // ----- a definition that is misread -----

  lemma FirstDeclaration(c: Setting, x: string, w: nat)
    ensures var s, t := Start({}), Symbol(x, BVSort(w));
      && Accepts(c, s, Declare(x, BVSort(w)))
      && After(c, s, Declare(x, BVSort(w)))
         == Snapshot([map[x := t]], [map[x := Declared(t)]], [], map[x := t], Pool(map[], {x}))
  {
    OneScope<Term>(map[]);
  }

  lemma MisreadDefine(c: Setting, s: Snapshot, x: string, y: string, name: string, w: nat, n: nat)
    requires x != y && x != "true" && x != "false" && y != "true" && y != "false" && name != x
    requires var t := Symbol(x, BVSort(w));
      s == Snapshot([map[x := t]], [map[x := Declared(t)]], [], map[x := t], Pool(map[], {x}))
    ensures Accepts(c, s, Define(name, [], DependentLet(x, y, w, n)))
    ensures var s', t := After(c, s, Define(name, [], DependentLet(x, y, w, n))), Symbol(x, BVSort(w));
      && s'.frames == [map[x := t][name := BVValue(w, n)]] && s'.origins == [map[x := Declared(t)][name := Alias(0)]]
      && s'.history == [MisreadAlias(name, x, y, w, n)] && Shape(s')
  {
    var none: seq<(string, Sort)> := [];
    OneScope(map[x := Symbol(x, BVSort(w))]);
    OneScope(map[x := Declared(Symbol(x, BVSort(w)))]);
    assert NamesOf(none) == [] && BodyScope(c, s, none) == OneSymbol(InOrder, x, w);
    DependentLetReadings(x, y, w, n);
  }

  /** A text whose last term is misread, because of the let in a definition without parameters. */
  lemma MisreadRun<V>(c: Setting, m: Interp<V>, x: string, y: string, name: string, w: nat, n: nat)
    returns (ss: seq<Snapshot>)
    requires x != y && x != "true" && x != "false" && y != "true" && y != "false"
    requires name != x && name != "true" && name != "false"
    ensures Trace(c, ss, [Declare(x, BVSort(w)), Define(name, [], DependentLet(x, y, w, n)), Use(Name(name))])
    ensures ss[0] == Start({}) && ss[2].history == [MisreadAlias(name, x, y, w, n)] && !BodiesRight(ss[2].history)
    ensures Read(Scope(ss[2]), Name(name)) == Some(BVValue(w, n))
    ensures Meaning(InParallel, m, ss[2].history, Merged(ss[2].origins), map[], Name(name))
      == Some(m.leaf(Symbol(x, BVSort(w))))
  {
    var s0, declare, define := Start({}), Declare(x, BVSort(w)), Define(name, [], DependentLet(x, y, w, n));
    FirstDeclaration(c, x, w);
    var s1 := After(c, s0, declare);
    MisreadDefine(c, s1, x, y, name, w, n);
    var s2 := After(c, s1, define);
    OneScope(s2.frames[0]);
    OneScope(s2.origins[0]);
    MisreadDefinition(m, x, y, name, w, n);
    assert Lookup(Scope(s2), name) == Some(BVValue(w, n));
    TraceOf(c, s0, s1, s2, s2, declare, define, Use(Name(name)));
    ss := [s0, s1, s2, s2];
  }
}
