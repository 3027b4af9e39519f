/** Reading terms with defined functions: how src/smtlib_reader.cpp and the term rules of
    src/smtlibparser.yy expand macros, and what the text means. Macros are expanded by substituting
    temporaries that are shared between macros. */
module Macros {
  import opened Terms
  import opened Sorts
  import opened Substitution

  datatype Expr =
    | Name(x: string)
    | Constant(width: nat, n: nat)
    | Operator(op: Op, args: seq<Expr>)
    | Call(f: string, args: seq<Expr>)
    | Let(binds: seq<Binding>, body: Expr)

  datatype Binding = Binding(x: string, bound: Expr)

  /** A defined function: the temporaries that stand for its parameters, and its body. */
  datatype Macro = Macro(formals: seq<Term>, body: Term)

  /** How the bindings of a let are taken: the reader reads each with the earlier ones in scope, and refuses a name
      that is bound already (src/smtlibparser.yy:483-489); section 3.6.1 of the SMT-LIB 2.6 standard takes them all
      outside of the let, and lets their names shadow others. */
  datatype LetMode = InOrder | InParallel

  /** What names mean while a term is read. */
  datatype Env = Env(lets: LetMode, locals: map<string, Term>, globals: map<string, Term>, macros: map<string, Macro>)

  /** lookup_symbol. */
  function Lookup(env: Env, x: string): Option<Term> {
    if x == "true" then Some(BoolValue(true))
    else if x == "false" then Some(BoolValue(false))
    else if x in env.locals then Some(env.locals[x])
    else if x in env.globals then Some(env.globals[x])
    else None
  }

  /** The map that apply_define_fun builds; later formals win. */
  function Bindings(formals: seq<Term>, args: seq<Term>): Subst
    requires |formals| == |args|
    decreases |formals|
  {
    if formals == [] then map[]
    else
      var n := |formals| - 1;
      Bindings(formals[..n], args[..n])[formals[n] := args[n]]
  }

  /** apply_define_fun; None stands for its exceptions. */
  function Expanded(macros: map<string, Macro>, f: string, args: seq<Term>): Option<Term> {
    if args == [] || f !in macros || |args| != |macros[f].formals| then None
    else Some(Substituted(Bindings(macros[f].formals, args), macros[f].body))
  }

  /** Binding a local name; a name that is bound already is an error. */
  function Bound(env: Env, x: string, t: Term): Option<Env> {
    if x in env.locals then None else Some(env.(locals := env.locals[x := t]))
  }

  /** The term that is read for an expression, or None for an error. */
  function Read(env: Env, e: Expr): Option<Term>
    decreases e, 1
  {
    match e
    case Name(x) => Lookup(env, x)
    case Constant(w, n) => Some(BVValue(w, n))
    case Operator(op, args) =>
      var ts := ReadAll(env, args);
      if ts.Some? then Some(App(op, ts.value)) else None
    case Call(f, args) =>
      var ts := ReadAll(env, args);
      if ts.None? then None
      else if Lookup(env, f).Some? then Some(App(Op(Apply, []), [Lookup(env, f).value] + ts.value))
      else Expanded(env.macros, f, ts.value)
    case Let(_, _) =>
      match env.lets
      case InOrder => ReadLet(env, e, 0)
      case InParallel => ReadParallelLet(env, env, e, 0)
  }

  function ReadAll(env: Env, es: seq<Expr>): (r: Option<seq<Term>>)
    ensures r.Some? ==> |r.value| == |es|
    decreases es, 0
  {
    if es == [] then Some([])
    else
      var n := |es| - 1;
      var front, last := ReadAll(env, es[..n]), Read(env, es[n]);
      if front.Some? && last.Some? then Some(front.value + [last.value]) else None
  }

  lemma {:induction false} ReadAllPrefix(env: Env, es: seq<Expr>, k: nat)
    requires k <= |es| && ReadAll(env, es[..k]).None?
    ensures ReadAll(env, es).None?
    decreases |es|
  {
    if k == |es| {
      assert es[..k] == es;
    } else {
      assert es[..|es| - 1][..k] == es[..k];
      ReadAllPrefix(env, es[..|es| - 1], k);
    }
  }

  lemma {:induction false} ReadAllSnoc(env: Env, es: seq<Expr>, k: nat)
    requires k < |es|
    ensures ReadAll(env, es[..k + 1]) ==
      if ReadAll(env, es[..k]).Some? && Read(env, es[k]).Some?
      then Some(ReadAll(env, es[..k]).value + [Read(env, es[k]).value]) else None
  {
    assert es[..k + 1][..k] == es[..k];
  }

  lemma BindingsSnoc(formals: seq<Term>, args: seq<Term>, k: nat)
    requires k < |formals| == |args|
    ensures Bindings(formals[..k + 1], args[..k + 1]) == Bindings(formals[..k], args[..k])[formals[k] := args[k]]
  {
    assert formals[..k + 1][..k] == formals[..k] && args[..k + 1][..k] == args[..k];
  }

  lemma {:induction false} ZipSnoc<T>(xs: seq<string>, vs: seq<T>, x: string, v: T)
    requires |xs| == |vs|
    ensures Zip(xs + [x], vs + [v]) == Zip(xs, vs)[x := v]
  {
    assert (xs + [x])[..|xs|] == xs && (vs + [v])[..|vs|] == vs;
  }

  /** The bindings of a let from the i-th one on: each is read with the earlier ones in scope. */
  function ReadLet(env: Env, e: Expr, i: nat): Option<Term>
    requires e.Let? && i <= |e.binds|
    decreases e, 0, |e.binds| - i
  {
    if i == |e.binds| then Read(env, e.body)
    else
      var t := Read(env, e.binds[i].bound);
      var inner := if t.Some? then Bound(env, e.binds[i].x, t.value) else None;
      if inner.Some? then ReadLet(inner.value, e, i + 1) else None
  }

  /** The name of a binding is bound before it in the same let. */
  predicate Repeated(binds: seq<Binding>, i: nat)
    requires i < |binds|
  {
    exists j :: 0 <= j < i && binds[j].x == binds[i].x
  }

  /** The same as the standard has it: the bindings are read in outer, the body in inner. */
  function ReadParallelLet(outer: Env, inner: Env, e: Expr, i: nat): Option<Term>
    requires e.Let? && i <= |e.binds|
    decreases e, 0, |e.binds| - i
  {
    if i == |e.binds| then Read(inner, e.body)
    else
      var t := Read(outer, e.binds[i].bound);
      if t.None? || Repeated(e.binds, i) then None
      else ReadParallelLet(outer, inner.(locals := inner.locals[e.binds[i].x := t.value]), e, i + 1)
  }

  // ----- meaning -----

  /** Where a global name comes from: a declaration, or the k-th definition, which has no parameters. */
  datatype Global = Declared(symbol: Term) | Alias(k: nat)

  /** A definition, with the global names it was read under and what they stood for. */
  datatype Definition = Definition(name: string, params: seq<string>, formals: seq<Term>, body: Expr,
                                   names: map<string, Global>, globals: map<string, Term>, term: Term)

  /** The functions that some definitions, oldest first, define. */
  function MacrosOf(ds: seq<Definition>): map<string, Macro> {
    if ds == [] then map[]
    else
      var d := ds[|ds| - 1];
      var front := MacrosOf(ds[..|ds| - 1]);
      if d.params == [] then front else front[d.name := Macro(d.formals, d.term)]
  }

  /** The last definition of a function. */
  function Latest(ds: seq<Definition>, f: string): (r: Option<nat>)
    ensures r.Some? ==> r.value < |ds| && ds[r.value].name == f && ds[r.value].params != []
  {
    if ds == [] then None
    else if ds[|ds| - 1].name == f && ds[|ds| - 1].params != [] then Some(|ds| - 1)
    else Latest(ds[..|ds| - 1], f)
  }

  /** Declared names are symbols of the user's, and the others are earlier definitions without parameters. */
  ghost predicate GoodNames(user: set<Term>, ds: seq<Definition>, names: map<string, Global>) {
    forall x :: x in names ==>
      match names[x]
      case Declared(t) => t.Symbol? && t in user
      case Alias(k) => k < |ds| && ds[k].params == []
  }

  function TermOf(ds: seq<Definition>, g: Global): Term
    requires g.Alias? ==> g.k < |ds|
  {
    match g
    case Declared(t) => t
    case Alias(k) => ds[k].term
  }

  /** What the global names stand for in the reader is what their origins say. */
  ghost predicate Origins(user: set<Term>, ds: seq<Definition>, names: map<string, Global>,
                          globals: map<string, Term>) {
    && GoodNames(user, ds, names) && names.Keys == globals.Keys
    && forall x :: x in names ==> globals[x] == TermOf(ds, names[x])
  }

  function Zip<T>(xs: seq<string>, vs: seq<T>): map<string, T>
    requires |xs| == |vs|
    decreases |xs|
  {
    if xs == [] then map[]
    else
      var n := |xs| - 1;
      Zip(xs[..n], vs[..n])[xs[n] := vs[n]]
  }

  /** The value of a name; one that was defined means what its body means under the names of its definition. */
  function NameValue<V>(lets: LetMode, m: Interp<V>, ds: seq<Definition>, names: map<string, Global>,
                        locals: map<string, V>, x: string): Option<V>
    decreases |ds|, 0
  {
    if x == "true" then Some(m.leaf(BoolValue(true)))
    else if x == "false" then Some(m.leaf(BoolValue(false)))
    else if x in locals then Some(locals[x])
    else if x !in names then None
    else
      match names[x]
      case Declared(t) => Some(m.leaf(t))
      case Alias(k) => if k < |ds| then Meaning(lets, m, ds[..k], ds[k].names, map[], ds[k].body) else None
  }

  /** The meaning of an expression without any expansion: a defined function is applied to the values of its
      arguments, its body being evaluated under the names of its definition, and so is one without parameters. With
      lets in parallel this is the meaning that the standard gives to the text. */
  function Meaning<V>(lets: LetMode, m: Interp<V>, ds: seq<Definition>, names: map<string, Global>,
                      locals: map<string, V>, e: Expr): Option<V>
    decreases |ds|, 1, e, 1
  {
    match e
    case Name(x) => NameValue(lets, m, ds, names, locals, x)
    case Constant(w, n) => Some(m.leaf(BVValue(w, n)))
    case Operator(op, args) =>
      var vs := MeaningAll(lets, m, ds, names, locals, args);
      if vs.Some? then Some(m.apply(op, vs.value)) else None
    case Call(f, args) =>
      var vs := MeaningAll(lets, m, ds, names, locals, args);
      if vs.None? then None
      else
        var fun := NameValue(lets, m, ds, names, locals, f);
        if fun.Some? then Some(m.apply(Op(Apply, []), [fun.value] + vs.value))
        else
          var k := Latest(ds, f);
          if k.Some? && args != [] && |ds[k.value].params| == |args| then
            var d := ds[k.value];
            Meaning(lets, m, ds[..k.value], d.names, Zip(d.params, vs.value), d.body)
          else None
    case Let(_, _) =>
      match lets
      case InOrder => MeaningLet(lets, m, ds, names, locals, e, 0)
      case InParallel => MeaningParallelLet(lets, m, ds, names, locals, locals, e, 0)
  }

  function MeaningAll<V>(lets: LetMode, m: Interp<V>, ds: seq<Definition>, names: map<string, Global>,
                         locals: map<string, V>, es: seq<Expr>)
    : (r: Option<seq<V>>)
    ensures r.Some? ==> |r.value| == |es|
    decreases |ds|, 1, es, 0
  {
    if es == [] then Some([])
    else
      var n := |es| - 1;
      var front, last := MeaningAll(lets, m, ds, names, locals, es[..n]), Meaning(lets, m, ds, names, locals, es[n]);
      if front.Some? && last.Some? then Some(front.value + [last.value]) else None
  }

  function MeaningLet<V>(lets: LetMode, m: Interp<V>, ds: seq<Definition>, names: map<string, Global>,
                         locals: map<string, V>, e: Expr, i: nat)
    : Option<V>
    requires e.Let? && i <= |e.binds|
    decreases |ds|, 1, e, 0, |e.binds| - i
  {
    if i == |e.binds| then Meaning(lets, m, ds, names, locals, e.body)
    else
      var v := Meaning(lets, m, ds, names, locals, e.binds[i].bound);
      if v.None? || e.binds[i].x in locals then None
      else MeaningLet(lets, m, ds, names, locals[e.binds[i].x := v.value], e, i + 1)
  }

  function MeaningParallelLet<V>(lets: LetMode, m: Interp<V>, ds: seq<Definition>, names: map<string, Global>,
                                 outer: map<string, V>, inner: map<string, V>, e: Expr, i: nat): Option<V>
    requires e.Let? && i <= |e.binds|
    decreases |ds|, 1, e, 0, |e.binds| - i
  {
    if i == |e.binds| then Meaning(lets, m, ds, names, inner, e.body)
    else
      var v := Meaning(lets, m, ds, names, outer, e.binds[i].bound);
      if v.None? || Repeated(e.binds, i) then None
      else MeaningParallelLet(lets, m, ds, names, outer, inner[e.binds[i].x := v.value], e, i + 1)
  }

  // ----- which symbols occur -----

  /** A term without constant arrays whose symbols are all among the given ones. */
  ghost predicate Clean(t: Term, syms: set<Term>) {
    match t
    case App(_, cs) => forall c :: c in cs ==> Clean(c, syms)
    case ConstArray(_, _) => false
    case Symbol(_, _) => t in syms
    case _ => true
  }

  ghost predicate AllClean(env: map<string, Term>, syms: set<Term>) {
    forall x :: x in env ==> Clean(env[x], syms)
  }

  lemma {:induction false} CleanMore(t: Term, a: set<Term>, b: set<Term>)
    requires Clean(t, a) && a <= b
    ensures Clean(t, b)
  {
    if t.App? {
      forall c | c in t.children
        ensures Clean(c, b)
      {
        CleanMore(c, a, b);
      }
    }
  }

  lemma {:induction false} CleanArrays(t: Term, a: set<Term>)
    requires Clean(t, a)
    ensures ConstArraysOfValues(t)
  {
    if t.App? {
      forall c | c in t.children
        ensures ConstArraysOfValues(c)
      {
        CleanArrays(c, a);
      }
    }
  }

  /** Substituting for all symbols that are not among b leaves only symbols among b. */
  lemma {:induction false} CleanSubstituted(sub: Subst, t: Term, a: set<Term>, b: set<Term>)
    requires Clean(t, a) && SymbolKeys(sub)
    requires forall s :: s in a ==> s in sub || s in b
    requires forall s :: s in sub ==> Clean(sub[s], b)
    ensures Clean(Substituted(sub, t), b)
  {
    if t.App? {
      forall i | 0 <= i < |t.children|
        ensures Clean(Substituted(sub, t.children[i]), b)
      {
        CleanSubstituted(sub, t.children[i], a, b);
      }
    }
  }

  /** A clean term has the same value in two interpretations that differ on other symbols only. */
  ghost predicate SameBut<V>(m: Interp<V>, m': Interp<V>, temps: set<Term>) {
    && m.apply == m'.apply && m.constArray == m'.constArray
    && forall t: Term :: t !in temps ==> m.leaf(t) == m'.leaf(t)
  }

  lemma {:induction false} CleanSame<V>(m: Interp<V>, m': Interp<V>, temps: set<Term>, t: Term, syms: set<Term>)
    requires SameBut(m, m', temps) && Clean(t, syms) && temps !! syms && forall s :: s in temps ==> s.Symbol?
    ensures Eval(m, t) == Eval(m', t)
  {
    match t
    case App(op, cs) =>
      forall i | 0 <= i < |cs|
        ensures Eval(m, cs[i]) == Eval(m', cs[i])
      {
        CleanSame(m, m', temps, cs[i], syms);
      }
      EvalApp(m, op, cs);
      EvalApp(m', op, cs);
      assert EvalAll(m, cs) == EvalAll(m', cs);
    case _ =>
  }

  // ----- definitions -----

  predicate AllDifferent(ts: seq<Term>) {
    forall i, j :: 0 <= i < j < |ts| ==> ts[i] != ts[j]
  }

  /** What the last of some definitions must satisfy: its term is its body as read when it was defined. */
  ghost predicate LastDefined(lets: LetMode, user: set<Term>, temps: set<Term>, ds: seq<Definition>)
    requires ds != []
  {
    var d := ds[|ds| - 1];
    && |d.params| == |d.formals| && AllDifferent(d.formals)
    && (forall v :: v in d.formals ==> v in temps && v.Symbol?)
    && AllClean(d.globals, user) && Origins(user, ds[..|ds| - 1], d.names, d.globals)
    && Read(EnvOf(lets, ds), d.body) == Some(d.term)
  }

  ghost predicate Defined(lets: LetMode, user: set<Term>, temps: set<Term>, ds: seq<Definition>) {
    ds == [] || (LastDefined(lets, user, temps, ds) && Defined(lets, user, temps, ds[..|ds| - 1]))
  }

  lemma {:induction false} DefinedAt(lets: LetMode, user: set<Term>, temps: set<Term>, ds: seq<Definition>, f: string)
    requires Defined(lets, user, temps, ds)
    ensures f in MacrosOf(ds) <==> Latest(ds, f).Some?
    ensures f in MacrosOf(ds) ==>
      var k := Latest(ds, f).value;
      && MacrosOf(ds)[f] == Macro(ds[k].formals, ds[k].term)
      && Defined(lets, user, temps, ds[..k + 1])
  {
    if ds != [] {
      var front := ds[..|ds| - 1];
      if ds[|ds| - 1].name == f && ds[|ds| - 1].params != [] {
        assert ds[..|ds|] == ds;
      } else {
        DefinedAt(lets, user, temps, front, f);
        if f in MacrosOf(front) {
          assert front[..Latest(front, f).value + 1] == ds[..Latest(front, f).value + 1];
        }
      }
    }
  }

  lemma {:induction false} DefinedPrefix(lets: LetMode, user: set<Term>, temps: set<Term>, ds: seq<Definition>, k: nat)
    requires Defined(lets, user, temps, ds) && k < |ds|
    ensures Defined(lets, user, temps, ds[..k + 1])
  {
    if k + 1 == |ds| {
      assert ds[..k + 1] == ds;
    } else {
      assert ds[..|ds| - 1][..k + 1] == ds[..k + 1];
      DefinedPrefix(lets, user, temps, ds[..|ds| - 1], k);
    }
  }

  /** One more definition. */
  lemma {:induction false} DefinedSnoc(lets: LetMode, user: set<Term>, temps: set<Term>, ds: seq<Definition>,
                                       d: Definition)
    requires Defined(lets, user, temps, ds) && AllClean(d.globals, user) && Origins(user, ds, d.names, d.globals)
    requires |d.params| == |d.formals| && AllDifferent(d.formals)
      && forall v :: v in d.formals ==> v in temps && v.Symbol?
    requires Read(Env(lets, Zip(d.params, d.formals), d.globals, MacrosOf(ds)), d.body) == Some(d.term)
    ensures Defined(lets, user, temps, ds + [d])
    ensures MacrosOf(ds + [d]) == if d.params == [] then MacrosOf(ds)
      else MacrosOf(ds)[d.name := Macro(d.formals, d.term)]
  {
    assert (ds + [d])[..|ds|] == ds;
  }

  /** Macros are applied to terms in place of symbols. */
  lemma {:induction false} FormalsAreSymbols(lets: LetMode, user: set<Term>, temps: set<Term>, ds: seq<Definition>,
                                             f: string)
    requires Defined(lets, user, temps, ds) && f in MacrosOf(ds)
    ensures forall v :: v in MacrosOf(ds)[f].formals ==> v.Symbol?
  {
    DefinedAt(lets, user, temps, ds, f);
    var k := Latest(ds, f).value;
    assert ds[..k + 1][k] == ds[k];
  }

  lemma {:induction false} BindingsOf(formals: seq<Term>, args: seq<Term>)
    requires |formals| == |args|
    ensures Bindings(formals, args).Keys == SetOf(formals)
    ensures forall v :: v in formals ==> Bindings(formals, args)[v] in args
    decreases |formals|
  {
    if formals != [] {
      var n := |formals| - 1;
      BindingsOf(formals[..n], args[..n]);
      SplitLast(formals);
      SplitLast(args);
      SetOfSnoc(formals[..n], formals[n]);
    }
  }

  /** Different formals are bound to their own arguments. */
  lemma {:induction false} BindingsAt(formals: seq<Term>, args: seq<Term>, i: nat)
    requires |formals| == |args| && AllDifferent(formals) && i < |formals|
    ensures formals[i] in Bindings(formals, args) && Bindings(formals, args)[formals[i]] == args[i]
    decreases |formals|
  {
    var n := |formals| - 1;
    if i < n {
      BindingsAt(formals[..n], args[..n], i);
      assert formals[i] != formals[n];
    }
  }

  lemma {:induction false} ZipClean(xs: seq<string>, ts: seq<Term>, syms: set<Term>)
    requires |xs| == |ts| && forall t :: t in ts ==> Clean(t, syms)
    ensures AllClean(Zip(xs, ts), syms)
    decreases |xs|
  {
    if xs != [] {
      ZipClean(xs[..|xs| - 1], ts[..|xs| - 1], syms);
    }
  }

  lemma {:induction false} ZipValues<V>(m: Interp<V>, xs: seq<string>, ts: seq<Term>, vs: seq<V>)
    requires |xs| == |ts| == |vs| && forall i :: 0 <= i < |ts| ==> vs[i] == Eval(m, ts[i])
    ensures LocalsMean(m, Zip(xs, ts), Zip(xs, vs))
    decreases |xs|
  {
    if xs != [] {
      var n := |xs| - 1;
      ZipValues(m, xs[..n], ts[..n], vs[..n]);
    }
  }

  /** The local names have the values of their terms. */
  ghost predicate LocalsMean<V>(m: Interp<V>, terms: map<string, Term>, values: map<string, V>) {
    terms.Keys == values.Keys && forall x :: x in terms ==> values[x] == Eval(m, terms[x])
  }

  ghost predicate Submap(a: map<string, Term>, b: map<string, Term>) {
    forall n :: n in a ==> n in b && a[n] == b[n]
  }

  lemma AllCleanSub(a: map<string, Term>, b: map<string, Term>, syms: set<Term>)
    requires AllClean(b, syms) && Submap(a, b)
    ensures AllClean(a, syms)
  {
  }

  lemma {:induction false} AllCleanAdd(env: map<string, Term>, x: string, t: Term, syms: set<Term>)
    requires AllClean(env, syms) && Clean(t, syms)
    ensures AllClean(env[x := t], syms)
  {
  }

  lemma AllCleanMore(env: map<string, Term>, a: set<Term>, b: set<Term>)
    requires AllClean(env, a) && a <= b
    ensures AllClean(env, b)
  {
    forall x | x in env
      ensures Clean(env[x], b)
    {
      CleanMore(env[x], a, b);
    }
  }

  lemma {:induction false} DefinedMore(lets: LetMode, user: set<Term>, temps: set<Term>, ds: seq<Definition>,
                                       user': set<Term>, temps': set<Term>)
    requires Defined(lets, user, temps, ds) && user <= user' && temps <= temps'
    ensures Defined(lets, user', temps', ds)
  {
    if ds != [] {
      DefinedMore(lets, user, temps, ds[..|ds| - 1], user', temps');
      AllCleanMore(ds[|ds| - 1].globals, user, user');
    }
  }

  // ----- only the right symbols occur in what is read -----

  /** The environment a term is read in, where locals may mention the symbols in syms. */
  ghost predicate GoodEnv(user: set<Term>, temps: set<Term>, ds: seq<Definition>, env: Env, syms: set<Term>) {
    && Defined(env.lets, user, temps, ds) && env.macros == MacrosOf(ds)
    && AllClean(env.globals, user) && AllClean(env.locals, syms) && user <= syms
  }

  /** What the body of the last definition was read in. */
  function EnvOf(lets: LetMode, ds: seq<Definition>): Env
    requires ds != [] && |ds[|ds| - 1].params| == |ds[|ds| - 1].formals|
  {
    var d := ds[|ds| - 1];
    Env(lets, Zip(d.params, d.formals), d.globals, MacrosOf(ds[..|ds| - 1]))
  }

  lemma {:induction false} DefinitionEnv(lets: LetMode, user: set<Term>, temps: set<Term>, ds: seq<Definition>)
    requires Defined(lets, user, temps, ds) && ds != []
    ensures GoodEnv(user, temps, ds[..|ds| - 1], EnvOf(lets, ds), user + SetOf(ds[|ds| - 1].formals))
  {
    var d := ds[|ds| - 1];
    ZipClean(d.params, d.formals, user + SetOf(d.formals));
  }

  lemma {:induction false} ReadClean(user: set<Term>, temps: set<Term>, ds: seq<Definition>, env: Env, e: Expr,
                                     syms: set<Term>)
    requires GoodEnv(user, temps, ds, env, syms) && Read(env, e).Some?
    ensures Clean(Read(env, e).value, syms)
    decreases |ds|, e, 1
  {
    match e
    case Name(x) => LookupClean(user, temps, ds, env, x, syms);
    case Operator(op, args) => ReadAllClean(user, temps, ds, env, args, syms);
    case Call(f, args) =>
      ReadAllClean(user, temps, ds, env, args, syms);
      if Lookup(env, f).Some? {
        LookupClean(user, temps, ds, env, f, syms);
      } else {
        DefinedAt(env.lets, user, temps, ds, f);
        var k := Latest(ds, f).value;
        assert ds[..k + 1][..k] == ds[..k];
        DefinitionEnv(env.lets, user, temps, ds[..k + 1]);
        ReadClean(user, temps, ds[..k], EnvOf(env.lets, ds[..k + 1]), ds[k].body, user + SetOf(ds[k].formals));
        ExpandedClean(ds[k], ReadAll(env, args).value, user, syms);
      }
    case Let(_, _) =>
      match env.lets {
        case InOrder => ReadLetClean(user, temps, ds, env, e, 0, syms);
        case InParallel => ReadParallelLetClean(user, temps, ds, env, env, e, 0, syms);
      }
    case _ =>
  }

  lemma {:induction false} LookupClean(user: set<Term>, temps: set<Term>, ds: seq<Definition>, env: Env, x: string,
                                       syms: set<Term>)
    requires GoodEnv(user, temps, ds, env, syms) && Lookup(env, x).Some?
    ensures Clean(Lookup(env, x).value, syms)
  {
    if x != "true" && x != "false" && x !in env.locals {
      CleanMore(env.globals[x], user, syms);
    }
  }

  lemma {:induction false} ReadAllClean(user: set<Term>, temps: set<Term>, ds: seq<Definition>, env: Env,
                                        es: seq<Expr>, syms: set<Term>)
    requires GoodEnv(user, temps, ds, env, syms) && ReadAll(env, es).Some?
    ensures forall t :: t in ReadAll(env, es).value ==> Clean(t, syms)
    decreases |ds|, es, 0
  {
    if es != [] {
      ReadAllClean(user, temps, ds, env, es[..|es| - 1], syms);
      ReadClean(user, temps, ds, env, es[|es| - 1], syms);
    }
  }

  lemma {:induction false} ReadLetClean(user: set<Term>, temps: set<Term>, ds: seq<Definition>, env: Env, e: Expr,
                                        i: nat, syms: set<Term>)
    requires GoodEnv(user, temps, ds, env, syms) && e.Let? && i <= |e.binds| && ReadLet(env, e, i).Some?
    ensures Clean(ReadLet(env, e, i).value, syms)
    decreases |ds|, e, 0, |e.binds| - i
  {
    if i == |e.binds| {
      ReadClean(user, temps, ds, env, e.body, syms);
    } else {
      ReadClean(user, temps, ds, env, e.binds[i].bound, syms);
      ReadLetClean(user, temps, ds, Bound(env, e.binds[i].x, Read(env, e.binds[i].bound).value).value, e, i + 1, syms);
    }
  }

  lemma {:induction false} ReadParallelLetClean(user: set<Term>, temps: set<Term>, ds: seq<Definition>, outer: Env,
                                                inner: Env,
                                                e: Expr, i: nat, syms: set<Term>)
    requires GoodEnv(user, temps, ds, outer, syms) && GoodEnv(user, temps, ds, inner, syms)
    requires e.Let? && i <= |e.binds| && ReadParallelLet(outer, inner, e, i).Some?
    ensures Clean(ReadParallelLet(outer, inner, e, i).value, syms)
    decreases |ds|, e, 0, |e.binds| - i
  {
    if i == |e.binds| {
      ReadClean(user, temps, ds, inner, e.body, syms);
    } else {
      ReadClean(user, temps, ds, outer, e.binds[i].bound, syms);
      var t := Read(outer, e.binds[i].bound).value;
      ReadParallelLetClean(user, temps, ds, outer, inner.(locals := inner.locals[e.binds[i].x := t]), e, i + 1, syms);
    }
  }

  lemma {:induction false} ExpandedClean(d: Definition, args: seq<Term>, user: set<Term>, syms: set<Term>)
    requires Clean(d.term, user + SetOf(d.formals)) && user <= syms && |args| == |d.formals|
    requires forall v :: v in d.formals ==> v.Symbol?
    requires forall t :: t in args ==> Clean(t, syms)
    ensures Clean(Substituted(Bindings(d.formals, args), d.term), syms)
  {
    BindingsOf(d.formals, args);
    CleanSubstituted(Bindings(d.formals, args), d.term, user + SetOf(d.formals), syms);
  }

  // ----- reading keeps the meaning -----

  /** A meaning does not depend on what the temporaries stand for. */
  lemma {:induction false} MeaningSame<V>(lets: LetMode, m: Interp<V>, m': Interp<V>, user: set<Term>,
                                          temps: set<Term>, some: set<Term>,
                                          ds: seq<Definition>, names: map<string, Global>, locals: map<string, V>,
                                          e: Expr)
    requires SameBut(m, m', some) && some <= temps && temps !! user && forall s :: s in some ==> s.Symbol?
    requires Defined(lets, user, temps, ds) && GoodNames(user, ds, names)
    ensures Meaning(lets, m, ds, names, locals, e) == Meaning(lets, m', ds, names, locals, e)
    decreases |ds|, 1, e, 1
  {
    match e
    case Name(x) => NameSame(lets, m, m', user, temps, some, ds, names, locals, x);
    case Operator(op, args) => MeaningAllSame(lets, m, m', user, temps, some, ds, names, locals, args);
    case Call(f, args) =>
      MeaningAllSame(lets, m, m', user, temps, some, ds, names, locals, args);
      NameSame(lets, m, m', user, temps, some, ds, names, locals, f);
      var vs, k := MeaningAll(lets, m, ds, names, locals, args), Latest(ds, f);
      if vs.Some? && k.Some? && |ds[k.value].params| == |args| {
        BodySame(lets, m, m', user, temps, some, ds, e, vs.value);
      }
    case Let(_, _) =>
      match lets {
        case InOrder => MeaningLetSame(lets, m, m', user, temps, some, ds, names, locals, e, 0);
        case InParallel => MeaningParallelLetSame(lets, m, m', user, temps, some, ds, names, locals, locals, e, 0);
      }
    case _ =>
  }

  lemma {:induction false} BodySame<V>(lets: LetMode, m: Interp<V>, m': Interp<V>, user: set<Term>, temps: set<Term>,
                                       some: set<Term>,
                                       ds: seq<Definition>, e: Expr, vs: seq<V>)
    requires SameBut(m, m', some) && some <= temps && temps !! user && forall s :: s in some ==> s.Symbol?
    requires Defined(lets, user, temps, ds) && e.Call? && Latest(ds, e.f).Some?
      && |ds[Latest(ds, e.f).value].params| == |vs|
    ensures var k := Latest(ds, e.f).value;
      Meaning(lets, m, ds[..k], ds[k].names, Zip(ds[k].params, vs), ds[k].body)
        == Meaning(lets, m', ds[..k], ds[k].names, Zip(ds[k].params, vs), ds[k].body)
    decreases |ds|, 1, e, 0
  {
    DefinedAt(lets, user, temps, ds, e.f);
    var k := Latest(ds, e.f).value;
    assert ds[..k + 1][..k] == ds[..k];
    MeaningSame(lets, m, m', user, temps, some, ds[..k], ds[k].names, Zip(ds[k].params, vs), ds[k].body);
  }

  lemma {:induction false} NameSame<V>(lets: LetMode, m: Interp<V>, m': Interp<V>, user: set<Term>, temps: set<Term>,
                                       some: set<Term>, ds: seq<Definition>, names: map<string, Global>,
                                       locals: map<string, V>, x: string)
    requires SameBut(m, m', some) && some <= temps && temps !! user && forall s :: s in some ==> s.Symbol?
    requires Defined(lets, user, temps, ds) && GoodNames(user, ds, names)
    ensures NameValue(lets, m, ds, names, locals, x) == NameValue(lets, m', ds, names, locals, x)
    decreases |ds|, 0
  {
    if x in names && names[x].Alias? {
      var k := names[x].k;
      DefinedPrefix(lets, user, temps, ds, k);
      assert ds[..k + 1][..k] == ds[..k];
      MeaningSame(lets, m, m', user, temps, some, ds[..k], ds[k].names, map[], ds[k].body);
    }
  }

  lemma {:induction false} MeaningAllSame<V>(lets: LetMode, m: Interp<V>, m': Interp<V>, user: set<Term>,
                                             temps: set<Term>, some: set<Term>,
                                             ds: seq<Definition>, names: map<string, Global>, locals: map<string, V>,
                                             es: seq<Expr>)
    requires SameBut(m, m', some) && some <= temps && temps !! user && forall s :: s in some ==> s.Symbol?
    requires Defined(lets, user, temps, ds) && GoodNames(user, ds, names)
    ensures MeaningAll(lets, m, ds, names, locals, es) == MeaningAll(lets, m', ds, names, locals, es)
    decreases |ds|, 1, es, 0
  {
    if es != [] {
      MeaningAllSame(lets, m, m', user, temps, some, ds, names, locals, es[..|es| - 1]);
      MeaningSame(lets, m, m', user, temps, some, ds, names, locals, es[|es| - 1]);
    }
  }

  lemma {:induction false} MeaningLetSame<V>(lets: LetMode, m: Interp<V>, m': Interp<V>, user: set<Term>,
                                             temps: set<Term>, some: set<Term>,
                                             ds: seq<Definition>, names: map<string, Global>, locals: map<string, V>,
                                             e: Expr, i: nat)
    requires SameBut(m, m', some) && some <= temps && temps !! user && forall s :: s in some ==> s.Symbol?
    requires Defined(lets, user, temps, ds) && GoodNames(user, ds, names) && e.Let? && i <= |e.binds|
    ensures MeaningLet(lets, m, ds, names, locals, e, i) == MeaningLet(lets, m', ds, names, locals, e, i)
    decreases |ds|, 1, e, 0, |e.binds| - i
  {
    if i == |e.binds| {
      MeaningSame(lets, m, m', user, temps, some, ds, names, locals, e.body);
    } else {
      MeaningSame(lets, m, m', user, temps, some, ds, names, locals, e.binds[i].bound);
      var v := Meaning(lets, m, ds, names, locals, e.binds[i].bound);
      if v.Some? {
        MeaningLetSame(lets, m, m', user, temps, some, ds, names, locals[e.binds[i].x := v.value], e, i + 1);
      }
    }
  }

  lemma {:induction false} MeaningParallelLetSame<V>(lets: LetMode, m: Interp<V>, m': Interp<V>, user: set<Term>,
                                                     temps: set<Term>,
                                                     some: set<Term>, ds: seq<Definition>, names: map<string, Global>,
                                                     outer: map<string, V>, inner: map<string, V>, e: Expr, i: nat)
    requires SameBut(m, m', some) && some <= temps && temps !! user && forall s :: s in some ==> s.Symbol?
    requires Defined(lets, user, temps, ds) && GoodNames(user, ds, names) && e.Let? && i <= |e.binds|
    ensures MeaningParallelLet(lets, m, ds, names, outer, inner, e, i)
      == MeaningParallelLet(lets, m', ds, names, outer, inner, e, i)
    decreases |ds|, 1, e, 0, |e.binds| - i
  {
    if i == |e.binds| {
      MeaningSame(lets, m, m', user, temps, some, ds, names, inner, e.body);
    } else {
      MeaningSame(lets, m, m', user, temps, some, ds, names, outer, e.binds[i].bound);
      var v := Meaning(lets, m, ds, names, outer, e.binds[i].bound);
      if v.Some? {
        MeaningParallelLetSame(lets, m, m', user, temps, some, ds, names, outer, inner[e.binds[i].x := v.value], e,
          i + 1);
      }
    }
  }

  /** All temporaries of a macro get the values of the arguments at once, whatever the arguments mention. */
  lemma {:induction false} ExpansionMeans<V>(m: Interp<V>, formals: seq<Term>, args: seq<Term>, body: Term,
                                             syms: set<Term>)
    requires |formals| == |args| && AllDifferent(formals) && (forall v :: v in formals ==> v.Symbol?)
      && Clean(body, syms)
    ensures var m' := Update(m, Bindings(formals, args));
      && Eval(m, Substituted(Bindings(formals, args), body)) == Eval(m', body)
      && (forall i :: 0 <= i < |formals| ==> Eval(m', formals[i]) == Eval(m, args[i]))
      && SameBut(m, m', SetOf(formals))
  {
    BindingsOf(formals, args);
    forall i | 0 <= i < |formals|
      ensures formals[i] in Bindings(formals, args) && Bindings(formals, args)[formals[i]] == args[i]
    {
      BindingsAt(formals, args, i);
    }
    CleanArrays(body, syms);
    SubstitutionLemma(m, Bindings(formals, args), body);
  }

  /** The definitions, the global names and what the reader takes them for. */
  ghost predicate InForce(user: set<Term>, temps: set<Term>, ds: seq<Definition>, names: map<string, Global>,
                          env: Env) {
    GoodEnv(user, temps, ds, env, user + temps) && temps !! user && Origins(user, ds, names, env.globals)
  }

  lemma {:induction false} LookupMeans<V>(m: Interp<V>, user: set<Term>, temps: set<Term>, ds: seq<Definition>,
                                          names: map<string, Global>, env: Env, locals: map<string, V>, x: string)
    requires InForce(user, temps, ds, names, env)
    requires LocalsMean(m, env.locals, locals)
    ensures NameValue(env.lets, m, ds, names, locals, x) ==
      if Lookup(env, x).Some? then Some(Eval(m, Lookup(env, x).value)) else None
    decreases |ds|, 0
  {
    if x != "true" && x != "false" && x !in env.locals && x in names && names[x].Alias? {
      AliasMeans(env.lets, m, user, temps, ds, names[x].k);
    }
  }

  /** A definition without parameters. */
  lemma {:induction false} AliasMeans<V>(lets: LetMode, m: Interp<V>, user: set<Term>, temps: set<Term>,
                                         ds: seq<Definition>, k: nat)
    requires Defined(lets, user, temps, ds) && temps !! user && k < |ds| && ds[k].params == []
    ensures Meaning(lets, m, ds[..k], ds[k].names, map[], ds[k].body) == Some(Eval(m, ds[k].term))
    decreases k
  {
    var upTo := ds[..k + 1];
    DefinedPrefix(lets, user, temps, ds, k);
    assert upTo[..k] == ds[..k] && upTo[k] == ds[k];
    DefinitionEnv(lets, user, temps, upTo);
    var env, none: map<string, V> := EnvOf(lets, upTo), map[];
    GoodEnvMore(user, temps, ds[..k], env, user + SetOf(ds[k].formals), user + temps);
    ReadMeans(m, user, temps, ds[..k], ds[k].names, env, none, ds[k].body);
  }

  /** The term that is read for an expression has the value the expression means, also under nested macros
      whose arguments mention the very temporaries their parameters are read as. This holds for both ways of
      taking lets, as long as the text and the definitions are read and understood the same way. */
  lemma {:induction false} ReadMeans<V>(m: Interp<V>, user: set<Term>, temps: set<Term>, ds: seq<Definition>,
                                               names: map<string, Global>, env: Env, locals: map<string, V>, e: Expr)
    requires InForce(user, temps, ds, names, env)
    requires LocalsMean(m, env.locals, locals) && Read(env, e).Some?
    ensures Meaning(env.lets, m, ds, names, locals, e) == Some(Eval(m, Read(env, e).value))
    decreases |ds|, 1, e, 1
  {
    match e
    case Name(x) => LookupMeans(m, user, temps, ds, names, env, locals, x);
    case Operator(op, args) =>
      ReadAllMeans(m, user, temps, ds, names, env, locals, args);
      EvalApp(m, op, ReadAll(env, args).value);
    case Call(f, args) =>
      ReadAllMeans(m, user, temps, ds, names, env, locals, args);
      LookupMeans(m, user, temps, ds, names, env, locals, f);
      var ts := ReadAll(env, args).value;
      if Lookup(env, f).Some? {
        ApplyMeans(m, Lookup(env, f).value, ts);
      } else {
        CallMeans(env.lets, m, user, temps, ds, e, ts);
        CallMeaning(env.lets, m, ds, names, locals, f, args, EvalAll(m, ts), Latest(ds, f).value);
      }
    case Let(_, _) =>
      match env.lets {
        case InOrder => ReadLetMeans(m, user, temps, ds, names, env, locals, e, 0);
        case InParallel => ReadParallelLetMeans(m, user, temps, ds, names, env, env, locals, locals, e, 0);
      }
    case _ =>
  }

  /** The expanded term of a call has the value of the function's body at the values of the arguments. */
  lemma {:induction false} CallMeans<V>(lets: LetMode, m: Interp<V>, user: set<Term>, temps: set<Term>,
                                        ds: seq<Definition>, e: Expr, ts: seq<Term>)
    requires Defined(lets, user, temps, ds) && temps !! user && e.Call? && Expanded(MacrosOf(ds), e.f, ts).Some?
    ensures var k := Latest(ds, e.f);
      && k.Some? && |ds[k.value].params| == |ts|
      && Meaning(lets, m, ds[..k.value], ds[k.value].names, Zip(ds[k.value].params, EvalAll(m, ts)), ds[k.value].body)
         == Some(Eval(m, Expanded(MacrosOf(ds), e.f, ts).value))
    decreases |ds|, 1, e, 0, 1
  {
    DefinedAt(lets, user, temps, ds, e.f);
    var k := Latest(ds, e.f).value;
    var upTo := ds[..k + 1];
    assert upTo[..k] == ds[..k] && upTo[k] == ds[k];
    LastMeans(lets, m, user, temps, upTo, e, ts);
  }

  /** The same for the last definition. */
  lemma {:induction false} LastMeans<V>(lets: LetMode, m: Interp<V>, user: set<Term>, temps: set<Term>,
                                        ds: seq<Definition>, e: Expr, ts: seq<Term>)
    requires Defined(lets, user, temps, ds) && temps !! user && ds != [] && |ts| == |ds[|ds| - 1].formals|
    ensures var d := ds[|ds| - 1];
      && |d.params| == |ts|
      && Meaning(lets, m, ds[..|ds| - 1], d.names, Zip(d.params, EvalAll(m, ts)), d.body)
         == Some(Eval(m, Substituted(Bindings(d.formals, ts), d.term)))
    decreases |ds|, 1, e, 0, 0
  {
    var d := ds[|ds| - 1];
    MacroSetting(lets, m, user, temps, ds, ts);
    ReadMeans(Update(m, Bindings(d.formals, ts)), user, temps, ds[..|ds| - 1], d.names, EnvOf(lets, ds),
              Zip(d.params, EvalAll(m, ts)), d.body);
    MacroResult(lets, m, user, temps, ds, ts);
  }

  /** A call of a defined function. */
  lemma {:induction false} CallMeaning<V>(lets: LetMode, m: Interp<V>, ds: seq<Definition>, names: map<string, Global>,
                                          locals: map<string, V>,
                                          f: string, args: seq<Expr>, vs: seq<V>, k: nat)
    requires MeaningAll(lets, m, ds, names, locals, args) == Some(vs) && NameValue(lets, m, ds, names, locals, f).None?
    requires Latest(ds, f) == Some(k) && args != [] && |ds[k].params| == |args|
    ensures Meaning(lets, m, ds, names, locals, Call(f, args))
         == Meaning(lets, m, ds[..k], ds[k].names, Zip(ds[k].params, vs), ds[k].body)
  {
  }

  /** Where the body of the last definition is evaluated when it is applied to terms: the temporaries have
      the values of the terms, and so have the parameters. */
  lemma {:induction false} MacroSetting<V>(lets: LetMode, m: Interp<V>, user: set<Term>, temps: set<Term>,
                                           ds: seq<Definition>,
                                           ts: seq<Term>)
    requires Defined(lets, user, temps, ds) && ds != [] && |ts| == |ds[|ds| - 1].formals|
    ensures var d, env, after := ds[|ds| - 1], EnvOf(lets, ds), Update(m, Bindings(ds[|ds| - 1].formals, ts));
      && |d.params| == |ts| && LocalsMean(after, env.locals, Zip(d.params, EvalAll(m, ts)))
      && GoodEnv(user, temps, ds[..|ds| - 1], env, user + temps) && env.globals == d.globals
      && Read(env, d.body) == Some(d.term)
      && Eval(m, Substituted(Bindings(d.formals, ts), d.term)) == Eval(after, d.term)
      && SameBut(m, after, SetOf(d.formals)) && SetOf(d.formals) <= temps
      && forall v :: v in SetOf(d.formals) ==> v.Symbol?
  {
    var d, earlier, env' := ds[|ds| - 1], ds[..|ds| - 1], EnvOf(lets, ds);
    DefinitionEnv(lets, user, temps, ds);
    ReadClean(user, temps, earlier, env', d.body, user + SetOf(d.formals));
    ExpansionMeans(m, d.formals, ts, d.term, user + SetOf(d.formals));
    ZipValues(Update(m, Bindings(d.formals, ts)), d.params, d.formals, EvalAll(m, ts));
    GoodEnvMore(user, temps, earlier, env', user + SetOf(d.formals), user + temps);
  }

  /** What the body means there is what the expanded term is worth. */
  lemma {:induction false} MacroResult<V>(lets: LetMode, m: Interp<V>, user: set<Term>, temps: set<Term>,
                                          ds: seq<Definition>,
                                          ts: seq<Term>)
    requires Defined(lets, user, temps, ds) && ds != [] && |ts| == |ds[|ds| - 1].formals| && temps !! user
    requires var d, after := ds[|ds| - 1], Update(m, Bindings(ds[|ds| - 1].formals, ts));
      && |d.params| == |ts|
      && Meaning(lets, after, ds[..|ds| - 1], d.names, Zip(d.params, EvalAll(m, ts)), d.body)
        == Some(Eval(after, d.term))
    ensures var d := ds[|ds| - 1];
      Meaning(lets, m, ds[..|ds| - 1], d.names, Zip(d.params, EvalAll(m, ts)), d.body)
        == Some(Eval(m, Substituted(Bindings(d.formals, ts), d.term)))
  {
    var d, after := ds[|ds| - 1], Update(m, Bindings(ds[|ds| - 1].formals, ts));
    MacroSetting(lets, m, user, temps, ds, ts);
    MeaningSame(lets, m, after, user, temps, SetOf(d.formals), ds[..|ds| - 1], d.names, Zip(d.params, EvalAll(m, ts)),
      d.body);
  }

  lemma {:induction false} ApplyMeans<V>(m: Interp<V>, f: Term, ts: seq<Term>)
    ensures Eval(m, App(Op(Apply, []), [f] + ts)) == m.apply(Op(Apply, []), [Eval(m, f)] + EvalAll(m, ts))
  {
    EvalApp(m, Op(Apply, []), [f] + ts);
    assert EvalAll(m, [f] + ts) == [Eval(m, f)] + EvalAll(m, ts);
  }

  lemma GoodEnvMore(user: set<Term>, temps: set<Term>, ds: seq<Definition>, env: Env, syms: set<Term>, syms': set<Term>)
    requires GoodEnv(user, temps, ds, env, syms) && syms <= syms'
    ensures GoodEnv(user, temps, ds, env, syms')
  {
    forall x | x in env.locals
      ensures Clean(env.locals[x], syms')
    {
      CleanMore(env.locals[x], syms, syms');
    }
  }

  lemma {:induction false} ReadAllMeans<V>(m: Interp<V>, user: set<Term>, temps: set<Term>, ds: seq<Definition>,
                                           names: map<string, Global>, env: Env, locals: map<string, V>, es: seq<Expr>)
    requires InForce(user, temps, ds, names, env)
    requires LocalsMean(m, env.locals, locals) && ReadAll(env, es).Some?
    ensures MeaningAll(env.lets, m, ds, names, locals, es) == Some(EvalAll(m, ReadAll(env, es).value))
    decreases |ds|, 1, es, 0
  {
    if es != [] {
      var n := |es| - 1;
      ReadAllMeans(m, user, temps, ds, names, env, locals, es[..n]);
      ReadMeans(m, user, temps, ds, names, env, locals, es[n]);
      var front, last := ReadAll(env, es[..n]).value, Read(env, es[n]).value;
      assert EvalAll(m, front + [last]) == EvalAll(m, front) + [Eval(m, last)];
    }
  }

  lemma {:induction false} ReadLetMeans<V>(m: Interp<V>, user: set<Term>, temps: set<Term>, ds: seq<Definition>,
                                           names: map<string, Global>, env: Env, locals: map<string, V>, e: Expr,
                                           i: nat)
    requires InForce(user, temps, ds, names, env) && e.Let? && i <= |e.binds|
    requires LocalsMean(m, env.locals, locals) && ReadLet(env, e, i).Some?
    ensures MeaningLet(env.lets, m, ds, names, locals, e, i) == Some(Eval(m, ReadLet(env, e, i).value))
    decreases |ds|, 1, e, 0, |e.binds| - i
  {
    if i == |e.binds| {
      ReadMeans(m, user, temps, ds, names, env, locals, e.body);
    } else {
      var b := e.binds[i];
      ReadMeans(m, user, temps, ds, names, env, locals, b.bound);
      ReadClean(user, temps, ds, env, b.bound, user + temps);
      var t := Read(env, b.bound).value;
      ReadLetMeans(m, user, temps, ds, names, Bound(env, b.x, t).value, locals[b.x := Eval(m, t)], e, i + 1);
    }
  }

  lemma {:induction false} ReadParallelLetMeans<V>(m: Interp<V>, user: set<Term>, temps: set<Term>, ds: seq<Definition>,
                                                   names: map<string, Global>, outer: Env, inner: Env,
                                                   l: map<string, V>, l': map<string, V>, e: Expr, i: nat)
    requires InForce(user, temps, ds, names, outer) && InForce(user, temps, ds, names, inner)
    requires outer.lets == inner.lets && outer.globals == inner.globals && e.Let? && i <= |e.binds|
    requires LocalsMean(m, outer.locals, l) && LocalsMean(m, inner.locals, l')
      && ReadParallelLet(outer, inner, e, i).Some?
    ensures MeaningParallelLet(outer.lets, m, ds, names, l, l', e, i)
      == Some(Eval(m, ReadParallelLet(outer, inner, e, i).value))
    decreases |ds|, 1, e, 0, |e.binds| - i
  {
    if i == |e.binds| {
      ReadMeans(m, user, temps, ds, names, inner, l', e.body);
    } else {
      var b := e.binds[i];
      ReadMeans(m, user, temps, ds, names, outer, l, b.bound);
      ReadClean(user, temps, ds, outer, b.bound, user + temps);
      var t := Read(outer, b.bound).value;
      ReadParallelLetMeans(m, user, temps, ds, names, outer, inner.(locals := inner.locals[b.x := t]), l,
        l'[b.x := Eval(m, t)], e, i + 1);
    }
  }

  /** What cannot be read has no meaning. */
  lemma {:induction false} ReadFails<V>(m: Interp<V>, user: set<Term>, temps: set<Term>, ds: seq<Definition>,
                                        names: map<string, Global>, env: Env, locals: map<string, V>, e: Expr)
    requires InForce(user, temps, ds, names, env)
    requires LocalsMean(m, env.locals, locals) && Read(env, e).None?
    ensures Meaning(env.lets, m, ds, names, locals, e).None?
    decreases e, 1
  {
    match e
    case Name(x) => LookupMeans(m, user, temps, ds, names, env, locals, x);
    case Operator(op, args) => ReadAllFails(m, user, temps, ds, names, env, locals, args);
    case Call(f, args) =>
      if ReadAll(env, args).None? {
        ReadAllFails(m, user, temps, ds, names, env, locals, args);
      } else {
        ReadAllMeans(m, user, temps, ds, names, env, locals, args);
        LookupMeans(m, user, temps, ds, names, env, locals, f);
        CallFails(env.lets, user, temps, ds, f, ReadAll(env, args).value);
      }
    case Let(_, _) =>
      match env.lets {
        case InOrder => ReadLetFails(m, user, temps, ds, names, env, locals, e, 0);
        case InParallel => ReadParallelLetFails(m, user, temps, ds, names, env, env, locals, locals, e, 0);
      }
    case _ =>
  }

  lemma {:induction false} CallFails(lets: LetMode, user: set<Term>, temps: set<Term>, ds: seq<Definition>, f: string,
                                     ts: seq<Term>)
    requires Defined(lets, user, temps, ds) && Expanded(MacrosOf(ds), f, ts).None?
    ensures ts == [] || Latest(ds, f).None? || |ds[Latest(ds, f).value].params| != |ts|
  {
    DefinedAt(lets, user, temps, ds, f);
    if Latest(ds, f).Some? {
      var k := Latest(ds, f).value;
      assert ds[..k + 1][k] == ds[k];
    }
  }

  lemma {:induction false} ReadAllFails<V>(m: Interp<V>, user: set<Term>, temps: set<Term>, ds: seq<Definition>,
                                           names: map<string, Global>, env: Env, locals: map<string, V>, es: seq<Expr>)
    requires InForce(user, temps, ds, names, env)
    requires LocalsMean(m, env.locals, locals) && ReadAll(env, es).None?
    ensures MeaningAll(env.lets, m, ds, names, locals, es).None?
    decreases es, 0
  {
    var n := |es| - 1;
    if ReadAll(env, es[..n]).None? {
      ReadAllFails(m, user, temps, ds, names, env, locals, es[..n]);
    } else {
      ReadFails(m, user, temps, ds, names, env, locals, es[n]);
    }
  }

  lemma {:induction false} ReadLetFails<V>(m: Interp<V>, user: set<Term>, temps: set<Term>, ds: seq<Definition>,
                                           names: map<string, Global>, env: Env, locals: map<string, V>, e: Expr,
                                           i: nat)
    requires InForce(user, temps, ds, names, env) && e.Let? && i <= |e.binds|
    requires LocalsMean(m, env.locals, locals) && ReadLet(env, e, i).None?
    ensures MeaningLet(env.lets, m, ds, names, locals, e, i).None?
    decreases e, 0, |e.binds| - i
  {
    if i == |e.binds| {
      ReadFails(m, user, temps, ds, names, env, locals, e.body);
    } else {
      var b := e.binds[i];
      if Read(env, b.bound).None? {
        ReadFails(m, user, temps, ds, names, env, locals, b.bound);
      } else if b.x !in env.locals {
        ReadMeans(m, user, temps, ds, names, env, locals, b.bound);
        ReadClean(user, temps, ds, env, b.bound, user + temps);
        var t := Read(env, b.bound).value;
        ReadLetFails(m, user, temps, ds, names, Bound(env, b.x, t).value, locals[b.x := Eval(m, t)], e, i + 1);
      }
    }
  }

  lemma {:induction false} ReadParallelLetFails<V>(m: Interp<V>, user: set<Term>, temps: set<Term>, ds: seq<Definition>,
                                                   names: map<string, Global>, outer: Env, inner: Env,
                                                   l: map<string, V>, l': map<string, V>, e: Expr, i: nat)
    requires InForce(user, temps, ds, names, outer) && InForce(user, temps, ds, names, inner)
    requires outer.lets == inner.lets && outer.globals == inner.globals && e.Let? && i <= |e.binds|
    requires LocalsMean(m, outer.locals, l) && LocalsMean(m, inner.locals, l')
      && ReadParallelLet(outer, inner, e, i).None?
    ensures MeaningParallelLet(outer.lets, m, ds, names, l, l', e, i).None?
    decreases e, 0, |e.binds| - i
  {
    if i == |e.binds| {
      ReadFails(m, user, temps, ds, names, inner, l', e.body);
    } else {
      var b := e.binds[i];
      if Read(outer, b.bound).None? {
        ReadFails(m, user, temps, ds, names, outer, l, b.bound);
      } else if !Repeated(e.binds, i) {
        ReadMeans(m, user, temps, ds, names, outer, l, b.bound);
        ReadClean(user, temps, ds, outer, b.bound, user + temps);
        var t := Read(outer, b.bound).value;
        ReadParallelLetFails(m, user, temps, ds, names, outer, inner.(locals := inner.locals[b.x := t]), l,
          l'[b.x := Eval(m, t)], e, i + 1);
      }
    }
  }
}
