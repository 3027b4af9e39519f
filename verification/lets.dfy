/** Let. SMT-LIB takes the bindings of a let in parallel (section 3.6.1 of the SMT-LIB 2.6 standard); the reader takes
    them one after the other (src/smtlibparser.yy:483-489). This says exactly when the two agree. */
module Lets {
  import opened Terms
  import opened Sorts
  import opened Substitution
  import opened Macros

  /** The same names, with lets taken as the standard has it. */
  function Parallel(env: Env): Env {
    env.(lets := InParallel)
  }

  // ----- lets whose bindings are independent -----

  /** Every name that is used or bound in an expression. */
  ghost function Mentions(e: Expr): set<string> {
    match e
    case Name(x) => {x}
    case Constant(_, _) => {}
    case Operator(_, args) => set a, n | a in args && n in Mentions(a) :: n
    case Call(f, args) => {f} + (set a, n | a in args && n in Mentions(a) :: n)
    case Let(binds, body) =>
      (set b | b in binds :: b.x) + (set b, n | b in binds && n in Mentions(b.bound) :: n) + Mentions(body)
  }

  /** Two scopes of the reader that differ in local names only, and not in the given ones. */
  ghost predicate AgreeOnNames(env: Env, env': Env, names: set<string>) {
    && env.lets == env'.lets == InOrder && env.globals == env'.globals && env.macros == env'.macros
    && (forall x :: x in names ==>
      (x in env.locals <==> x in env'.locals) && (x in env.locals ==> env.locals[x] == env'.locals[x]))
  }

  /** What is read depends on the local names that are mentioned only. */
  lemma {:induction false} ReadLocal(env: Env, env': Env, e: Expr)
    requires AgreeOnNames(env, env', Mentions(e))
    ensures Read(env, e) == Read(env', e)
    decreases e, 1
  {
    match e
    case Operator(op, args) => ReadAllLocal(env, env', args);
    case Call(f, args) => ReadAllLocal(env, env', args);
    case Let(_, _) => ReadLetLocal(env, env', e, 0);
    case _ =>
  }

  lemma {:induction false} ReadAllLocal(env: Env, env': Env, es: seq<Expr>)
    requires forall e :: e in es ==> AgreeOnNames(env, env', Mentions(e))
    ensures ReadAll(env, es) == ReadAll(env', es)
    decreases es, 0
  {
    if es != [] {
      ReadAllLocal(env, env', es[..|es| - 1]);
      ReadLocal(env, env', es[|es| - 1]);
    }
  }

  lemma {:induction false} ReadLetLocal(env: Env, env': Env, e: Expr, i: nat)
    requires e.Let? && i <= |e.binds| && AgreeOnNames(env, env', Mentions(e))
    ensures ReadLet(env, e, i) == ReadLet(env', e, i)
    decreases e, 0, |e.binds| - i
  {
    if i == |e.binds| {
      ReadLocal(env, env', e.body);
    } else {
      var b := e.binds[i];
      assert b in e.binds && Mentions(b.bound) <= Mentions(e) && b.x in Mentions(e);
      ReadLocal(env, env', b.bound);
      var t := Read(env, b.bound);
      if t.Some? && b.x !in env.locals {
        ReadLetLocal(Bound(env, b.x, t.value).value, Bound(env', b.x, t.value).value, e, i + 1);
      }
    }
  }

  /** No binding mentions a name that is bound before it in the same let. */
  ghost predicate Independent(e: Expr)
    requires e.Let?
  {
    forall j, i :: 0 <= j < i < |e.binds| ==> e.binds[j].x !in Mentions(e.binds[i].bound)
  }

  /** All lets are independent. */
  ghost predicate AllIndependent(e: Expr) {
    match e
    case Name(_) => true
    case Constant(_, _) => true
    case Operator(_, args) => forall a :: a in args ==> AllIndependent(a)
    case Call(_, args) => forall a :: a in args ==> AllIndependent(a)
    case Let(binds, body) =>
      Independent(e) && (forall b :: b in binds ==> AllIndependent(b.bound)) && AllIndependent(body)
  }

  /** A text is then read as the standard has it. */
  lemma {:induction false} IndependentReading(env: Env, e: Expr)
    requires env.lets == InOrder && AllIndependent(e) && Read(env, e).Some?
    ensures Read(Parallel(env), e) == Read(env, e)
    decreases e, 1
  {
    match e
    case Operator(op, args) => IndependentReadingAll(env, args);
    case Call(f, args) => IndependentReadingAll(env, args);
    case Let(_, _) => IndependentLet(env, env, e, 0);
    case _ =>
  }

  lemma {:induction false} IndependentReadingAll(env: Env, es: seq<Expr>)
    requires env.lets == InOrder && (forall e :: e in es ==> AllIndependent(e)) && ReadAll(env, es).Some?
    ensures ReadAll(Parallel(env), es) == ReadAll(env, es)
    decreases es, 0
  {
    if es != [] {
      IndependentReadingAll(env, es[..|es| - 1]);
      IndependentReading(env, es[|es| - 1]);
    }
  }

  lemma {:induction false} IndependentLet(outer: Env, inner: Env, e: Expr, i: nat)
    requires e.Let? && i <= |e.binds| && AllIndependent(e) && inner.lets == InOrder
    requires forall j :: i <= j < |e.binds| ==> AgreeOnNames(inner, outer, Mentions(e.binds[j].bound))
    requires forall j :: 0 <= j < i ==> e.binds[j].x in inner.locals
    requires ReadLet(inner, e, i).Some?
    ensures ReadParallelLet(Parallel(outer), Parallel(inner), e, i) == ReadLet(inner, e, i)
    decreases e, 0, |e.binds| - i
  {
    if i == |e.binds| {
      IndependentReading(inner, e.body);
    } else {
      var b := e.binds[i];
      assert b in e.binds;
      ReadLocal(inner, outer, b.bound);
      IndependentReading(outer, b.bound);
      IndependentLet(outer, Bound(inner, b.x, Read(inner, b.bound).value).value, e, i + 1);
    }
  }

  ghost predicate BodiesIndependent(ds: seq<Definition>) {
    forall d :: d in ds ==> AllIndependent(d.body)
  }

  lemma {:induction false} IndependentDefined(user: set<Term>, temps: set<Term>, ds: seq<Definition>)
    requires Defined(InOrder, user, temps, ds) && BodiesIndependent(ds)
    ensures Defined(InParallel, user, temps, ds)
  {
    if ds != [] {
      IndependentDefined(user, temps, ds[..|ds| - 1]);
      assert ds[|ds| - 1] in ds;
      IndependentReading(EnvOf(InOrder, ds), ds[|ds| - 1].body);
    }
  }

  /** The term that is read for a text whose lets are independent, also those in the bodies of all definitions, has
      the value that the standard gives to the text. */
  lemma {:induction false} IndependentMeans<V>(m: Interp<V>, user: set<Term>, temps: set<Term>, ds: seq<Definition>,
                                               names: map<string, Global>, env: Env, locals: map<string, V>, e: Expr)
    requires InForce(user, temps, ds, names, env) && env.lets == InOrder && BodiesIndependent(ds)
    requires LocalsMean(m, env.locals, locals) && Read(env, e).Some? && AllIndependent(e)
    ensures Meaning(InParallel, m, ds, names, locals, e) == Some(Eval(m, Read(env, e).value))
  {
    IndependentDefined(user, temps, ds);
    IndependentReading(env, e);
    ReadMeans(m, user, temps, ds, names, Parallel(env), locals, e);
  }

  // ----- exactly when a text is read as the standard has it -----

  /** The scope of the reader and that of the standard, with the same defined functions. */
  ghost predicate Sides(env: Env, env': Env) {
    env.lets == InOrder && env'.lets == InParallel && env.macros == env'.macros
  }

  /** A symbol occurs in a term where it can be replaced. */
  ghost predicate Occurs(v: Term, t: Term) {
    match t
    case App(_, cs) => exists c :: c in cs && Occurs(v, c)
    case _ => t == v
  }

  /** Two substitutions for the same symbols have the same result exactly when they agree on what occurs. */
  lemma {:induction false} SubstitutedExactly(sub: Subst, sub': Subst, t: Term)
    requires sub.Keys == sub'.Keys && SymbolKeys(sub)
    ensures Substituted(sub, t) == Substituted(sub', t) <==> forall k :: k in sub && Occurs(k, t) ==> sub[k] == sub'[k]
  {
    if t !in sub && t.App? {
      var cs := t.children;
      forall i | 0 <= i < |cs|
        ensures Substituted(sub, cs[i]) == Substituted(sub', cs[i]) <==>
          forall k :: k in sub && Occurs(k, cs[i]) ==> sub[k] == sub'[k]
      {
        SubstitutedExactly(sub, sub', cs[i]);
      }
      var l, r := Substituted(sub, t).children, Substituted(sub', t).children;
      assert l == r <==> forall i :: 0 <= i < |cs| ==> l[i] == r[i];
      if k :| k in sub && Occurs(k, t) && sub[k] != sub'[k] {
        var c :| c in cs && Occurs(k, c);
        var i :| 0 <= i < |cs| && cs[i] == c;
        assert l[i] != r[i];
      } else {
        forall i | 0 <= i < |cs|
          ensures l[i] == r[i]
        {
          assert cs[i] in cs;
        }
      }
    }
  }

  /** The i-th parameter of a defined function is used. */
  ghost predicate Needed(macros: map<string, Macro>, f: string, i: nat) {
    f in macros && i < |macros[f].formals| && Occurs(macros[f].formals[i], macros[f].body)
  }

  ghost predicate DifferentFormals(macros: map<string, Macro>) {
    forall f :: f in macros ==> AllDifferent(macros[f].formals) && forall v :: v in macros[f].formals ==> v.Symbol?
  }

  /** Different formals bound to two lists of arguments agree on what occurs exactly when the arguments do. */
  lemma BindingsExactly(formals: seq<Term>, ts: seq<Term>, ts': seq<Term>, body: Term)
    requires |formals| == |ts| == |ts'| && AllDifferent(formals)
    ensures var sub, sub' := Bindings(formals, ts), Bindings(formals, ts');
      && sub.Keys == sub'.Keys == SetOf(formals)
      && ((forall k :: k in sub && Occurs(k, body) ==> sub[k] == sub'[k])
          <==> forall i :: 0 <= i < |ts| && Occurs(formals[i], body) ==> ts[i] == ts'[i])
  {
    var sub, sub' := Bindings(formals, ts), Bindings(formals, ts');
    BindingsOf(formals, ts);
    BindingsOf(formals, ts');
    forall i | 0 <= i < |formals|
      ensures formals[i] in sub && sub[formals[i]] == ts[i] && sub'[formals[i]] == ts'[i]
    {
      BindingsAt(formals, ts, i);
      BindingsAt(formals, ts', i);
    }
  }

  /** Two calls are expanded to the same term exactly when they agree on the arguments that are used. */
  lemma ExpandedExactly(macros: map<string, Macro>, f: string, ts: seq<Term>, ts': seq<Term>)
    requires DifferentFormals(macros) && Expanded(macros, f, ts).Some? && |ts'| == |ts|
    ensures Expanded(macros, f, ts) == Expanded(macros, f, ts')
       <==> forall i :: 0 <= i < |ts| && Needed(macros, f, i) ==> ts[i] == ts'[i]
  {
    var formals, body := macros[f].formals, macros[f].body;
    BindingsExactly(formals, ts, ts', body);
    SubstitutedExactly(Bindings(formals, ts), Bindings(formals, ts'), body);
  }

  function SubstitutedAll(sub: Subst, ts: seq<Term>): (r: seq<Term>)
    ensures |r| == |ts| && forall i :: 0 <= i < |ts| ==> r[i] == Substituted(sub, ts[i])
  {
    seq(|ts|, i requires 0 <= i < |ts| => Substituted(sub, ts[i]))
  }

  /** An expansion is the application of a term to terms: its body is a parameter that becomes this application, or
      is itself the application of something that becomes the one to arguments that become the others. */
  ghost predicate Shaped(sub: Subst, body: Term, f: Term, ts: seq<Term>) {
    if body in sub then sub[body] == App(Op(Apply, []), [f] + ts)
    else
      && body.App? && body.op == Op(Apply, []) && body.children != []
      && Substituted(sub, body.children[0]) == f && SubstitutedAll(sub, body.children[1..]) == ts
  }

  lemma {:induction false} ShapedExactly(sub: Subst, body: Term, f: Term, ts: seq<Term>)
    ensures Substituted(sub, body) == App(Op(Apply, []), [f] + ts) <==> Shaped(sub, body, f, ts)
  {
    if body !in sub && body.App? {
      assert Substituted(sub, body) == App(body.op, SubstitutedAll(sub, body.children));
      if body.children != [] {
        var head, tail := Substituted(sub, body.children[0]), SubstitutedAll(sub, body.children[1..]);
        assert SubstitutedAll(sub, body.children) == [head] + tail;
        ApplyExactly(head, tail, f, ts);
      }
    }
  }

  /** The reader applies a name of its own scope, which is bound by a let, where the standard has a defined function. */
  ghost predicate AppliedAlike(env: Env, env': Env, f: string, args: seq<Expr>) {
    var fun, ts, ts' := Lookup(env, f), ReadAll(env, args), ReadAll(env', args);
    && fun.Some? && ts.Some? && ts'.Some? && f in env.macros && |env.macros[f].formals| == |args|
    && Shaped(Bindings(env.macros[f].formals, ts'.value), env.macros[f].body, fun.value, ts.value)
  }

  /** Which names are bound by a let on both sides, and whether to the same term. */
  type Shared = map<string, bool>

  /** A name stands for the same term on both sides. One that is bound by a let on both does so when its bindings
      agree; any other one, when it stands outside for the term that the reader takes it for. */
  ghost predicate SameName(env: Env, env': Env, shared: Shared, x: string) {
    x == "true" || x == "false" || if x in shared then shared[x] else Lookup(env, x) == Lookup(env', x)
  }

  /** Every name that reaches the term stands for the same term in the scopes of the reader and of the standard.
      Arguments of parameters that are not used do not reach it. */
  ghost predicate Agree(env: Env, env': Env, shared: Shared, e: Expr)
    decreases e, 1
  {
    match e
    case Name(x) => SameName(env, env', shared, x)
    case Constant(_, _) => true
    case Operator(_, args) => forall i :: 0 <= i < |args| ==> Agree(env, env', shared, args[i])
    case Call(f, args) =>
      if Lookup(env, f).None? then
        forall i :: 0 <= i < |args| && Needed(env.macros, f, i) ==> Agree(env, env', shared, args[i])
      else if Lookup(env', f).Some? then
        SameName(env, env', shared, f) && forall i :: 0 <= i < |args| ==> Agree(env, env', shared, args[i])
      else AppliedAlike(env, env', f, args)
    case Let(_, _) => AgreeLet(env, env', env', shared, shared, e, 0)
  }

  /** The bindings from the i-th one on are bound one after the other on the one side and in parallel on the other. */
  ghost predicate AgreeLet(env: Env, outer: Env, inner: Env, shared: Shared, shared': Shared, e: Expr, i: nat)
    requires e.Let? && i <= |e.binds|
    decreases e, 0, |e.binds| - i
  {
    if i == |e.binds| then Agree(env, inner, shared', e.body)
    else
      var x, t, t' := e.binds[i].x, Read(env, e.binds[i].bound), Read(outer, e.binds[i].bound);
      && t.Some? && t'.Some?
      && AgreeLet(env.(locals := env.locals[x := t.value]), outer, inner.(locals := inner.locals[x := t'.value]),
                  shared, shared'[x := Agree(env, outer, shared, e.binds[i].bound)], e, i + 1)
  }

  /** What is known of the names that are bound by lets on both sides. */
  ghost predicate SharedRight(env: Env, env': Env, shared: Shared) {
    && (forall x :: x in shared ==> x in env.locals && x in env'.locals)
    && forall x :: x in shared ==> (shared[x] <==> env.locals[x] == env'.locals[x])
  }

  lemma {:induction false} ReadAllAt(env: Env, es: seq<Expr>)
    requires ReadAll(env, es).Some?
    ensures forall i :: 0 <= i < |es| ==> Read(env, es[i]) == Some(ReadAll(env, es).value[i])
  {
    if es != [] {
      ReadAllAt(env, es[..|es| - 1]);
    }
  }

  lemma {:induction false} ReadAllSome(env: Env, es: seq<Expr>)
    ensures ReadAll(env, es).Some? <==> forall i :: 0 <= i < |es| ==> Read(env, es[i]).Some?
  {
    if es != [] {
      ReadAllSome(env, es[..|es| - 1]);
    }
  }

  lemma NameExactly(env: Env, env': Env, shared: Shared, x: string)
    requires SharedRight(env, env', shared)
    ensures Lookup(env, x) == Lookup(env', x) <==> SameName(env, env', shared, x)
  {
  }

  /** A text is read as the standard has it exactly when the names that reach the term agree. */
  lemma {:induction false} ReadExactlyWhen(env: Env, env': Env, shared: Shared, e: Expr)
    requires Sides(env, env') && DifferentFormals(env.macros) && Sees(env, env') && SharedRight(env, env', shared)
    requires Read(env, e).Some? && Read(env', e).Some?
    ensures Read(env, e) == Read(env', e) <==> Agree(env, env', shared, e)
    decreases e, 1
  {
    match e
    case Name(x) => NameExactly(env, env', shared, x);
    case Operator(op, args) =>
      ArgumentsExactly(env, env', shared, e);
      SameTerms(ReadAll(env, args).value, ReadAll(env', args).value);
    case Call(f, args) =>
      ArgumentsExactly(env, env', shared, e);
      CallExactly(env, env', shared, f, args);
    case Let(_, _) => LetExactly(env, env', env', shared, shared, e, 0);
    case _ =>
  }

  /** A call, when the condition decides for each argument whether it is read the same. */
  lemma {:induction false} CallExactly(env: Env, env': Env, shared: Shared, f: string, args: seq<Expr>)
    requires Sides(env, env') && DifferentFormals(env.macros) && Sees(env, env') && SharedRight(env, env', shared)
    requires Read(env, Call(f, args)).Some? && Read(env', Call(f, args)).Some?
    requires forall i :: 0 <= i < |args| ==>
      (ReadAll(env, args).value[i] == ReadAll(env', args).value[i] <==> Agree(env, env', shared, args[i]))
    ensures Read(env, Call(f, args)) == Read(env', Call(f, args)) <==> Agree(env, env', shared, Call(f, args))
  {
    var ts, ts' := ReadAll(env, args).value, ReadAll(env', args).value;
    if Lookup(env, f).None? {
      ExpandedExactly(env.macros, f, ts, ts');
    } else if Lookup(env', f).Some? {
      ApplyExactly(Lookup(env, f).value, ts, Lookup(env', f).value, ts');
      SameTerms(ts, ts');
      NameExactly(env, env', shared, f);
    } else {
      ShapedExactly(Bindings(env.macros[f].formals, ts'), env.macros[f].body, Lookup(env, f).value, ts);
    }
  }

  lemma SameTerms(ts: seq<Term>, ts': seq<Term>)
    requires |ts| == |ts'|
    ensures ts == ts' <==> forall i :: 0 <= i < |ts| ==> ts[i] == ts'[i]
  {
  }

  lemma ApplyExactly(f: Term, ts: seq<Term>, f': Term, ts': seq<Term>)
    ensures App(Op(Apply, []), [f] + ts) == App(Op(Apply, []), [f'] + ts') <==> f == f' && ts == ts'
  {
    if [f] + ts == [f'] + ts' {
      assert ([f] + ts)[0] == f && ([f'] + ts')[0] == f';
      assert ([f] + ts)[1..] == ts && ([f'] + ts')[1..] == ts';
    }
  }

  lemma {:induction false} ArgumentsExactly(env: Env, env': Env, shared: Shared, e: Expr)
    requires Sides(env, env') && DifferentFormals(env.macros) && Sees(env, env') && SharedRight(env, env', shared)
    requires (e.Operator? || e.Call?) && ReadAll(env, e.args).Some? && ReadAll(env', e.args).Some?
    ensures forall i :: 0 <= i < |e.args| ==>
      (ReadAll(env, e.args).value[i] == ReadAll(env', e.args).value[i] <==> Agree(env, env', shared, e.args[i]))
    decreases e, 0
  {
    ReadAllAt(env, e.args);
    ReadAllAt(env', e.args);
    forall i | 0 <= i < |e.args|
      ensures ReadAll(env, e.args).value[i] == ReadAll(env', e.args).value[i] <==> Agree(env, env', shared, e.args[i])
    {
      ReadExactlyWhen(env, env', shared, e.args[i]);
    }
  }

  lemma {:induction false} LetExactly(env: Env, outer: Env, inner: Env, shared: Shared, shared': Shared, e: Expr,
                                      i: nat)
    requires Sides(env, outer) && Sides(env, inner) && DifferentFormals(env.macros)
    requires Sees(env, outer) && Sees(env, inner) && SharedRight(env, outer, shared) && SharedRight(env, inner, shared')
    requires e.Let? && i <= |e.binds| && ReadLet(env, e, i).Some? && ReadParallelLet(outer, inner, e, i).Some?
    ensures ReadLet(env, e, i) == ReadParallelLet(outer, inner, e, i) <==>
      AgreeLet(env, outer, inner, shared, shared', e, i)
    decreases e, 0, |e.binds| - i
  {
    if i == |e.binds| {
      ReadExactlyWhen(env, inner, shared', e.body);
    } else {
      var b := e.binds[i];
      var t, t' := Read(env, b.bound).value, Read(outer, b.bound).value;
      ReadExactlyWhen(env, outer, shared, b.bound);
      SeesMore(env, inner, b.x, t, t');
      SeesMore(env, outer, b.x, t, t');
      LetExactly(Bound(env, b.x, t).value, outer, inner.(locals := inner.locals[b.x := t']),
                 shared, shared'[b.x := Agree(env, outer, shared, b.bound)], e, i + 1);
    }
  }

  // ----- which texts are accepted -----

  /** No let binds a name again that is bound locally. */
  ghost predicate NoShadow(bound: set<string>, e: Expr)
    decreases e, 1
  {
    match e
    case Name(_) => true
    case Constant(_, _) => true
    case Operator(_, args) => forall i :: 0 <= i < |args| ==> NoShadow(bound, args[i])
    case Call(_, args) => forall i :: 0 <= i < |args| ==> NoShadow(bound, args[i])
    case Let(_, _) => NoShadowLet(bound, e, 0)
  }

  ghost predicate NoShadowLet(bound: set<string>, e: Expr, i: nat)
    requires e.Let? && i <= |e.binds|
    decreases e, 0, |e.binds| - i
  {
    if i == |e.binds| then NoShadow(bound, e.body)
    else
      && e.binds[i].x !in bound && NoShadow(bound, e.binds[i].bound)
      && NoShadowLet(bound + {e.binds[i].x}, e, i + 1)
  }

  /** Every name that is visible in the one scope is visible in the other. */
  ghost predicate Sees(env: Env, env': Env) {
    forall x :: Lookup(env', x).Some? ==> Lookup(env, x).Some?
  }

  lemma SeesMore(env: Env, env': Env, x: string, t: Term, t': Term)
    requires Sees(env, env')
    ensures Sees(env.(locals := env.locals[x := t]), env')
    ensures Sees(env.(locals := env.locals[x := t]), env'.(locals := env'.locals[x := t']))
  {
    var more, more' := env.(locals := env.locals[x := t]), env'.(locals := env'.locals[x := t']);
    forall y | Lookup(env', y).Some? || Lookup(more', y).Some?
      ensures Lookup(more, y).Some?
    {
      assert y != x ==> Lookup(more, y) == Lookup(env, y) && Lookup(more', y) == Lookup(env', y);
    }
  }

  /** A text that the standard allows is refused by the reader exactly when it binds a local name again. */
  lemma {:induction false} AcceptedExactlyWhen(env: Env, env': Env, e: Expr)
    requires Sides(env, env') && Sees(env, env') && Read(env', e).Some?
    ensures Read(env, e).Some? <==> NoShadow(env.locals.Keys, e)
    decreases e, 2
  {
    match e
    case Operator(_, args) => AllAccepted(env, env', e);
    case Call(_, args) => AllAccepted(env, env', e);
    case Let(_, _) => LetAccepted(env, env', env', e, 0);
    case _ =>
  }

  lemma {:induction false} AllAccepted(env: Env, env': Env, e: Expr)
    requires Sides(env, env') && Sees(env, env') && (e.Operator? || e.Call?) && ReadAll(env', e.args).Some?
    ensures ReadAll(env, e.args).Some? <==> forall i :: 0 <= i < |e.args| ==> NoShadow(env.locals.Keys, e.args[i])
    decreases e, 1
  {
    ReadAllSome(env, e.args);
    ReadAllSome(env', e.args);
    forall i | 0 <= i < |e.args|
      ensures Read(env, e.args[i]).Some? <==> NoShadow(env.locals.Keys, e.args[i])
    {
      AcceptedExactlyWhen(env, env', e.args[i]);
    }
  }

  lemma {:induction false} LetAccepted(env: Env, outer: Env, inner: Env, e: Expr, i: nat)
    requires Sides(env, outer) && Sides(env, inner) && Sees(env, outer) && Sees(env, inner)
    requires e.Let? && i <= |e.binds| && ReadParallelLet(outer, inner, e, i).Some?
    ensures ReadLet(env, e, i).Some? <==> NoShadowLet(env.locals.Keys, e, i)
    decreases e, 0, |e.binds| - i
  {
    if i == |e.binds| {
      AcceptedExactlyWhen(env, inner, e.body);
    } else {
      var b := e.binds[i];
      AcceptedExactlyWhen(env, outer, b.bound);
      var t, t' := Read(env, b.bound), Read(outer, b.bound).value;
      if t.Some? && b.x !in env.locals {
        SeesMore(env, inner, b.x, t.value, t');
        SeesMore(env, outer, b.x, t.value, t');
        assert env.locals[b.x := t.value].Keys == env.locals.Keys + {b.x};
        LetAccepted(Bound(env, b.x, t.value).value, outer, inner.(locals := inner.locals[b.x := t']), e, i + 1);
      }
    }
  }

  /** Every name is visible, and every applied function is a symbol or defined, where the standard looks for it. */
  ghost predicate Closed(visible: set<string>, macros: map<string, Macro>, e: Expr)
    decreases e, 1
  {
    match e
    case Name(x) => x in visible
    case Constant(_, _) => true
    case Operator(_, args) => forall i :: 0 <= i < |args| ==> Closed(visible, macros, args[i])
    case Call(f, args) =>
      && (forall i :: 0 <= i < |args| ==> Closed(visible, macros, args[i]))
      && (f in visible || (args != [] && f in macros && |macros[f].formals| == |args|))
    case Let(_, _) => ClosedLet(visible, visible, macros, e, 0)
  }

  ghost predicate ClosedLet(outer: set<string>, inner: set<string>, macros: map<string, Macro>, e: Expr, i: nat)
    requires e.Let? && i <= |e.binds|
    decreases e, 0, |e.binds| - i
  {
    if i == |e.binds| then Closed(inner, macros, e.body)
    else Closed(outer, macros, e.binds[i].bound) && ClosedLet(outer, inner + {e.binds[i].x}, macros, e, i + 1)
  }

  ghost function Visible(env: Env): set<string> {
    {"true", "false"} + env.locals.Keys + env.globals.Keys
  }

  /** A text that the reader accepts is allowed by the standard exactly when no let needs its own names to be
      visible. */
  lemma {:induction false} AllowedExactlyWhen(env: Env, env': Env, e: Expr)
    requires Sides(env, env') && Read(env, e).Some?
    ensures Read(env', e).Some? <==> Closed(Visible(env'), env'.macros, e)
    decreases e, 2
  {
    match e
    case Operator(_, args) => AllAllowed(env, env', e);
    case Call(_, args) => AllAllowed(env, env', e);
    case Let(binds, _) =>
      LetAllowed(env, env', env', e, 0);
    case _ =>
  }

  lemma {:induction false} AllAllowed(env: Env, env': Env, e: Expr)
    requires Sides(env, env') && (e.Operator? || e.Call?) && ReadAll(env, e.args).Some?
    ensures ReadAll(env', e.args).Some? <==>
      forall i :: 0 <= i < |e.args| ==> Closed(Visible(env'), env'.macros, e.args[i])
    decreases e, 1
  {
    ReadAllSome(env, e.args);
    ReadAllSome(env', e.args);
    forall i | 0 <= i < |e.args|
      ensures Read(env', e.args[i]).Some? <==> Closed(Visible(env'), env'.macros, e.args[i])
    {
      AllowedExactlyWhen(env, env', e.args[i]);
    }
  }

  lemma {:induction false} LetAllowed(env: Env, outer: Env, inner: Env, e: Expr, i: nat)
    requires Sides(env, outer) && Sides(env, inner) && e.Let? && i <= |e.binds|
    requires ReadLet(env, e, i).Some? && forall j :: 0 <= j < i ==> e.binds[j].x in env.locals
    ensures ReadParallelLet(outer, inner, e, i).Some? <==> ClosedLet(Visible(outer), Visible(inner), inner.macros, e, i)
    decreases e, 0, |e.binds| - i
  {
    if i == |e.binds| {
      AllowedExactlyWhen(env, inner, e.body);
    } else {
      var b := e.binds[i];
      AllowedExactlyWhen(env, outer, b.bound);
      var t, t' := Read(env, b.bound).value, Read(outer, b.bound);
      if t'.Some? {
        var inner' := inner.(locals := inner.locals[b.x := t'.value]);
        assert Visible(inner') == Visible(inner) + {b.x};
        LetAllowed(Bound(env, b.x, t).value, outer, inner', e, i + 1);
      }
    }
  }

  // ----- what the value is then -----

  /** Every term is its own value; what differs here differs as a term. */
  function Herbrand(): Interp<Term> {
    Interp((t: Term) => t, (s: Sort, e: Term) => ConstArray(e, s), (op: Op, ts: seq<Term>) => App(op, ts))
  }

  lemma {:induction false} HerbrandValue(t: Term)
    ensures Eval(Herbrand(), t) == t
  {
    match t
    case App(op, cs) =>
      forall i | 0 <= i < |cs|
        ensures Eval(Herbrand(), cs[i]) == cs[i]
      {
        HerbrandValue(cs[i]);
      }
      EvalApp(Herbrand(), op, cs);
      assert EvalAll(Herbrand(), cs) == cs;
    case ConstArray(e, _) => HerbrandValue(e);
    case _ =>
  }

  /** Every name is visible outside of the lets that bind it, and the names that reach the term stand for the same
      terms there. */
  ghost predicate ReadingRight(env: Env, e: Expr) {
    Closed(Visible(env), env.macros, e) && Agree(env, Parallel(env), map[], e)
  }

  /** This holds for the body of every definition. */
  ghost predicate BodiesRight(ds: seq<Definition>) {
    ds == [] || (BodyRight(ds) && BodiesRight(ds[..|ds| - 1]))
  }

  ghost predicate BodyRight(ds: seq<Definition>)
    requires ds != []
  {
    var d := ds[|ds| - 1];
    && |d.params| == |d.formals|
    && ReadingRight(EnvOf(InOrder, ds), d.body)
  }

  lemma {:induction false} DefinedShape(lets: LetMode, user: set<Term>, temps: set<Term>, ds: seq<Definition>)
    requires Defined(lets, user, temps, ds)
    ensures DifferentFormals(MacrosOf(ds))
  {
    if ds != [] {
      DefinedShape(lets, user, temps, ds[..|ds| - 1]);
    }
  }

  /** Definitions, those without parameters included, are also in force in the sense of the standard exactly when
      this holds for their bodies. */
  lemma {:induction false} DefinedExactlyWhen(user: set<Term>, temps: set<Term>, ds: seq<Definition>)
    requires Defined(InOrder, user, temps, ds)
    ensures Defined(InParallel, user, temps, ds) <==> BodiesRight(ds)
  {
    if ds != [] {
      var front, d, env := ds[..|ds| - 1], ds[|ds| - 1], EnvOf(InOrder, ds);
      DefinedExactlyWhen(user, temps, front);
      DefinedShape(InOrder, user, temps, front);
      assert EnvOf(InParallel, ds) == Parallel(env);
      ReadingExactlyWhen(env, d.body);
    }
  }

  /** What the reader reads is what the standard has exactly then. */
  lemma {:induction false} ReadingExactlyWhen(env: Env, e: Expr)
    requires env.lets == InOrder && DifferentFormals(env.macros) && Read(env, e).Some?
    ensures Read(Parallel(env), e) == Read(env, e) <==> ReadingRight(env, e)
  {
    AllowedExactlyWhen(env, Parallel(env), e);
    if Read(Parallel(env), e).Some? {
      SeesItself(env);
      ReadExactlyWhen(env, Parallel(env), map[], e);
    }
  }

  lemma SeesItself(env: Env)
    ensures Sees(env, Parallel(env))
  {
    forall x
      ensures Lookup(Parallel(env), x) == Lookup(env, x)
    {
    }
  }

  /** What is read has the value that the standard gives to the text. */
  ghost predicate ReadRightly<V>(m: Interp<V>, ds: seq<Definition>, names: map<string, Global>, env: Env,
                                 locals: map<string, V>, e: Expr)
  {
    Read(env, e).Some? && Meaning(InParallel, m, ds, names, locals, e) == Some(Eval(m, Read(env, e).value))
  }

  /** When all definitions are read rightly, a text is too, in every interpretation, exactly under that condition:
      otherwise it is not in the one where terms are their own values. */
  lemma {:induction false} MeansExactlyWhen<V>(m: Interp<V>, user: set<Term>, temps: set<Term>, ds: seq<Definition>,
                                               names: map<string, Global>, env: Env, locals: map<string, V>, e: Expr)
    requires InForce(user, temps, ds, names, env) && env.lets == InOrder && BodiesRight(ds)
    requires LocalsMean(m, env.locals, locals) && Read(env, e).Some?
    ensures ReadingRight(env, e) ==> ReadRightly(m, ds, names, env, locals, e)
    ensures ReadingRight(env, e) <==> ReadRightly(Herbrand(), ds, names, env, env.locals, e)
  {
    DefinedShape(InOrder, user, temps, ds);
    DefinedExactlyWhen(user, temps, ds);
    ReadingExactlyWhen(env, e);
    HerbrandLocals(env.locals);
    if Read(Parallel(env), e).Some? {
      ReadMeans(m, user, temps, ds, names, Parallel(env), locals, e);
      ReadMeans(Herbrand(), user, temps, ds, names, Parallel(env), env.locals, e);
      HerbrandValue(Read(env, e).value);
      HerbrandValue(Read(Parallel(env), e).value);
    } else {
      ReadFails(Herbrand(), user, temps, ds, names, Parallel(env), env.locals, e);
    }
  }

  lemma HerbrandLocals(locals: map<string, Term>)
    ensures LocalsMean(Herbrand(), locals, locals)
  {
    forall x | x in locals
      ensures Eval(Herbrand(), locals[x]) == locals[x]
    {
      HerbrandValue(locals[x]);
    }
  }

  // ----- expressions without lets -----

  ghost predicate NoLets(e: Expr) {
    match e
    case Name(_) => true
    case Constant(_, _) => true
    case Operator(_, args) => forall a :: a in args ==> NoLets(a)
    case Call(_, args) => forall a :: a in args ==> NoLets(a)
    case Let(_, _) => false
  }

  /** The names whose terms reach what is read. */
  ghost function Used(env: Env, e: Expr): set<string> {
    match e
    case Name(x) => {x}
    case Constant(_, _) => {}
    case Operator(_, args) => set i, n | 0 <= i < |args| && n in Used(env, args[i]) :: n
    case Call(f, args) =>
      if Lookup(env, f).Some? then {f} + (set i, n | 0 <= i < |args| && n in Used(env, args[i]) :: n)
      else set i, n | 0 <= i < |args| && Needed(env.macros, f, i) && n in Used(env, args[i]) :: n
    case Let(_, _) => {}
  }

  /** The functions that are applied. */
  ghost function Calls(e: Expr): set<string> {
    match e
    case Name(_) => {}
    case Constant(_, _) => {}
    case Operator(_, args) => set i, n | 0 <= i < |args| && n in Calls(args[i]) :: n
    case Call(f, args) => {f} + (set i, n | 0 <= i < |args| && n in Calls(args[i]) :: n)
    case Let(_, _) => {}
  }

  /** The applied functions are symbols in both scopes or in none. */
  ghost predicate SameCalls(env: Env, env': Env, e: Expr) {
    forall f :: f in Calls(e) ==> (Lookup(env, f).Some? <==> Lookup(env', f).Some?)
  }

  ghost predicate SameAt(env: Env, env': Env, names: set<string>) {
    forall x :: x in names ==> Lookup(env, x) == Lookup(env', x)
  }

  lemma {:induction false} AgreeUsed(env: Env, env': Env, e: Expr)
    requires NoLets(e) && SameCalls(env, env', e)
    ensures Agree(env, env', map[], e) <==> SameAt(env, env', Used(env, e))
  {
    match e
    case Operator(_, args) =>
      forall i | 0 <= i < |args|
        ensures Agree(env, env', map[], args[i]) <==> SameAt(env, env', Used(env, args[i]))
      {
        assert Calls(args[i]) <= Calls(e);
        AgreeUsed(env, env', args[i]);
      }
    case Call(_, args) =>
      forall i | 0 <= i < |args|
        ensures Agree(env, env', map[], args[i]) <==> SameAt(env, env', Used(env, args[i]))
      {
        assert Calls(args[i]) <= Calls(e);
        AgreeUsed(env, env', args[i]);
      }
    case _ =>
  }

  /** A binding without inner lets is read as it is outside of its let exactly when every name it uses
      stands for the same term there. */
  lemma {:induction false} BindingExactlyWhen(env: Env, outer: Env, e: Expr)
    requires Sides(env, outer) && Sees(env, outer) && NoLets(e) && SameCalls(env, outer, e)
      && DifferentFormals(env.macros)
    requires Read(env, e).Some? && Read(outer, e).Some?
    ensures Read(env, e) == Read(outer, e) <==> SameAt(env, outer, Used(env, e))
  {
    ReadExactlyWhen(env, outer, map[], e);
    AgreeUsed(env, outer, e);
  }

  // ----- a let that is misread -----

  /** The second binding refers to the x outside of the let, yet the reader takes the x of the first one. */
  function DependentLet(x: string, y: string, w: nat, n: nat): Expr {
    Let([Binding(x, Constant(w, n)), Binding(y, Name(x))], Name(y))
  }

  /** A scope in which x is a declared symbol. */
  function OneSymbol(lets: LetMode, x: string, w: nat): Env {
    Env(lets, map[], map[x := Symbol(x, BVSort(w))], map[])
  }

  lemma DependentLetReadings(x: string, y: string, w: nat, n: nat)
    requires x != y && x != "true" && x != "false" && y != "true" && y != "false"
    ensures Read(OneSymbol(InOrder, x, w), DependentLet(x, y, w, n)) == Some(BVValue(w, n))
    ensures Read(OneSymbol(InParallel, x, w), DependentLet(x, y, w, n)) == Some(Symbol(x, BVSort(w)))
  {
    var e, env, out := Let([Binding(x, Constant(w, n)), Binding(y, Name(x))], Name(y)), OneSymbol(InOrder, x, w),
      OneSymbol(InParallel, x, w);
    var env1 := Bound(env, x, BVValue(w, n)).value;
    var env2 := Bound(env1, y, BVValue(w, n)).value;
    assert ReadLet(env2, e, 2) == Some(BVValue(w, n));
    assert ReadLet(env1, e, 1) == Some(BVValue(w, n));
    assert ReadLet(env, e, 0) == Some(BVValue(w, n));
    var in1 := out.(locals := out.locals[x := BVValue(w, n)]);
    var in2 := in1.(locals := in1.locals[y := Symbol(x, BVSort(w))]);
    assert ReadParallelLet(out, in2, e, 2) == Some(Symbol(x, BVSort(w)));
    assert ReadParallelLet(out, in1, e, 1) == Some(Symbol(x, BVSort(w)));
    assert ReadParallelLet(out, out, e, 0) == Some(Symbol(x, BVSort(w)));
  }

  lemma {:induction false} DependentLetMisread<V>(m: Interp<V>, x: string, y: string, w: nat, n: nat)
    requires x != y && x != "true" && x != "false" && y != "true" && y != "false"
    ensures Read(OneSymbol(InOrder, x, w), DependentLet(x, y, w, n)) == Some(BVValue(w, n))
    ensures Meaning(InParallel, m, [], map[x := Declared(Symbol(x, BVSort(w)))], map[], DependentLet(x, y, w, n))
         == Some(m.leaf(Symbol(x, BVSort(w))))
  {
    DependentLetReadings(x, y, w, n);
    var e, value := Let([Binding(x, Constant(w, n)), Binding(y, Name(x))], Name(y)), Some(m.leaf(Symbol(x, BVSort(w))));
    var l0: map<string, V>, names := map[], map[x := Declared(Symbol(x, BVSort(w)))];
    var l1 := l0[x := m.leaf(BVValue(w, n))];
    var l2 := l1[y := m.leaf(Symbol(x, BVSort(w)))];
    assert NameValue(InParallel, m, [], names, l0, x) == value
      && Meaning(InParallel, m, [], names, l0, Name(x)) == value;
    assert NameValue(InParallel, m, [], names, l2, y) == value
      && Meaning(InParallel, m, [], names, l2, Name(y)) == value;
    assert MeaningParallelLet(InParallel, m, [], names, l0, l2, e, 2) == value;
    assert MeaningParallelLet(InParallel, m, [], names, l0, l1, e, 1) == value;
    assert MeaningParallelLet(InParallel, m, [], names, l0, l0, e, 0) == value;
  }

  /** The same let as the body of a definition without parameters, after x was declared. */
  function MisreadAlias(c: string, x: string, y: string, w: nat, n: nat): Definition {
    Definition(c, [], [], DependentLet(x, y, w, n), map[x := Declared(Symbol(x, BVSort(w)))],
               map[x := Symbol(x, BVSort(w))], BVValue(w, n))
  }

  /** The text that is just the name of the definition is misread then, and the definition is not read rightly. */
  lemma {:induction false} MisreadDefinition<V>(m: Interp<V>, x: string, y: string, c: string, w: nat, n: nat)
    requires x != y && x != "true" && x != "false" && y != "true" && y != "false"
    requires c != x && c != "true" && c != "false"
    ensures var d := MisreadAlias(c, x, y, w, n);
      && Read(EnvOf(InOrder, [d]), d.body) == Some(d.term)
      && Read(Env(InOrder, map[], d.globals[c := d.term], map[]), Name(c)) == Some(BVValue(w, n))
      && Meaning(InParallel, m, [d], d.names[c := Alias(0)], map[], Name(c)) == Some(m.leaf(Symbol(x, BVSort(w))))
      && !BodiesRight([d])
  {
    var d := MisreadAlias(c, x, y, w, n);
    assert [d][..0] == [] && EnvOf(InOrder, [d]) == OneSymbol(InOrder, x, w);
    DependentLetReadings(x, y, w, n);
    DependentLetMisread(m, x, y, w, n);
    if ReadingRight(EnvOf(InOrder, [d]), d.body) {
      ReadingExactlyWhen(EnvOf(InOrder, [d]), d.body);
    }
  }
}
