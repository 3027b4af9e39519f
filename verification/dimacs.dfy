/** cnf_to_dimacs of src/utils.cpp: numbering of the symbols, the printed text,
    and an independent reader of DIMACS text that gets the formula back. */
module Dimacs {
  import opened Terms
  import opened Sorts
  import opened Booleans
  import opened CnfForm
  import opened Text

  /** A member of a clause: a literal, or "false" standing for the empty clause. */
  predicate Printable(l: Term) {
    l == FALSE || IsLiteral(l)
  }

  predicate PrintableClause(ls: seq<Term>) {
    forall l :: l in ls ==> Printable(l)
  }

  predicate PrintableClauses(cs: seq<seq<Term>>) {
    forall c :: c in cs ==> PrintableClause(c)
  }

  /** A conjunction of clauses, each a disjunction of literals or false. */
  predicate PrintableCnf(t: Term) {
    forall c :: c in Leaves(And, t) ==> PrintableClause(Leaves(Or, c))
  }

  /** The symbol of a literal. */
  function Atom(l: Term): Term
    requires IsLiteral(l)
  {
    if l.IsSymbolicConst() then l else l.children[0]
  }

  // ----- numbering -----

  type Numbering = map<Term, nat>

  function NumberLiteral(ma: Numbering, l: Term): Numbering
    requires Printable(l)
  {
    if l == FALSE || Atom(l) in ma then ma else ma[Atom(l) := |ma| + 1]
  }

  function NumberClause(ma: Numbering, ls: seq<Term>): Numbering
    requires PrintableClause(ls)
  {
    if ls == [] then ma else NumberLiteral(NumberClause(ma, ls[..|ls| - 1]), ls[|ls| - 1])
  }

  function NumberAll(cs: seq<seq<Term>>): Numbering
    requires PrintableClauses(cs)
  {
    if cs == [] then map[] else NumberClause(NumberAll(cs[..|cs| - 1]), cs[|cs| - 1])
  }

  ghost predicate Used(ma: Numbering, k: nat) {
    exists t :: t in ma && ma[t] == k
  }

  /** One to one from the symbols onto 1..n. */
  ghost predicate Bijective(ma: Numbering) {
    && (forall t :: t in ma ==> 1 <= ma[t] <= |ma|)
    && (forall t, u :: t in ma && u in ma && ma[t] == ma[u] ==> t == u)
    && (forall k :: 1 <= k <= |ma| ==> Used(ma, k))
  }

  ghost predicate Covers(ma: Numbering, ls: seq<Term>) {
    forall l :: l in ls && l != FALSE ==> IsLiteral(l) && Atom(l) in ma
  }

  lemma NumberLiteralBijective(ma: Numbering, l: Term)
    requires Printable(l) && Bijective(ma)
    ensures Bijective(NumberLiteral(ma, l)) && ma.Keys <= NumberLiteral(ma, l).Keys
    ensures forall t :: t in ma ==> NumberLiteral(ma, l)[t] == ma[t]
  {
    if l != FALSE && Atom(l) !in ma {
      NewNumber(ma, Atom(l));
    }
  }

  /** A symbol that has no number yet gets the next one. */
  lemma NewNumber(ma: Numbering, t: Term)
    requires Bijective(ma) && t !in ma
    ensures Bijective(ma[t := |ma| + 1])
  {
    var ma' := ma[t := |ma| + 1];
    OneMore(ma, t, |ma| + 1);
    forall u | u in ma'
      ensures 1 <= ma'[u] <= |ma'|
    {
    }
    forall k | 1 <= k <= |ma'|
      ensures Used(ma', k)
    {
      UsedNext(ma, t, k);
    }
  }

  lemma OneMore(ma: Numbering, t: Term, n: nat)
    requires t !in ma
    ensures |ma[t := n]| == |ma| + 1
  {
    assert ma[t := n].Keys == ma.Keys + {t};
  }

  lemma UsedNext(ma: Numbering, t: Term, k: nat)
    requires t !in ma && (k == |ma| + 1 || Used(ma, k))
    ensures Used(ma[t := |ma| + 1], k)
  {
    var ma' := ma[t := |ma| + 1];
    if k == |ma| + 1 {
      assert ma'[t] == k;
    } else {
      var u :| u in ma && ma[u] == k;
      assert ma'[u] == k;
    }
  }

  lemma {:induction false} ClauseBijective(ma: Numbering, ls: seq<Term>)
    requires PrintableClause(ls) && Bijective(ma)
    ensures Bijective(NumberClause(ma, ls))
    decreases |ls|
  {
    if ls != [] {
      ClauseBijective(ma, ls[..|ls| - 1]);
      assert ls[|ls| - 1] in ls;
      NumberLiteralBijective(NumberClause(ma, ls[..|ls| - 1]), ls[|ls| - 1]);
    }
  }

  lemma {:induction false} ClauseCovered(ma: Numbering, ls: seq<Term>)
    requires PrintableClause(ls)
    ensures ma.Keys <= NumberClause(ma, ls).Keys && Covers(NumberClause(ma, ls), ls)
    decreases |ls|
  {
    if ls != [] {
      var init, last := ls[..|ls| - 1], ls[|ls| - 1];
      ClauseCovered(ma, init);
      assert last in ls;
      CoversNext(NumberClause(ma, init), init, last);
      assert ls == init + [last];
    }
  }

  lemma {:induction false} NumberClauseBijective(ma: Numbering, ls: seq<Term>)
    requires PrintableClause(ls) && Bijective(ma)
    ensures var r := NumberClause(ma, ls);
      Bijective(r) && ma.Keys <= r.Keys && Covers(r, ls)
  {
    ClauseBijective(ma, ls);
    ClauseCovered(ma, ls);
  }

  lemma CoversNext(ma: Numbering, ls: seq<Term>, l: Term)
    requires Covers(ma, ls) && Printable(l)
    ensures Covers(NumberLiteral(ma, l), ls + [l])
  {
  }

  /** Every symbol of the clauses gets a number of its own from 1..n, and every number is used. */
  lemma {:induction false} NumberAllBijective(cs: seq<seq<Term>>)
    requires PrintableClauses(cs)
    ensures Bijective(NumberAll(cs)) && forall c :: c in cs ==> Covers(NumberAll(cs), c)
    decreases |cs|
  {
    if cs != [] {
      var init, last := cs[..|cs| - 1], cs[|cs| - 1];
      NumberAllBijective(init);
      NumberClauseBijective(NumberAll(init), last);
      assert cs == init + [last];
    }
  }

  ghost predicate Keeps(ma: Numbering, more: Numbering) {
    forall t :: t in ma ==> t in more && more[t] == ma[t]
  }

  lemma {:induction false} NumberClauseGrows(ma: Numbering, ls: seq<Term>, k: nat)
    requires PrintableClause(ls) && k <= |ls|
    ensures Keeps(NumberClause(ma, ls[..k]), NumberClause(ma, ls))
    decreases |ls|
  {
    if k == |ls| {
      assert ls[..k] == ls;
    } else {
      var init := ls[..|ls| - 1];
      assert init[..k] == ls[..k];
      NumberClauseGrows(ma, init, k);
    }
  }

  /** Symbols are numbered as they are met: those of the first clauses have the first numbers. */
  lemma {:induction false} NumberAllGrows(cs: seq<seq<Term>>, k: nat)
    requires PrintableClauses(cs) && k <= |cs|
    ensures Keeps(NumberAll(cs[..k]), NumberAll(cs))
    decreases |cs|
  {
    if k == |cs| {
      assert cs[..k] == cs;
    } else {
      var init, last := cs[..|cs| - 1], cs[|cs| - 1];
      assert init[..k] == cs[..k];
      NumberAllGrows(init, k);
      NumberClauseGrows(NumberAll(init), last, 0);
    }
  }

  // ----- printing -----

  /** The number printed for a literal; zero for false, which is not printed. */
  function LiteralNumber(ma: Numbering, l: Term): int {
    if !IsLiteral(l) || Atom(l) !in ma then 0
    else if l.IsSymbolicConst() then ma[Atom(l)] else -(ma[Atom(l)] as int)
  }

  function Integer(i: int): string {
    if i < 0 then "-" + Decimal(-i) else Decimal(i)
  }

  /** The numbers printed for a clause. */
  function LiteralNumbers(ma: Numbering, ls: seq<Term>): seq<int> {
    if ls == [] then []
    else
      var l := ls[|ls| - 1];
      LiteralNumbers(ma, ls[..|ls| - 1]) + if l == FALSE then [] else [LiteralNumber(ma, l)]
  }

  function AllNumbers(ma: Numbering, cs: seq<seq<Term>>): seq<seq<int>> {
    if cs == [] then [] else AllNumbers(ma, cs[..|cs| - 1]) + [LiteralNumbers(ma, cs[|cs| - 1])]
  }

  /** A printed word and the separator after it. */
  datatype Token = Token(word: string, sep: char)

  function Render(ts: seq<Token>): string {
    if ts == [] then "" else ts[0].word + [ts[0].sep] + Render(ts[1..])
  }

  function NumberTokens(ns: seq<int>): seq<Token> {
    if ns == [] then [] else NumberTokens(ns[..|ns| - 1]) + [Token(Integer(ns[|ns| - 1]), ' ')]
  }

  function ClauseTokens(cs: seq<seq<int>>): seq<Token> {
    if cs == [] then []
    else ClauseTokens(cs[..|cs| - 1]) + NumberTokens(cs[|cs| - 1]) + [Token("0", '\n')]
  }

  function Header(n: nat, m: nat): seq<Token> {
    [Token("p", ' '), Token("cnf", ' '), Token(Decimal(n), ' '), Token(Decimal(m), '\n')]
  }

  function PrintCnf(cs: seq<seq<Term>>): string
    requires PrintableClauses(cs)
  {
    var ma := NumberAll(cs);
    Render(Header(|ma|, |cs|) + ClauseTokens(AllNumbers(ma, cs)))
  }

  lemma {:induction false} RenderSnoc(ts: seq<Token>, t: Token)
    ensures Render(ts + [t]) == Render(ts) + t.word + [t.sep]
    decreases |ts|
  {
    if ts == [] {
      assert [t][1..] == [];
    } else {
      assert (ts + [t])[1..] == ts[1..] + [t];
      RenderSnoc(ts[1..], t);
    }
  }

  lemma {:induction false} RenderHeader(n: nat, m: nat)
    ensures Render(Header(n, m)) == "p cnf " + Decimal(n) + " " + Decimal(m) + "\n"
  {
    var t0, t1, t2, t3 := Token("p", ' '), Token("cnf", ' '), Token(Decimal(n), ' '), Token(Decimal(m), '\n');
    RenderSnoc([], t0);
    RenderSnoc([t0], t1);
    RenderSnoc([t0, t1], t2);
    RenderSnoc([t0, t1, t2], t3);
    assert [] + [t0] == [t0] && [t0] + [t1] == [t0, t1];
    assert [t0, t1] + [t2] == [t0, t1, t2] && [t0, t1, t2] + [t3] == Header(n, m);
  }

  function AllLeaves(t: Term): (cs: seq<seq<Term>>)
    ensures |cs| == |Leaves(And, t)|
    ensures forall i :: 0 <= i < |cs| ==> cs[i] == Leaves(Or, Leaves(And, t)[i])
  {
    seq(|Leaves(And, t)|, i requires 0 <= i < |Leaves(And, t)| => Leaves(Or, Leaves(And, t)[i]))
  }

  /** The formula "true" has no clauses. */
  function Clauses(t: Term): seq<seq<Term>> {
    if t == TRUE then [] else AllLeaves(t)
  }

  lemma ClausesPrintable(t: Term)
    requires t == TRUE || PrintableCnf(t)
    ensures PrintableClauses(Clauses(t))
  {
    if t != TRUE {
      forall c | c in AllLeaves(t)
        ensures PrintableClause(c)
      {
        var i :| 0 <= i < |AllLeaves(t)| && AllLeaves(t)[i] == c;
        assert Leaves(And, t)[i] in Leaves(And, t);
      }
    }
  }

  /** The numbering loop. */
  method NumberSymbols(clauses: seq<seq<Term>>) returns (ma: Numbering, ptr: nat)
    requires PrintableClauses(clauses)
    ensures ma == NumberAll(clauses) && ptr == |ma|
  {
    ma, ptr := map[], 0;
    for i := 0 to |clauses|
      invariant PrintableClauses(clauses[..i])
      invariant ma == NumberAll(clauses[..i]) && ptr == |ma|
    {
      var u := clauses[i];
      assert clauses[..i + 1][..i] == clauses[..i];
      assert u in clauses;
      for j := 0 to |u|
        invariant PrintableClause(u[..j])
        invariant ma == NumberClause(NumberAll(clauses[..i]), u[..j]) && ptr == |ma|
      {
        assert u[..j + 1][..j] == u[..j] && u[j] in u;
        if u[j] != FALSE && Atom(u[j]) !in ma {
          ptr := ptr + 1;
          ma := ma[Atom(u[j]) := ptr];
        }
      }
      assert u[..|u|] == u;
    }
    assert clauses[..|clauses|] == clauses;
  }

  method CnfToDimacs(cnf: Term) returns (y: string)
    requires cnf == TRUE || PrintableCnf(cnf)
    ensures PrintableClauses(Clauses(cnf)) && y == PrintCnf(Clauses(cnf))
  {
    ClausesPrintable(cnf);
    if cnf == TRUE {
      RenderHeader(0, 0);
      assert Header(0, 0) + [] == Header(0, 0);
      return "p cnf 0 0\n";
    }
    var clauses := ClausesOf(cnf);
    assert clauses == AllLeaves(cnf);
    var ma, ptr := NumberSymbols(clauses);
    RenderHeader(ptr, |clauses|);
    y := PrintLines(ma, clauses, "p cnf " + Decimal(ptr) + " " + Decimal(|clauses|) + "\n", Header(ptr, |clauses|));
  }

  /** The outer printing loop. */
  method PrintLines(ma: Numbering, clauses: seq<seq<Term>>, header: string, ghost ts: seq<Token>) returns (y: string)
    requires header == Render(ts)
    ensures y == Render(ts + ClauseTokens(AllNumbers(ma, clauses)))
  {
    y := header;
    ghost var done := ts;
    assert clauses[..0] == [];
    for i := 0 to |clauses|
      invariant y == Render(done) && done == ts + ClauseTokens(AllNumbers(ma, clauses[..i]))
    {
      AllNumbersSnoc(ts, ma, clauses, i);
      y := PrintClause(ma, clauses[i], y, done);
      done := done + NumberTokens(LiteralNumbers(ma, clauses[i])) + [Token("0", '\n')];
    }
    assert clauses[..|clauses|] == clauses;
  }

  lemma {:induction false} AllNumbersSnoc(ts: seq<Token>, ma: Numbering, cs: seq<seq<Term>>, i: nat)
    requires i < |cs|
    ensures ts + ClauseTokens(AllNumbers(ma, cs[..i + 1]))
         == ts + ClauseTokens(AllNumbers(ma, cs[..i])) + NumberTokens(LiteralNumbers(ma, cs[i])) + [Token("0", '\n')]
  {
    assert cs[..i + 1][..i] == cs[..i];
    ClauseTokensSnoc(ts, AllNumbers(ma, cs[..i]), LiteralNumbers(ma, cs[i]));
  }

  lemma {:induction false} ClauseTokensSnoc(ts: seq<Token>, init: seq<seq<int>>, c: seq<int>)
    ensures ts + ClauseTokens(init + [c]) == ts + ClauseTokens(init) + NumberTokens(c) + [Token("0", '\n')]
  {
    assert (init + [c])[..|init|] == init;
    Associate(ts, ClauseTokens(init), NumberTokens(c), [Token("0", '\n')]);
  }

  lemma Concatenated<T>(a: seq<T>, b: seq<T>, c: seq<T>)
    ensures a + (b + c) == a + b + c
  {
  }

  lemma Associate(a: seq<Token>, b: seq<Token>, c: seq<Token>, d: seq<Token>)
    ensures a + (b + c + d) == a + b + c + d
  {
  }

  /** The inner printing loop: the text y, being that of the tokens before, grows by one line. */
  method PrintClause(ma: Numbering, u: seq<Term>, before: string, ghost ts: seq<Token>) returns (y: string)
    requires before == Render(ts)
    ensures y == Render(ts + NumberTokens(LiteralNumbers(ma, u)) + [Token("0", '\n')])
  {
    y := before;
    ghost var done := ts;
    assert done == ts + NumberTokens(LiteralNumbers(ma, u[..0]));
    for j := 0 to |u|
      invariant done == ts + NumberTokens(LiteralNumbers(ma, u[..j])) && y == Render(done)
    {
      NextToken(ma, u, j, ts, done);
      if u[j] != FALSE {
        RenderSnoc(done, LiteralToken(ma, u[j]));
        done := done + [LiteralToken(ma, u[j])];
        y := y + Integer(LiteralNumber(ma, u[j])) + " ";
      }
    }
    TakeAll(u);
    RenderSnoc(done, Token("0", '\n'));
    y := y + "0" + "\n";
  }

  function LiteralToken(ma: Numbering, l: Term): Token {
    Token(Integer(LiteralNumber(ma, l)), ' ')
  }

  lemma {:induction false} NextToken(ma: Numbering, u: seq<Term>, j: nat, ts: seq<Token>, done: seq<Token>)
    requires j < |u| && done == ts + NumberTokens(LiteralNumbers(ma, u[..j]))
    ensures ts + NumberTokens(LiteralNumbers(ma, u[..j + 1])) == if u[j] == FALSE then done
      else done + [LiteralToken(ma, u[j])]
  {
    LiteralNumbersSnoc(ma, u, j);
    Concatenated(ts, NumberTokens(LiteralNumbers(ma, u[..j])), [LiteralToken(ma, u[j])]);
  }

  lemma {:induction false} LiteralNumbersSnoc(ma: Numbering, u: seq<Term>, j: nat)
    requires j < |u|
    ensures NumberTokens(LiteralNumbers(ma, u[..j + 1])) == NumberTokens(LiteralNumbers(ma, u[..j]))
         + if u[j] == FALSE then [] else [Token(Integer(LiteralNumber(ma, u[j])), ' ')]
  {
    var ns := LiteralNumbers(ma, u[..j + 1]);
    assert u[..j + 1][..j] == u[..j];
    if u[j] == FALSE {
      assert ns == LiteralNumbers(ma, u[..j]);
    } else {
      assert ns[..|ns| - 1] == LiteralNumbers(ma, u[..j]);
    }
  }

  // ----- reading -----

  predicate IsSeparator(c: char) {
    c == ' ' || c == '\n'
  }

  /** The length of the longest prefix without a separator. */
  function WordLength(s: string): (n: nat)
    ensures n <= |s| && (n < |s| ==> IsSeparator(s[n])) && forall i :: 0 <= i < n ==> !IsSeparator(s[i])
  {
    if s == "" || IsSeparator(s[0]) then 0 else 1 + WordLength(s[1..])
  }

  function Words(s: string): seq<string>
    decreases |s|
  {
    if s == "" then []
    else
      var n := WordLength(s);
      (if n == 0 then [] else [s[..n]]) + if n < |s| then Words(s[n + 1..]) else []
  }

  predicate IsNumeral(w: string) {
    w != "" && forall c :: c in w ==> IsDigit(c)
  }

  function ReadInteger(w: string): Option<int> {
    if IsNumeral(w) then Some(ReadDecimal(w))
    else if w != "" && w[0] == '-' && IsNumeral(w[1..]) then Some(-(ReadDecimal(w[1..]) as int))
    else None
  }

  /** The clauses in a list of words, each clause ended by zero; current is the clause being read. */
  function ReadClauses(ws: seq<string>, current: seq<int>): Option<seq<seq<int>>> {
    if ws == [] then (if current == [] then Some([]) else None)
    else match ReadInteger(ws[0])
      case None => None
      case Some(i) =>
        if i != 0 then ReadClauses(ws[1..], current + [i])
        else match ReadClauses(ws[1..], [])
          case None => None
          case Some(cs) => Some([current] + cs)
  }

  datatype Problem = Problem(variables: int, size: int, clauses: seq<seq<int>>)

  function ReadDimacs(s: string): Option<Problem> {
    var ws := Words(s);
    if |ws| < 4 || ws[0] != "p" || ws[1] != "cnf" then None
    else match ReadClauses(ws[4..], [])
      case None => None
      case Some(cs) =>
        var n, m := ReadInteger(ws[2]), ReadInteger(ws[3]);
        if n.Some? && m.Some? then Some(Problem(n.value, m.value, cs)) else None
  }

  // ----- reading what was printed -----

  lemma ReadPrintedInteger(i: int)
    ensures ReadInteger(Integer(i)) == Some(i)
    ensures Integer(i) != "" && forall c :: c in Integer(i) ==> !IsSeparator(c)
  {
    if i < 0 {
      ReadPrinted(-i);
      assert Integer(i)[1..] == Decimal(-i) && Integer(i)[0] == '-';
      assert '-' in Integer(i) && !IsDigit('-');
    } else {
      ReadPrinted(i);
    }
  }

  lemma {:induction false} WordFirst(w: string, c: char, rest: string)
    requires IsSeparator(c) && forall d :: d in w ==> !IsSeparator(d)
    ensures WordLength(w + [c] + rest) == |w|
    decreases |w|
  {
    var s := w + [c] + rest;
    if w != "" {
      WordFirst(w[1..], c, rest);
      assert s[1..] == w[1..] + [c] + rest;
      assert s[0] == w[0] && w[0] in w;
    }
  }

  lemma {:induction false} WordsSplit(w: string, c: char, rest: string)
    requires IsSeparator(c) && w != "" && forall d :: d in w ==> !IsSeparator(d)
    ensures Words(w + [c] + rest) == [w] + Words(rest)
  {
    var s := w + [c] + rest;
    WordFirst(w, c, rest);
    assert s[..|w|] == w && s[|w| + 1..] == rest;
  }

  function WordsOf(ts: seq<Token>): (ws: seq<string>)
    ensures |ws| == |ts| && forall i :: 0 <= i < |ts| ==> ws[i] == ts[i].word
  {
    seq(|ts|, i requires 0 <= i < |ts| => ts[i].word)
  }

  predicate PlainToken(t: Token) {
    IsSeparator(t.sep) && t.word != "" && forall c :: c in t.word ==> !IsSeparator(c)
  }

  /** The words of a rendered list of tokens are the words of the tokens. */
  lemma {:induction false} WordsOfRendered(ts: seq<Token>)
    requires forall t :: t in ts ==> PlainToken(t)
    ensures Words(Render(ts)) == WordsOf(ts)
    decreases |ts|
  {
    if ts == [] {
      assert WordsOf(ts) == [];
    } else {
      assert ts[0] in ts;
      WordsOfRendered(ts[1..]);
      WordsOfFirst(ts);
      WordsOfCons(ts);
    }
  }

  lemma WordsOfCons(ts: seq<Token>)
    requires ts != []
    ensures WordsOf(ts) == [ts[0].word] + WordsOf(ts[1..])
  {
  }

  lemma {:induction false} WordsOfFirst(ts: seq<Token>)
    requires ts != [] && PlainToken(ts[0])
    ensures Words(Render(ts)) == [ts[0].word] + Words(Render(ts[1..]))
  {
    assert Render(ts) == ts[0].word + [ts[0].sep] + Render(ts[1..]);
    WordsSplit(ts[0].word, ts[0].sep, Render(ts[1..]));
  }

  lemma {:induction false} NumberTokensPlain(ns: seq<int>)
    ensures |NumberTokens(ns)| == |ns|
    ensures forall i :: 0 <= i < |ns| ==> NumberTokens(ns)[i] == Token(Integer(ns[i]), ' ')
    ensures forall t :: t in NumberTokens(ns) ==> PlainToken(t)
    decreases |ns|
  {
    if ns != [] {
      NumberTokensPlain(ns[..|ns| - 1]);
      ReadPrintedInteger(ns[|ns| - 1]);
    }
  }

  lemma {:induction false} ClauseTokensPlain(cs: seq<seq<int>>)
    ensures forall t :: t in ClauseTokens(cs) ==> PlainToken(t)
    decreases |cs|
  {
    if cs != [] {
      ClauseTokensPlain(cs[..|cs| - 1]);
      NumberTokensPlain(cs[|cs| - 1]);
    }
  }

  ghost predicate NonZero(cs: seq<seq<int>>) {
    forall c :: c in cs ==> 0 !in c
  }

  function Integers(ns: seq<int>): (ws: seq<string>)
    ensures |ws| == |ns| && forall i :: 0 <= i < |ns| ==> ws[i] == Integer(ns[i])
  {
    seq(|ns|, i requires 0 <= i < |ns| => Integer(ns[i]))
  }

  /** The words of a clause and what follows it. */
  function Line(ns: seq<int>, ws: seq<string>): seq<string> {
    if ns == [] then ["0"] + ws else [Integer(ns[0])] + Line(ns[1..], ws)
  }

  lemma {:induction false} LineWords(ns: seq<int>, ws: seq<string>)
    ensures Line(ns, ws) == Integers(ns) + (["0"] + ws)
    decreases |ns|
  {
    if ns == [] {
      assert Integers(ns) == [];
    } else {
      LineWords(ns[1..], ws);
      assert Integers(ns) == [Integer(ns[0])] + Integers(ns[1..]);
      Concatenated([Integer(ns[0])], Integers(ns[1..]), ["0"] + ws);
    }
  }

  /** One word is read. */
  lemma {:induction false} ReadWord(w: string, ws: seq<string>, current: seq<int>, i: int)
    requires ReadInteger(w) == Some(i)
    ensures i != 0 ==> ReadClauses([w] + ws, current) == ReadClauses(ws, current + [i])
    ensures i == 0 && ReadClauses(ws, []).Some? ==>
      ReadClauses([w] + ws, current) == Some([current] + ReadClauses(ws, []).value)
  {
    assert ([w] + ws)[0] == w && ([w] + ws)[1..] == ws;
  }

  lemma {:induction false} ReadClause(ns: seq<int>, ws: seq<string>, current: seq<int>, more: seq<seq<int>>)
    requires 0 !in ns && ReadClauses(ws, []) == Some(more)
    ensures ReadClauses(Line(ns, ws), current) == Some([current + ns] + more)
    decreases |ns|
  {
    if ns == [] {
      assert current + ns == current && Integer(0) == "0";
      ReadPrintedInteger(0);
      ReadWord("0", ws, current, 0);
    } else {
      ReadPrintedInteger(ns[0]);
      assert ns[0] in ns;
      ReadWord(Integer(ns[0]), Line(ns[1..], ws), current, ns[0]);
      ReadClause(ns[1..], ws, current + [ns[0]], more);
      assert current + [ns[0]] + ns[1..] == current + ns;
    }
  }

  lemma WordsOfConcat(a: seq<Token>, b: seq<Token>)
    ensures WordsOf(a + b) == WordsOf(a) + WordsOf(b)
  {
  }

  /** The words of some clauses and what follows them. */
  function Lines(cs: seq<seq<int>>, ws: seq<string>): seq<string> {
    WordsOf(ClauseTokens(cs)) + ws
  }

  lemma {:induction false} WordsOfClause(c: seq<int>)
    ensures WordsOf(NumberTokens(c) + [Token("0", '\n')]) == Integers(c) + ["0"]
  {
    NumberTokensPlain(c);
    WordsOfConcat(NumberTokens(c), [Token("0", '\n')]);
    assert WordsOf(NumberTokens(c)) == Integers(c);
  }

  lemma {:induction false} LastClauseWords(init: seq<seq<int>>, c: seq<int>, ws: seq<string>)
    ensures Lines(init + [c], ws) == Lines(init, Line(c, ws))
  {
    var a, b := ClauseTokens(init), NumberTokens(c) + [Token("0", '\n')];
    ClauseTokensSnoc([], init, c);
    assert ClauseTokens(init + [c]) == a + b;
    WordsOfConcat(a, b);
    WordsOfClause(c);
    LineWords(c, ws);
    Concatenated(WordsOf(a), Integers(c) + ["0"], ws);
    Concatenated(Integers(c), ["0"], ws);
  }

  lemma {:induction false} ReadAllClauses(cs: seq<seq<int>>, ws: seq<string>, more: seq<seq<int>>)
    requires NonZero(cs) && ReadClauses(ws, []) == Some(more)
    ensures ReadClauses(Lines(cs, ws), []) == Some(cs + more)
    decreases |cs|
  {
    if cs == [] {
      assert Lines(cs, ws) == ws && cs + more == more;
    } else {
      var init, c := cs[..|cs| - 1], cs[|cs| - 1];
      SplitLast(cs);
      assert [] + c == c;
      ReadClause(c, ws, [], more);
      ReadAllClauses(init, Line(c, ws), [c] + more);
      LastClauseWords(init, c, ws);
      assert init + ([c] + more) == cs + more;
    }
  }

  lemma {:induction false} NumbersNonZero(ma: Numbering, ls: seq<Term>)
    requires Bijective(ma) && Covers(ma, ls)
    ensures forall i :: i in LiteralNumbers(ma, ls) ==> i != 0 && -|ma| <= i <= |ma|
    ensures forall i :: i in LiteralNumbers(ma, ls) <==> exists l :: l in ls && l != FALSE && LiteralNumber(ma, l) == i
    decreases |ls|
  {
    if ls != [] {
      NumbersNonZero(ma, ls[..|ls| - 1]);
      assert ls == ls[..|ls| - 1] + [ls[|ls| - 1]];
    }
  }

  lemma {:induction false} AllNumbersAt(ma: Numbering, cs: seq<seq<Term>>)
    ensures |AllNumbers(ma, cs)| == |cs|
    ensures forall i :: 0 <= i < |cs| ==> AllNumbers(ma, cs)[i] == LiteralNumbers(ma, cs[i])
    decreases |cs|
  {
    if cs != [] {
      AllNumbersAt(ma, cs[..|cs| - 1]);
    }
  }

  lemma {:induction false} AllNumbersNonZero(ma: Numbering, cs: seq<seq<Term>>)
    requires Bijective(ma) && forall c :: c in cs ==> Covers(ma, c)
    ensures NonZero(AllNumbers(ma, cs))
    ensures forall c, i :: c in AllNumbers(ma, cs) && i in c ==> -|ma| <= i <= |ma|
  {
    AllNumbersAt(ma, cs);
    forall c | c in AllNumbers(ma, cs)
      ensures 0 !in c && forall i :: i in c ==> -|ma| <= i <= |ma|
    {
      var i :| 0 <= i < |cs| && AllNumbers(ma, cs)[i] == c;
      assert cs[i] in cs;
      NumbersNonZero(ma, cs[i]);
    }
  }

  /** Reading the printed text gives back the numbers of the literals, under a header with the
      number of symbols and the number of clauses. */
  lemma {:induction false} ReadPrintedCnf(cs: seq<seq<Term>>)
    requires PrintableClauses(cs)
    ensures var ma := NumberAll(cs);
      ReadDimacs(PrintCnf(cs)) == Some(Problem(|ma|, |cs|, AllNumbers(ma, cs)))
  {
    var ma := NumberAll(cs);
    NumberAllBijective(cs);
    AllNumbersNonZero(ma, cs);
    ReadTokens(|ma|, |cs|, AllNumbers(ma, cs));
  }

  lemma {:induction false} HeaderWords(n: nat, m: nat, ns: seq<seq<int>>)
    ensures var ws := WordsOf(Header(n, m) + ClauseTokens(ns));
      && |ws| >= 4 && ws[0] == "p" && ws[1] == "cnf" && ws[2] == Integer(n) && ws[3] == Integer(m)
      && ws[4..] == WordsOf(ClauseTokens(ns))
  {
    WordsOfConcat(Header(n, m), ClauseTokens(ns));
  }

  lemma HeaderPlain(n: nat, m: nat)
    ensures forall t :: t in Header(n, m) ==> PlainToken(t)
  {
    ReadPrintedInteger(n);
    ReadPrintedInteger(m);
  }

  lemma {:induction false} ReadTokens(n: nat, m: nat, ns: seq<seq<int>>)
    requires NonZero(ns)
    ensures ReadDimacs(Render(Header(n, m) + ClauseTokens(ns))) == Some(Problem(n, m, ns))
  {
    HeaderPlain(n, m);
    ClauseTokensPlain(ns);
    WordsOfRendered(Header(n, m) + ClauseTokens(ns));
    HeaderWords(n, m, ns);
    ReadPrintedInteger(n);
    ReadPrintedInteger(m);
    ReadAllClauses(ns, [], []);
    assert Lines(ns, []) == WordsOf(ClauseTokens(ns)) && ns + [] == ns;
  }

  // ----- meaning -----

  /** The value a number has under an assignment of the symbols. */
  ghost function Reading(env: Env, ma: Numbering): nat -> bool {
    (k: nat) => exists t :: t in ma && ma[t] == k && Holds(env, t)
  }

  predicate NumberHolds(v: nat -> bool, i: int) {
    if i >= 0 then v(i) else !v(-i)
  }

  ghost predicate ProblemHolds(v: nat -> bool, p: Problem) {
    forall c :: c in p.clauses ==> exists i :: i in c && NumberHolds(v, i)
  }

  lemma LiteralNumberHolds(env: Env, ma: Numbering, l: Term)
    requires Bijective(ma) && IsLiteral(l) && Atom(l) in ma
    ensures NumberHolds(Reading(env, ma), LiteralNumber(ma, l)) <==> Holds(env, l)
  {
    var v := Reading(env, ma);
    assert v(ma[Atom(l)]) == Holds(env, Atom(l));
    if !l.IsSymbolicConst() {
      HoldsApp(env, Op(Not, []), l.children);
      assert Truths(env, l.children)[0] == Holds(env, Atom(l));
    }
  }

  lemma {:induction false} ClauseNumbersHold(env: Env, ma: Numbering, ls: seq<Term>)
    requires Bijective(ma) && Covers(ma, ls)
    ensures (exists i :: i in LiteralNumbers(ma, ls) && NumberHolds(Reading(env, ma), i))
       <==> (exists l :: l in ls && Holds(env, l))
  {
    NumbersNonZero(ma, ls);
    if l :| l in ls && Holds(env, l) {
      LiteralNumberHolds(env, ma, l);
      assert LiteralNumber(ma, l) in LiteralNumbers(ma, ls);
    }
    if i :| i in LiteralNumbers(ma, ls) && NumberHolds(Reading(env, ma), i) {
      var l :| l in ls && l != FALSE && LiteralNumber(ma, l) == i;
      LiteralNumberHolds(env, ma, l);
    }
  }

  /** The printed text is readable, its header counts its symbols and clauses,
      and every number in it is within the header's. */
  lemma DimacsReadable(cnf: Term)
    requires cnf == TRUE || PrintableCnf(cnf)
    ensures PrintableClauses(Clauses(cnf))
    ensures var ma, r := NumberAll(Clauses(cnf)), ReadDimacs(PrintCnf(Clauses(cnf)));
      && Bijective(ma) && (forall c :: c in Clauses(cnf) ==> Covers(ma, c))
      && r == Some(Problem(|ma|, |Clauses(cnf)|, AllNumbers(ma, Clauses(cnf))))
      && |r.value.clauses| == |Clauses(cnf)| && NonZero(r.value.clauses)
      && forall c, i :: c in r.value.clauses && i in c ==> -|ma| <= i <= |ma|
  {
    ClausesPrintable(cnf);
    var cs := Clauses(cnf);
    NumberAllBijective(cs);
    ReadPrintedCnf(cs);
    AllNumbersAt(NumberAll(cs), cs);
    AllNumbersNonZero(NumberAll(cs), cs);
  }

  /** What is read back is satisfied by an assignment exactly when the formula is. */
  lemma DimacsMeansCnf(cnf: Term, env: Env)
    requires cnf == TRUE || PrintableCnf(cnf)
    ensures PrintableClauses(Clauses(cnf)) && ReadDimacs(PrintCnf(Clauses(cnf))).Some?
    ensures ProblemHolds(Reading(env, NumberAll(Clauses(cnf))), ReadDimacs(PrintCnf(Clauses(cnf))).value)
       <==> Holds(env, cnf)
  {
    DimacsReadable(cnf);
    PrintedClausesHold(env, NumberAll(Clauses(cnf)), Clauses(cnf));
    AllClausesHold(cnf, env);
  }

  ghost predicate SomeHolds(env: Env, ls: seq<Term>) {
    exists l :: l in ls && Holds(env, l)
  }

  lemma AllClausesHold(cnf: Term, env: Env)
    ensures Holds(env, cnf) <==> forall j :: 0 <= j < |Clauses(cnf)| ==> SomeHolds(env, Clauses(cnf)[j])
  {
    ClausesHold(env, cnf);
    if cnf != TRUE {
      var ls, cs := Leaves(And, cnf), AllLeaves(cnf);
      assert forall c :: c in ls ==> exists j :: 0 <= j < |ls| && ls[j] == c;
      assert forall j :: 0 <= j < |ls| ==> cs[j] == Leaves(Or, ls[j]) && ls[j] in ls;
      assert Holds(env, cnf) <==> forall c :: c in ls ==> SomeHolds(env, Leaves(Or, c));
      if forall j :: 0 <= j < |cs| ==> SomeHolds(env, cs[j]) {
        forall c | c in ls
          ensures SomeHolds(env, Leaves(Or, c))
        {
          var j :| 0 <= j < |ls| && ls[j] == c;
          assert SomeHolds(env, cs[j]);
        }
      } else {
        var j :| 0 <= j < |cs| && !SomeHolds(env, cs[j]);
        assert ls[j] in ls && !SomeHolds(env, Leaves(Or, ls[j])) && Clauses(cnf)[j] == cs[j];
      }
    }
  }

  lemma {:induction false} PrintedClausesHold(env: Env, ma: Numbering, cs: seq<seq<Term>>)
    requires Bijective(ma) && forall c :: c in cs ==> Covers(ma, c)
    ensures ProblemHolds(Reading(env, ma), Problem(|ma|, |cs|, AllNumbers(ma, cs)))
       <==> forall j :: 0 <= j < |cs| ==> SomeHolds(env, cs[j])
  {
    var ns := AllNumbers(ma, cs);
    AllNumbersAt(ma, cs);
    forall j | 0 <= j < |cs|
      ensures ns[j] in ns
      ensures (exists i :: i in ns[j] && NumberHolds(Reading(env, ma), i)) <==> SomeHolds(env, cs[j])
    {
      assert cs[j] in cs;
      ClauseNumbersHold(env, ma, cs[j]);
    }
  }

  // ----- the satisfying valuations -----

  /** All literals are over Boolean symbols, so that an assignment gives every symbol a value of its own. */
  ghost predicate BooleanAtoms(ma: Numbering) {
    forall t :: t in ma ==> t.Symbol? && t.sort == BoolSort
  }

  /** The assignment that a valuation of the numbers stands for. */
  ghost function AssignmentOf(v: nat -> bool, ma: Numbering): Env {
    (n: string) => exists t :: t in ma && t.Symbol? && t.name == n && v(ma[t])
  }

  /** Two valuations agree on the numbers of the header. */
  ghost predicate AgreeUpTo(v: nat -> bool, v': nat -> bool, n: nat) {
    forall k: nat :: 1 <= k <= n ==> v(k) == v'(k)
  }

  /** Every valuation of the numbers is that of an assignment. */
  lemma ValuationAssigned(v: nat -> bool, ma: Numbering)
    requires Bijective(ma) && BooleanAtoms(ma)
    ensures AgreeUpTo(v, Reading(AssignmentOf(v, ma), ma), |ma|)
  {
    var env := AssignmentOf(v, ma);
    forall k: nat | 1 <= k <= |ma|
      ensures v(k) == Reading(env, ma)(k)
    {
      assert Used(ma, k);
      var t :| t in ma && ma[t] == k;
      assert Holds(env, t) == env(t.name);
      assert forall u :: u in ma && u.name == t.name ==> u == t;
    }
  }

  /** The valuation of an assignment stands for an assignment with the same values of the symbols. */
  lemma AssignmentValued(env: Env, ma: Numbering, t: Term)
    requires Bijective(ma) && BooleanAtoms(ma) && t in ma
    ensures AssignmentOf(Reading(env, ma), ma)(t.name) == env(t.name)
  {
    assert Reading(env, ma)(ma[t]) == Holds(env, t) == env(t.name);
    assert forall u :: u in ma && u.name == t.name ==> u == t;
  }

  /** Only the numbers of the header matter. */
  lemma SameProblem(v: nat -> bool, v': nat -> bool, p: Problem, n: nat)
    requires AgreeUpTo(v, v', n) && NonZero(p.clauses)
    requires forall c, i :: c in p.clauses && i in c ==> -(n as int) <= i <= n
    ensures ProblemHolds(v, p) == ProblemHolds(v', p)
  {
    forall c, i | c in p.clauses && i in c
      ensures NumberHolds(v, i) == NumberHolds(v', i)
    {
      assert i != 0;
      var k: nat := if i > 0 then i else -i;
      assert v(k) == v'(k);
    }
  }

  /** The problem that is read back from the printed text. */
  ghost function Printed(cnf: Term): Problem
    requires cnf == TRUE || PrintableCnf(cnf)
  {
    DimacsReadable(cnf);
    ReadDimacs(PrintCnf(Clauses(cnf))).value
  }

  ghost function NumberingOf(cnf: Term): Numbering
    requires cnf == TRUE || PrintableCnf(cnf)
  {
    ClausesPrintable(cnf);
    NumberAll(Clauses(cnf))
  }

  /** The satisfying valuations of the printed text are those of the satisfying assignments of the formula. */
  lemma ValuationMeansCnf(cnf: Term, v: nat -> bool)
    requires cnf == TRUE || PrintableCnf(cnf)
    requires BooleanAtoms(NumberingOf(cnf))
    ensures ProblemHolds(v, Printed(cnf)) <==> Holds(AssignmentOf(v, NumberingOf(cnf)), cnf)
  {
    var ma, p := NumberingOf(cnf), Printed(cnf);
    DimacsReadable(cnf);
    DimacsMeansCnf(cnf, AssignmentOf(v, ma));
    ValuationAssigned(v, ma);
    SameProblem(v, Reading(AssignmentOf(v, ma), ma), p, |ma|);
  }

  /** Going from an assignment to its valuation and back, or from a valuation to its assignment and back, changes
      nothing that is numbered or occurs: the correspondence is one to one. */
  lemma OneToOne(ma: Numbering, env: Env, v: nat -> bool)
    requires Bijective(ma) && BooleanAtoms(ma)
    ensures AgreeUpTo(v, Reading(AssignmentOf(v, ma), ma), |ma|)
    ensures forall t :: t in ma ==> AssignmentOf(Reading(env, ma), ma)(t.name) == env(t.name)
  {
    ValuationAssigned(v, ma);
    forall t | t in ma
      ensures AssignmentOf(Reading(env, ma), ma)(t.name) == env(t.name)
    {
      AssignmentValued(env, ma, t);
    }
  }

  ghost predicate SatisfiableProblem(p: Problem) {
    exists v: nat -> bool :: ProblemHolds(v, p)
  }

  ghost predicate SatisfiableFormula(t: Term) {
    exists env: Env :: Holds(env, t)
  }

  /** The printed text is satisfiable exactly when the formula is. */
  lemma DimacsEquisatisfiable(cnf: Term)
    requires cnf == TRUE || PrintableCnf(cnf)
    requires BooleanAtoms(NumberingOf(cnf))
    ensures SatisfiableProblem(Printed(cnf)) <==> SatisfiableFormula(cnf)
  {
    var ma := NumberingOf(cnf);
    if v: nat -> bool :| ProblemHolds(v, Printed(cnf)) {
      ValuationMeansCnf(cnf, v);
    }
    if env: Env :| Holds(env, cnf) {
      DimacsMeansCnf(cnf, env);
      assert ProblemHolds(Reading(env, ma), Printed(cnf));
    }
  }
}
