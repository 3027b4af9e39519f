# smt-switch in Dafny

smt-switch puts one term-building and solving interface in front of many SMT solvers. Besides the
wrappers, it holds algorithms of its own over terms. This project models those algorithms and proves
what they are for.

A term is a value here: two terms are equal exactly when they are built alike, which is what comparing
the hash-consed terms of a solver gives. `Terms.Eval` gives a term a value under any interpretation of
its symbols, constants and operators, so most results hold in every theory. Foreign solvers are exact
oracles: a query is answered by whether the assertions have a model, and a core is some unsatisfiable
part of the assumptions (`Logic`, `Solvers`). An exception of the C++ code is `None` or `false`.

The files, by part of the repository:

- `terms`, `sorts`, `logic`, `solver`, `text`, `symbols`, `booleans`: terms, sort inference, models, the
  oracle, numerals, symbol tables and the Boolean reading of formulas.
- `values`: what applications are worth, operator by operator, against which sort checking and inference are proved.
- `walker`, `substitution`, `tree_walker`: the worklist traversals and the recursions they agree with.
- `simplify`, `tseitin`, `cnf`, `cnf_form`, `to_cnf`, `dimacs`, `cnf_printing`: the CNF conversion as a small
  compiler, from constant elimination to the printed DIMACS text and back.
- `sorting_network`: Batcher's odd-even merge sort of Boolean terms.
- `unsat_core`, `msat`: core reduction with label literals, and MathSAT's assumption clauses.
- `disjoint_set`, `logging`: groups of terms, and the hash-consing table of LoggingSolver.
- `scopes`, `macros`, `lets`, `commands`, `reader`: the SMT-LIB reader: its scoped symbols, the expansion of
  defined functions, the meaning of let, and what whole runs of commands leave behind.
- `aliases`, `bit_structure`, `casts`, `translator`: moving terms between solvers that do and do not tell Booleans from
  one-bit vectors apart.
- `bv_smod`: the signed modulo that the MathSAT backend builds from other operators.

The source updates caches, stacks and tables in place; the corresponding classes and loops here do so
too, and each is proved against a function or a predicate about the values it holds. A walker's step for
one node is a function value, so loops over the children of a node inside a step are recursive functions.

Where code and documentation disagree, or the code falls short of what it is for, the model follows the code:

- An Xor with more than two members that is not at the root keeps its members through binarisation
  (src/utils.cpp:430-433), and clause generation reads two of them (src/utils.cpp:898-904).
  `ToCnf.WideXorMisread` is such a formula; `ToCnf.ToCnfExactlyWhen` says for which formulas and
  assignments the conversion is right, and `ToCnf.XorsInReach` is the syntactic condition behind it.
- include/sorting_network.h:34 says that output i is true when i or more inputs are; the code, and the
  examples below that comment, give i + 1 or more (`SortingNetwork.SortedCounts`).
- The bindings of a `let` are read one after the other, each with the earlier ones in scope, and a name that is
  bound locally cannot be bound again (src/smtlibparser.yy:483-489); section 3.6.1 of the SMT-LIB 2.6 standard
  evaluates them in parallel and lets them shadow. `Lets.DependentLetMisread` is a `let` that is read wrongly.
  `Commands.MisreadRun` is a run in which such a `let` in a definition without arguments makes a later use of the
  defined name mean something else. `Lets.DefinedExactlyWhen` says when the definitions so far, with or without
  arguments, are read rightly, and `Lets.MeansExactlyWhen` when a text over such definitions is;
  `Lets.AcceptedExactlyWhen` and `Lets.AllowedExactlyWhen` say when the reader and the standard accept different
  texts, and `Lets.IndependentMeans` gives a simple condition under which all is well.
- The name of a temporary does not determine its sort (`Reader.TemporaryNamesCollide`), so registering an
  argument can be refused although its own name is free (`Reader.SmtLibReader.CollidingTempRefused`);
  `RegisterArg` says exactly when.
- Functions defined with arguments stay defined after a pop (src/smtlib_reader.cpp:394-402), unlike
  section 4.2.2 of SMT-LIB 2.6 has it. `Commands.FunctionSurvivesPop` is such a run;
  `Commands.BracketRestores` says that a pop always restores the symbols, `Commands.BracketDefinitions` that the map
  of functions is then the one at the push exactly when every function defined in between ends with the definition it
  had at the push, as in `Commands.SameDefinitionRestored`.
- The list and set forms of `check_sat_assuming` in the MathSAT backend do not record that the last query
  assumed something; `Msat.MsatSolver.ListQueryForgotten` is a run in which the unsatisfiable assumptions
  cannot be had for that reason.
- check_sortedness does not look at indices, so an extraction beyond its argument is accepted and given a width
  counted around in 64 bits (src/sort_inference.cpp:631-634). `Values.ExtractionBeyond` is such a term;
  `Values.WorthSorted` says that otherwise a term is accepted exactly when it has a value.
- include/utils.h:134 says that without a limit `reduce_assump_unsatcore` gives a minimal result; it ends when a core is
  all of the assumptions. `UnsatCore.NotMinimal` is an input whose result is not minimal, and
  `UnsatCore.MinimalExactlyWhen` says for which solvers results always are.
- The comment on constant elimination calls it a preorder rewriting; it works on rebuilt children.

## Model

| member | source | states |
|---|---|---|
| Terms.Coincidence | src/solver.cpp:55-95 | the value of a term depends on the leaves that occur in it only, in every interpretation |
| Aliases.SortOfNode | src/sort_inference.cpp:234-270 | an application of well-sorted terms is well-sorted exactly when check_sortedness accepts their sorts, and then has the sort of compute_sort; Values.ResultSorted says what these two are |
| Values.ResultSorted | src/sort_inference.cpp:234-270 | for every operator and all argument values: check_sortedness accepts their sorts exactly when the application has a value, save for extractions beyond the argument, and the value has the sort of compute_sort, the widths of concatenations, extractions, extensions and repetitions included |
| Values.WorthSorted | src/sort_inference.cpp:213-270 | a term has a value exactly when all its nodes are accepted and no extraction reaches outside of its argument, and the value has the inferred sort, whatever the symbols are worth |
| Values.ExtractionBeyond | src/sort_inference.cpp:631-634 | extractions that are accepted although they have no value, one of them with a width counted around in 64 bits |
| Values.ToNatOfInt | src/sort_inference.cpp:589-592 | the sum, product and other results at the width of the arguments are the numbers counted around at that width |
| Values.ToNatJoined | src/sort_inference.cpp:636-639 | the number of a concatenation is that of the first argument shifted by the width of the second, plus that of the second |
| Walker.IdentityWalker.VisitTerm | src/identity_walker.cpp:100-126 | the post-order visit saves the rebuilt node, and is reached only when every child is cached |
| Walker.IdentityWalker.Visit | src/identity_walker.cpp:25-98 | the worklist with its visited set and a pre-filled, possibly kept cache leaves the state of the recursive last-child-first traversal and returns the cached result |
| Walker.RunPush | src/identity_walker.cpp:50-70 | children pushed on a stack are traversed before what lies below them, as the recursion does |
| Walker.LastChildFirst | src/identity_walker.cpp:50-70 | of two leaves below a node the last is saved first, and the node after both |
| Walker.MarkedEnter | src/identity_walker.cpp:50-98 | entering a node keeps that every entered, uncached node has one mark with its uncached children above it |
| Walker.MarkedPop | src/identity_walker.cpp:50-98 | leaving a node keeps the same |
| Walker.MarkedTop | src/identity_walker.cpp:50-98 | an uncached top entry was visited exactly when it is the mark of its node, and then all its children are cached |
| Walker.DfsKeys | src/identity_walker.cpp:25-98 | a walk from a closed cache caches exactly the subterms of the visited term in addition |
| Walker.DfsSaves | src/identity_walker.cpp:100-126 | a node is saved once, after all of its children |
| Walker.DfsFaithful | src/identity_walker.cpp:25-126 | walks that only rebuild add nothing but correct entries, over any number of visits |
| Substitution.WalkIsSubstituted | src/substitution_walker.cpp:20-38 | a rebuilding walk from a cache filled with a substitution is the recursive simultaneous substitution |
| Substitution.SubstitutionLemma | src/solver.cpp:55-95 | substituting in a term has the value of the term under the interpretation updated by the substitution, in every interpretation |
| Substitution.Substitute | src/solver.cpp:55-95 | the worklist that keeps visited marks and results in one map terminates with the recursive simultaneous substitution |
| Substitution.SubstituteLeave | src/solver.cpp:76-90 | when a node is rebuilt its children have final entries, never placeholders, and its own entry becomes or stays final |
| Substitution.SubstituteEnter | src/solver.cpp:68-75 | a node met for the first time gets a placeholder and its children are pushed |
| Substitution.SubstitutionWalker.Create | src/substitution_walker.cpp:20-38 | the walker is refused exactly when a key and its replacement differ in sort |
| Substitution.SubstitutionWalker.Visit | src/substitution_walker.cpp:20-38 | every one of any number of visits returns the substituted term and keeps the cache correct |
| TreeWalkers.TreeWalker.Visit | src/tree_walker.cpp:11-133 | the loop with one path and -1 marks leaves the cache of the recursive walk from the last child to the first |
| TreeWalkers.WalkLeast | src/tree_walker.cpp:40-133 | the walk caches every subterm, and no other new term, at its lexicographically least path |
| TreeWalkers.LexOrder | src/tree_walker.cpp:40-133 | of two paths exactly one comes first, so a least path is unique |
| TreeWalkers.TreeWalker.VisitFresh | src/tree_walker.cpp:11-153 | from an empty cache, every subterm and nothing else is mapped to the formula and its least path |
| Simplify.EliminateHolds | src/utils.cpp:458-750 | constant elimination keeps the truth value under every assignment |
| Simplify.EliminateNodeHolds | src/utils.cpp:470-740 | one elimination step computes the operator of the node on the truth values of its rebuilt children |
| Simplify.ParityOfSplit | src/utils.cpp:672-735 | the parity of an Xor is that of its non-constant members flipped by its true ones |
| Simplify.EliminateSimplifies | src/utils.cpp:458-750 | elimination leaves a bare constant or a formula without constants |
| Simplify.EliminateNames | src/utils.cpp:458-750 | elimination introduces no symbols |
| Simplify.EliminateKeepsPairs | src/utils.cpp:458-750 | elimination makes no Xor wider than two members |
| Simplify.BinarizeHolds | src/utils.cpp:402-456 | binarisation keeps the truth value under every assignment |
| Simplify.BinarizeNarrow | src/utils.cpp:402-456 | binarisation makes every Xor binary when the wide ones are at the root only |
| Tseitin.NamingOf | src/utils.cpp:341-399 | naming gives each distinct application of a formula one fresh name and one definition over names, the formula's own last |
| Tseitin.DfsNames | src/utils.cpp:341-399 | naming keeps names fresh and distinct and definitions complete while it goes over any formula |
| Symbols.FreshIndex | src/utils.cpp:352-366 | the search finds the first number whose name is not taken |
| Symbols.SymbolTable.MakeFresh | src/utils.cpp:352-366 | the loop of failing attempts ends with a symbol of the first free name |
| Cnf.NarrowCut | src/utils.cpp:898-904 | reading two members of an Xor is harmless when every Xor is binary |
| Cnf.DefinitionsMean | src/utils.cpp:864-930 | all definitions hold exactly when each name has the truth value of its subterm |
| Cnf.DefinitionClausesHold | src/utils.cpp:870-956 | the clauses generated for a definition hold exactly when the name equals what its operator makes of the members it reads |
| CnfForm.Flatten | src/utils.cpp:763-780 | the flattening worklist gives the leaves of nested And or Or |
| CnfForm.CheckCnf | src/utils.cpp:753-825 | the recogniser accepts exactly the conjunctions of disjunctions of literals |
| CnfForm.IsCnfShape | src/utils.cpp:753-825 | what is accepted are exactly the clauses joined by And to any depth, each of literals joined by Or to any depth |
| CnfForm.ClausesHold | src/utils.cpp:753-825 | a formula is true exactly when each of its flattened clauses has a true literal |
| ToCnf.ToCnf | src/utils.cpp:827-963 | the passes run one after the other give the formula of the recursive conversion and its new symbols |
| ToCnf.GenerateClauses | src/utils.cpp:864-957 | the loop over definitions generates all their clauses |
| ToCnf.ClausesFor | src/utils.cpp:864-957 | the clauses of one definition, operator by operator |
| ToCnf.DefinitionsPickOne | src/utils.cpp:341-399 | for every assignment the definitions have exactly one extension to the fresh names |
| ToCnf.DefiningClausesDetermine | src/utils.cpp:827-963 | every assignment has exactly one extension that satisfies the defining clauses, and there the root name has the value of the formula |
| ToCnf.ToCnfMeans | src/utils.cpp:827-963 | for wide Xors at the root only: an assignment has an extension satisfying the result exactly when it satisfies the formula, and no two such extensions |
| ToCnf.ToCnfExactlyWhen | src/utils.cpp:827-963 | for all formulas: the conversion is right under an assignment exactly when reading two members of each remaining Xor gives the value of the formula |
| ToCnf.PairsInReach | src/utils.cpp:402-456 | formulas whose Xors have at most two members are all converted rightly |
| ToCnf.WideXorMisread | src/utils.cpp:430-433 | a formula with a nested wide Xor whose conversion is satisfied although the formula is not |
| ToCnf.ToCnfInCnf | src/utils.cpp:753-963 | the result is a constant or is recognised as CNF |
| ToCnf.ToCnfSize | src/utils.cpp:827-963 | one fresh symbol for each distinct non-leaf subterm, and at most one clause plus those of the definitions |
| ToCnf.CnfOfInCnf | src/utils.cpp:959-962 | the formula is in CNF with one clause for the root besides the defining ones |
| Dimacs.NumberAllBijective | src/utils.cpp:269-300 | the symbols are numbered injectively onto 1 to n |
| Dimacs.NumberAllGrows | src/utils.cpp:269-300 | symbols are numbered as they are met: those of the first clauses have the first numbers |
| Dimacs.NumberSymbols | src/utils.cpp:269-300 | the loop over clauses gives that numbering |
| Dimacs.CnfToDimacs | src/utils.cpp:203-336 | the printed text is the header with the numbers of symbols and clauses and then the clauses |
| Dimacs.ReadPrintedCnf | src/utils.cpp:301-336 | reading the printed text back gives the same counts and the numbered clauses |
| Dimacs.DimacsReadable | src/utils.cpp:203-336 | for every printable CNF the method's text can be read back, with matching header counts and symbols numbered onto 1 to n |
| Dimacs.DimacsMeansCnf | src/utils.cpp:203-336 | an assignment satisfies the clauses read back exactly when it satisfies the formula |
| Dimacs.ValuationMeansCnf | src/utils.cpp:203-336 | a valuation of the numbers, as a SAT solver returns it, satisfies the text exactly when the assignment it stands for satisfies the formula over Boolean symbols |
| Dimacs.OneToOne | src/utils.cpp:269-300 | assignments of the numbered symbols and valuations of 1 to n correspond one to one |
| Dimacs.DimacsEquisatisfiable | src/utils.cpp:203-336 | the printed text is satisfiable exactly when the formula over Boolean symbols is |
| CnfPrinting.ConversionPrintable | src/utils.cpp:203-336 | every result of to_cnf, constants included, can be printed, and its symbols are Boolean |
| CnfPrinting.ModelOfText | src/utils.cpp:827-963 | a valuation that satisfies the printed conversion gives an assignment that satisfies the formula |
| CnfPrinting.ModelOfFormula | src/utils.cpp:827-963 | an assignment that satisfies the formula extends to the new symbols so that it satisfies the printed conversion |
| CnfPrinting.PrintedEquisatisfiable | src/utils.cpp:203-336 | for wide Xors at the root only: the printed conversion is satisfiable exactly when the formula is |
| Text.ReadPrinted | src/utils.cpp:301-336 | a printed number reads back as itself |
| Text.PrintedShort | src/utils.cpp:301-336 | a number is printed without leading zeros |
| SortingNetwork.Split | src/sorting_network.cpp:86-114 | the loops split a list into its odd and even members |
| SortingNetwork.Merge | src/sorting_network.cpp:58-197 | merging terminates despite the swap of its arguments and gives the recursive merge |
| SortingNetwork.Combine | src/sorting_network.cpp:118-196 | the comparators and the left-over member in each parity case |
| SortingNetwork.SortRec | src/sorting_network.cpp:199-220 | sorting gives the recursive sort |
| SortingNetwork.Sort | src/sorting_network.cpp:27-51 | the network is refused exactly when some input is not Boolean |
| SortingNetwork.CombinedUnary | src/sorting_network.cpp:118-196 | the comparators merge an odd and an even result whose counts differ by at most two, in all parity cases |
| SortingNetwork.MergedUnary | src/sorting_network.cpp:58-197 | merging two sorted lists gives the sorted list of all their true members |
| SortingNetwork.SortedCounts | src/sorting_network.cpp:27-220 | in every model of every theory output i is true exactly when more than i inputs are |
| Logic.ActivationExact | src/utils.cpp:1011-1015 | with fresh labels, assertions and assumed labels are satisfiable exactly when the labelled terms are |
| Solvers.Solver.CheckSatAssuming | src/utils.cpp:1018-1030 | the query is exact and a core is an unsatisfiable part of the assumptions |
| UnsatCore.UnsatCoreReducer.Label | src/utils.cpp:1178-1204 | a term keeps its label, and a new label is a symbol not declared before |
| UnsatCore.UnsatCoreReducer.LabelAll | src/utils.cpp:1011-1015 | every candidate has a label that occurs nowhere else and is asserted to imply it |
| UnsatCore.UnsatCoreReducer.Keep | src/utils.cpp:1032-1047 | the candidates whose labels are in the core stay in order and the others are removed |
| UnsatCore.UnsatCoreReducer.ReduceLoop | src/utils.cpp:1017-1057 | the loop terminates also for unlimited iterations, with an unsatisfiable part of the candidates; its trace is one query and one filtering by its core for each round, and it ends at the limit or at a round that drops nothing |
| UnsatCore.UnsatCoreReducer.ReduceAssumpUnsatcore | src/utils.cpp:980-1068 | the assertion stack is restored on every exit; past the check of the formula alone, true is returned exactly when formula and assumptions are unsatisfiable, and then the reduced ones are, and with the removed ones they are all; the reduced ones are the candidates after as many rounds of querying and filtering as the limit allows, without a limit after so many that another would change nothing |
| UnsatCore.RoundsSettle | src/utils.cpp:1017-1057 | after as many rounds as there are candidates another one drops nothing |
| UnsatCore.ReducedSettled | src/utils.cpp:1017-1057 | without a limit, or with one as large as the number of candidates, the core that the solver gives for the labels of the result is all of them |
| UnsatCore.MinimalExactlyWhen | include/utils.h:126-144 | without a limit the result is a minimal core for all candidates exactly when the solver gives back whole only minimal cores |
| UnsatCore.NotMinimal | include/utils.h:126-144 | x, not x and y are all kept when the solver answers with all assumptions as the core |
| UnsatCore.NecessaryInCore | src/utils.cpp:1104-1152 | a member whose removal makes the rest satisfiable is in every unsatisfiable subset |
| UnsatCore.NecessaryKept | src/utils.cpp:1131-1150 | filtering by a core never moves the members before the position, and they stay necessary |
| UnsatCore.AllNecessary | src/utils.cpp:1104-1152 | when every member is necessary the set is a minimal core |
| UnsatCore.ShrinkNext | src/utils.cpp:1131-1150 | one filtering keeps the loop's invariant and makes progress |
| UnsatCore.UnsatCoreReducer.LinearLoop | src/utils.cpp:1104-1152 | the loop ends with an unsatisfiable part of the candidates, which is that after as many single queries as the limit allows; its first members are necessary, and with those dropped they are as many as the queries made, or all are necessary |
| UnsatCore.UnsatCoreReducer.LinearReduceAssumpUnsatcore | src/utils.cpp:1070-1176 | the contract of the other reduction; the result is that after iter + 1 queries, each leaving out one candidate, or after all when iter is zero, and it is a minimal unsatisfiable core when iter is zero or iter + 1 is at least the number of assumptions |
| UnsatCore.NecessaryMinimal | src/utils.cpp:1104-1152 | what the limited loop guarantees is a minimal core when there is no limit or one query for each candidate |
| Msat.AssumingExact | msat/include/msat_solver.h:212-246 | an environment with assumption clauses, under the labels of some terms, is satisfiable exactly when the user's assertions and these terms are |
| Msat.ConservativeExtension | msat/include/msat_solver.h:182-246 | assumption clauses never change which user terms are satisfiable with the assertions |
| Msat.MsatSolver.AssertFormula | msat/src/msat_solver.cpp:175-191 | the user's top level grows by the formula, also when it is kept as a base assertion |
| Msat.MsatSolver.Push | msat/src/msat_solver.cpp:301-308 | new empty levels |
| Msat.MsatSolver.Pop | msat/src/msat_solver.cpp:310-317 | the levels below are as they were |
| Msat.MsatSolver.ResetAssertions | msat/src/msat_solver.cpp:1142-1147 | nothing is asserted afterwards |
| Msat.MsatSolver.ClearAssumptionClauses | msat/include/msat_solver.h:182-197 | the reset at the threshold and the re-assertion leave the user's assertions as they were |
| Msat.MsatSolver.CheckSat | msat/src/msat_solver.cpp:193-212 | satisfiable exactly when the user's assertions are |
| Msat.MsatSolver.CheckSatAssuming | msat/src/msat_solver.cpp:214-231 | satisfiable exactly when the user's assertions and the assumptions are |
| Msat.MsatSolver.CheckSatAssumingLiterals | msat/src/msat_solver.cpp:233-299 | the same for Boolean literals; any other assumption is refused |
| Msat.LiteralShapes | msat/src/msat_solver.cpp:233-252 | the accepted literals are the Boolean constants and their negations |
| Msat.MsatSolver.GetUnsatAssumptions | msat/src/msat_solver.cpp:372-395 | exactly the assumptions behind the labels of the solver's core are returned; they are assumptions of the last query and unsatisfiable with the user's assertions |
| Msat.MsatSolver.ListQueryForgotten | msat/src/msat_solver.cpp:233-299 | after a plain query, the assumptions behind an unsatisfiable query in list form cannot be asked for |
| DisjointSets.SameLeaderIffConnected | src/utils.cpp:1215-1290 | two added terms have the same leader exactly when added pairs connect them |
| DisjointSets.JoinedRight | src/utils.cpp:1215-1284 | adding a pair keeps that, for any comparator |
| DisjointSets.DisjointSet.Add | src/utils.cpp:1215-1284 | the leaders become those of the joined groups; leaders stay fixed points and groups the inverse images of leaders |
| DisjointSets.DisjointSet.Merge | src/utils.cpp:1236-1262 | one group is redirected to the leader of the other |
| DisjointSets.DisjointSet.Find | src/utils.cpp:1286-1290 | the leader stands for exactly the terms connected with the given one, and none that was ever compared in its group is ranked before it |
| DisjointSets.JoinedBest | src/utils.cpp:1215-1284 | for a comparator that ranks terms, of all that were ever compared none is ranked before its leader |
| DisjointSets.LateNeverLeads | src/utils.cpp:1255-1266 | a new term that joins a group does not lead it, whatever its rank |
| DisjointSets.DisjointSet.Clear | src/utils.cpp:1292-1296 | nothing is left |
| Logging.SameSortIsEquality | src/logging_sort.cpp:126-189 | comparing sorts part by part is equality of sorts |
| Logging.SameObjectIffDeeplyEqual | src/logging_term.cpp:58-130 | two stored terms are the same object exactly when they are equal all the way down |
| Logging.ShallowCompareSuffices | src/logging_term.cpp:58-130 | comparing child objects only finds a stored term exactly when a deeply equal one is stored |
| Logging.TermHashTable.Contains | src/term_hashtable.cpp:32-37 | looking in one bucket finds out whether any stored term compares equal |
| Logging.TermHashTable.Insert | src/term_hashtable.cpp:30-30 | the term is stored unless one that compares equal is |
| Logging.TermHashTable.Lookup | src/term_hashtable.cpp:39-50 | the stored term that compares equal, or the term itself |
| Logging.LoggingSolver.Intern | src/logging_solver.cpp:177-187 | the table stays duplicate-free with distinct ids; an id is used up exactly when the term is new |
| Logging.LoggingSolver.MakeValue | src/logging_solver.cpp:168-267 | a value reports its sort, no operator and no children |
| Logging.LoggingSolver.MakeConstArray | src/logging_solver.cpp:269-298 | a constant array reports the given value as its only child; other sorts are refused |
| Logging.LoggingSolver.MakeSymbol | src/logging_solver.cpp:300-321 | a symbol is stored and found under its name |
| Logging.LoggingSolver.MakeParam | src/logging_solver.cpp:333-352 | a parameter reports its sort |
| Logging.LoggingSolver.MakeTerm | src/logging_solver.cpp:354-472 | the wrapped solver is given the wrapped children in their order; the result reports exactly the operator, the sort computed from the reported sorts and the child objects given, whatever the wrapped solver rewrites |
| Logging.LoggingSolver.ReportedMeans | src/logging_solver.cpp:354-472 | in every reachable state: when the rewriting of the wrapped solver keeps values, the wrapped term of a stored term has the value of the reported operators at the reported leaves, all the way down |
| Logging.LoggingSolver.ReportedSort | src/logging_solver.cpp:443-472 | in every reachable state a stored application has the sort inferred from the sorts of its children |
| Scopes.KeepsOuter | include/smtlib_reader.h:55-106 | a run that keeps more than d scopes open leaves the first d as they are |
| Scopes.PopRestores | include/smtlib_reader.h:55-106 | after opening n scopes, any run that does not close them and closing n, the scopes and all visible symbols are those at the push |
| Scopes.VisibleIsMerged | include/smtlib_reader.h:55-106 | the visible symbols are those of all open scopes together |
| Scopes.ScopedSymbolMap.AddMapping | include/smtlib_reader.h:66-74 | a name joins the innermost scope, and a visible one is refused |
| Scopes.ScopedSymbolMap.PushScope | include/smtlib_reader.h:76-76 | a new scope with nothing in it |
| Scopes.ScopedSymbolMap.PopScope | include/smtlib_reader.h:78-86 | erasing the innermost scope's names leaves exactly the other scopes |
| Commands.CommandScopes | src/smtlibparser.yy:123-208 | every command of a text only opens scopes, closes them, or adds to the innermost one, and takes no function or declared symbol back |
| Commands.BracketRestores | src/smtlibparser.yy:117-208 | over any run of commands: a pop restores the scopes, the visible symbols and what each name was declared or defined as at the matching push |
| Commands.BracketDefinitions | src/smtlib_reader.cpp:394-402 | over any run of commands: the map of defined functions is then the one at the push exactly when every function defined with arguments in between had a definition at the push and ends with the same one; no name is added exactly when all of them were defined |
| Commands.TraceGrows | src/smtlib_reader.cpp:338-409 | the record of definitions and the declared symbols only grow along a run, so a popped name that is declared again is the same symbol |
| Commands.FunctionSurvivesPop | src/smtlib_reader.cpp:394-402 | a function defined with arguments between a push and its pop can be called afterwards, though it was unknown before |
| Commands.SameDefinitionRestored | src/smtlib_reader.cpp:394-402 | a run in which a function is defined between a push and its pop and the map of functions is restored nevertheless |
| Commands.MisreadRun | src/smtlibparser.yy:162-173 | a run in which a definition without arguments has a dependent let in its body, and its name is then read as another value than the standard gives it |
| Commands.DefinedCallable | src/smtlib_reader.cpp:394-439 | a defined function can be called wherever its arguments can be read, whatever happened to the scopes |
| Reader.SmtLibReader.Push | src/smtlib_reader.cpp:271-278 | as many scopes as solver contexts are opened and no symbol or definition changes |
| Reader.SmtLibReader.Pop | src/smtlib_reader.cpp:280-287 | as many scopes as solver contexts are closed, the visible symbols are those of the remaining scopes, and the definitions stay |
| Reader.SmtLibReader.PushScope | src/smtlib_reader.cpp:296-300 | a scope for arguments or let bindings in which no temporary is in use |
| Reader.SmtLibReader.PopScope | src/smtlib_reader.cpp:302-306 | the local symbols and temporaries in use are those of the remaining scopes |
| Reader.SmtLibReader.LetBinding | src/smtlib_reader.cpp:528-532 | a let name is bound to its term, and refused when it is bound already |
| Reader.SmtLibReader.LookupHere | src/smtlib_reader.cpp:308-336 | a name means true or false, a local term, or a global one, in this order |
| Reader.SmtLibReader.NewSymbol | src/smtlib_reader.cpp:338-366 | exactly when a declaration is refused; a popped name declared at its old sort is the same symbol |
| Reader.NextTemp | src/smtlib_reader.cpp:441-474 | the next temporary of a sort is not in use in the scope |
| Reader.SmtLibReader.RegisterArg | src/smtlib_reader.cpp:441-474 | a formal gets the next temporary of its sort, which no other formal of the scope has; exactly when it is refused |
| Reader.SmtLibReader.RegisterArgs | src/smtlibparser.yy:455-468 | the formals of one list are bound to the first temporaries of their sorts, pairwise different; refused exactly when a name is repeated or some temporary cannot be had |
| Reader.SmtLibReader.CollidingTempRefused | src/smtlib_reader.cpp:457-463 | once eleven temporaries of a sort A exist, the first argument of a sort called A1 is refused |
| Reader.SmtLibReader.ApplyDefineFun | src/smtlib_reader.cpp:411-439 | the loop and the substitution give the body with all formals replaced at once, or an error for an unknown function or a wrong number of arguments |
| Reader.SmtLibReader.ReadTerm | src/smtlibparser.yy:240-360 | reading a term gives the recursive reading and closes every scope it opened |
| Reader.SmtLibReader.ReadBindings | src/smtlibparser.yy:306-314 | the bindings of a let are added one after the other, then its body is read and its scope closed |
| Reader.SmtLibReader.DefineFun | src/smtlib_reader.cpp:394-409 | a function with arguments is recorded over an earlier one, and a name without arguments becomes a global symbol |
| Reader.SmtLibReader.DefineFunction | src/smtlibparser.yy:162-173 | exactly when a definition is refused: two arguments of one name, no temporary for an argument, an unreadable body, or a visible name defined without arguments; else it is recorded with the names of its place and the term of its body, and one without arguments joins the innermost global scope |
| Reader.SmtLibReader.Execute | src/smtlibparser.yy:123-208 | each command is refused exactly when the command relation refuses it, and else changes the state of the reader as that relation says |
| Reader.SmtLibReader.Run | src/smtlibparser.yy:117-121 | a text is executed command by command to its end, or up to the first command that the command relation refuses |
| Reader.SmtLibReader.RunBracket | src/smtlib_reader.cpp:271-287 | after a push, any bracketed commands and the pop, the global symbol map is the one held at the push; the map of defined functions is exactly when every function defined in between ends with the definition it had, and its names are exactly when all these functions were defined |
| Reader.SmtLibReader.FunctionOutlivesScope | src/smtlib_reader.cpp:394-402 | a push, a definition with arguments and the pop leave a function that can be called |
| Reader.SmtLibReader.ReadingMeans | src/smtlib_reader.cpp:411-439 | what is read between commands has the value SMT-LIB gives to the text under the definitions in force, with and without arguments, when all lets are independent |
| Reader.SmtLibReader.ReadingMeansExactlyWhen | src/smtlib_reader.cpp:411-439 | when the definitions are read rightly, what is read has that value in every interpretation exactly when every name is visible outside of the lets that bind it and the names that reach the term stand for the same terms |
| Reader.SmtLibReader.DefinitionsExactlyWhen | src/smtlib_reader.cpp:394-409 | in every reachable state, the definitions are read rightly exactly when this holds for each of their bodies |
| Macros.ExpansionMeans | src/smtlib_reader.cpp:411-439 | the expanded body has the value of the body when each formal has the value of its argument, even if arguments mention the formals |
| Macros.ReadClean | src/smtlib_reader.cpp:441-474 | no temporary of a macro is left in a term read elsewhere |
| Macros.MeaningSame | src/smtlib_reader.cpp:441-474 | what a text means does not depend on the values of temporaries, whichever way lets are taken |
| Macros.ReadMeans | src/smtlib_reader.cpp:394-474 | nested macros that share temporaries, and defined names, mean what applying the defined functions to the values of their arguments means, each body under the names of its definition, with lets in order or in parallel |
| Macros.ReadFails | src/smtlibparser.yy:240-360 | a text that cannot be read has no meaning |
| Lets.IndependentMeans | src/smtlibparser.yy:483-489 | when no let of the text and of the definitions, those without arguments included, mentions an earlier name of its own in a binding, what is read has the value of the standard, whose lets are parallel at every depth |
| Lets.ReadExactlyWhen | src/smtlibparser.yy:483-489 | for every text that both accept: it is read as the term of the standard exactly when every name that reaches the term, through macros and nested lets, stands for the same term in both scopes; a name bound by a let does so when this holds for its binding |
| Lets.SubstitutedExactly | src/smtlib_reader.cpp:411-439 | two expansions of a macro are the same term exactly when they agree on the arguments that its body uses |
| Lets.ShapedExactly | src/smtlib_reader.cpp:411-439 | an expansion is the application of one term to others exactly when the body of the macro has that shape |
| Lets.AllowedExactlyWhen | src/smtlibparser.yy:306-314 | a text that the reader accepts is one of the standard's exactly when every name is visible outside of the lets that bind it |
| Lets.AcceptedExactlyWhen | src/smtlibparser.yy:306-314 | a text of the standard's is refused exactly when it binds a local name again |
| Lets.DefinedExactlyWhen | src/smtlibparser.yy:162-173 | recorded definitions, those without arguments included, are those of the standard exactly when each body is read as the standard has it |
| Lets.MeansExactlyWhen | src/smtlibparser.yy:483-489 | for texts over definitions that are read rightly: the value is that of the standard in all interpretations exactly under these conditions, else not where terms are their own values |
| Lets.BindingExactlyWhen | src/smtlibparser.yy:483-489 | a binding without inner lets is read as it is outside of its let exactly when every name it uses stands for the same term there |
| Lets.DependentLetMisread | src/smtlibparser.yy:483-489 | a let that is read as another term than the standard says |
| Lets.MisreadDefinition | src/smtlib_reader.cpp:403-409 | a name defined without arguments by such a let stands for another term than the standard gives it |
| Aliases.CheckErased | src/sort_inference.cpp:234-273 | sort checking and inference commute with identifying Booleans and one-bit vectors |
| Aliases.StrictIsAliased | src/sort_inference.cpp:213-273 | a well-sorted term is well-sorted when the two sorts are identified |
| Aliases.ValueHasSort | src/sort_inference.cpp:255-273 | a term well-sorted up to aliasing has a value of its sort |
| BitStructures.BitStructureAliasing | src/term_translator.cpp:30-60 | whatever the symbols are worth, the values of applications with every truth value replaced by a bit satisfy all that the translation asks of a structure |
| Casts.CastOp | src/term_translator.cpp:461-599 | the case analysis with its loops gives the planned operator on the cast arguments |
| Casts.CastToBoolExactly | src/term_translator.cpp:647-665 | the bit-vector values that are cast to Booleans are 0 and 1 of width one, and of width four where values are printed in hexadecimal |
| Casts.CastToBitExactly | src/term_translator.cpp:666-689 | Booleans are cast to bit-vectors of width one only |
| Casts.CastValueMeans | src/term_translator.cpp:641-704 | a cast value has the wanted sort and is the same value |
| Casts.CastTermMeans | src/term_translator.cpp:601-639 | a cast term has the wanted sort and the same value |
| Casts.PlanGood | src/term_translator.cpp:461-599 | the planned operator and argument sorts are well-sorted and the expected ones up to aliasing, in every case |
| Casts.PlanMeans | src/term_translator.cpp:43-57 | an exchanged operator agrees with the one it replaces on Booleans and one-bit vectors |
| Casts.CastOpMeans | src/term_translator.cpp:461-599 | a cast application is strictly well-sorted, at the expected sort up to aliasing, and has the value of the application it stands for |
| Casts.ExchangedBack | src/term_translator.cpp:43-57 | the two tables of exchanged operators are inverse to each other and hold exactly And, Or, Xor, Not and Equal and their bit-vector counterparts |
| Casts.CastOpSide | src/term_translator.cpp:471-508 | a cast Boolean operator gives a one-bit vector and a cast bit operator a Boolean; an implication stays Boolean |
| Casts.CastIteKeeps | src/term_translator.cpp:530-547 | the first branch of a conditional decides the sort and is kept |
| Casts.CastFirstKept | src/term_translator.cpp:548-587 | the array of a select or store and the applied function are kept |
| Casts.CastOpRefusesExactly | src/term_translator.cpp:461-704 | for all sorts: the cast is refused exactly for Distinct, for a comparison of compound terms, and when an argument would have to get another compound sort and is no constant array of Booleans or bits |
| Translator.ConsistentGrows | src/term_translator.cpp:139-295 | translating one node keeps every cache entry built from the entries of its children |
| Translator.TermTranslator.Populate | include/term_translator.h:93-94 | an entry given by the user keeps the cache consistent |
| Translator.TermTranslator.TransferTerm | src/term_translator.cpp:139-295 | the worklist with its own visited set terminates with a consistent cache holding the term, or at a node that cannot be translated although its children are; only what occurs in the term is new |
| Translator.TermTranslator.TransferTermAs | src/term_translator.cpp:297-339 | the translation at a sort kind, or an error |
| Translator.TranslationMeans | src/term_translator.cpp:139-295 | in every reachable cache, the entry of a source term that is well-sorted up to aliasing is strictly well-sorted at every node, at the same sort up to aliasing, and has the same value |
| Translator.TransferredMeans | src/term_translator.cpp:139-295 | what one call returns corresponds to its term, when names are unique in the term and the symbols the target solver had before the call have aliased sorts |
| Translator.TermTranslator.TransferMeaning | src/term_translator.cpp:139-295 | the same as the contract of a call; for constant arrays of values, a call fails exactly at a node that cannot be translated from the translations of its children, and no node it translated is one |
| Translator.TermTranslator.TransferPlain | src/term_translator.cpp:139-295 | a well-sorted term without constant arrays of arrays is never refused and is translated to itself when names are unique and known symbols have their sorts |
| Translator.ApplicationRefusedExactly | src/term_translator.cpp:264-290 | which well-sorted applications are refused, for all sorts |
| Translator.NodeRefusedExactly | src/term_translator.cpp:186-290 | no leaf is refused, a constant array exactly when its translated element has another sort than the elements or is an array, an application exactly when its arguments cannot be cast |
| Translator.AsKindMeans | src/term_translator.cpp:297-339 | a translation at a kind has that kind and the same value, and is refused exactly when the kind is not the source's up to aliasing |
| BVSmods.SmodMeans | msat/src/msat_extensions.cpp:166-232 | for every width and all operands, the least numbers included, the term is the remainder of floor division with the divisor's sign, and the dividend when the divisor is zero |
| BVSmods.SmodRefused | msat/src/msat_extensions.cpp:184-188 | exactly a first argument that is not a bit-vector is refused |
| BVSmods.EvalAbs | msat/src/msat_extensions.cpp:197-200 | the absolute value, read without sign, is right also for the least number |
| BVSmods.ChoiceRemainder | msat/src/msat_extensions.cpp:202-231 | the nested conditionals choose the remainder with the divisor's sign |
| BVSmods.FloorRemainderUnique | msat/src/msat_extensions.cpp:166-182 | there is only one such remainder |

## Left out

- Arithmetic over reals, strings, datatypes and quantifiers, in sort inference, substitution, translation and reading.
- The other backends, and of MathSAT everything but assumption clauses and the signed modulo: foreign calls and operator tables.
- `ext_msat_make_intdiv` and `ext_msat_make_mod`: their choice of floor or ceiling follows no general law.
- GenericSolver, PortfolioSolver, PrintingSolver, factories, Python bindings: process control and plumbing.
- The lexer, the tables of logics, and the grammar beyond terms, declarations, definitions and scopes.
- Unknown answers of solvers: the oracle always decides.
- The Abort and Skip results of walkers, and caches shared between walkers: no walker modelled here uses them.
- Substitution.Substitute: keys are symbols, as documented; for a compound key the original looks its children up
  without having visited them, and fails or rebuilds the key from them (src/solver.cpp:76-90).
- Substitution.SubstitutionLemma: constant arrays hold values only, as `make_term` for them asks.
- TreeWalkers.TreeWalker.Visit: the default `visit_term` only, which saves every node and never skips.
- ToCnf.ToCnf: formulas over Boolean symbols and constants with Not, And, Or, Xor, and Implies and Equal of exactly two
  members; the original treats any other operator as Not, and reads two members of a wider Implies or Equal.
- Dimacs.DimacsEquisatisfiable: all symbols are Boolean; the original prints any symbol, and one of another sort has no truth value.
- UnsatCore.UnsatCoreReducer.LinearReduceAssumpUnsatcore: assumptions are distinct, as its documentation asks.
- UnsatCore.UnsatCoreReducer.ReduceAssumpUnsatcore: the random engine behind `shuffle` is any reordering; labels made by earlier calls do not occur in later formulas.
- Msat.MsatSolver.CheckSatAssuming: a full `reset` of the solver, and user symbols whose names start like a label.
- DisjointSets.DisjointSet.Add: the debug assertions on values.
- Logging.SameSortIsEquality: uninterpreted sorts with parameters, whose parameters the original does not compare, and datatype sorts.
- Logging.LoggingSolver.MakeTerm: `reset`, which clears the table but not the ids; printing and traversal of terms.
- Macros.ReadMeans: bound variables and constant arrays in the text.
- Lets.MeansExactlyWhen: texts over definitions that are misread themselves; their errors could cancel out in a text.
- Commands.BracketRestores: commands that change neither symbols nor definitions, and sorts, which no pop forgets; the logic is
  set before the commands.
- Reader.SmtLibReader.ReadTerm: after an exception nothing is said about the scopes it leaves open; the sort checks of `make_term`
  while a text is read.
- Translator.TermTranslator.TransferTerm: the order in which symbols are declared; printing values and parsing them again; sorts that belong to one solver object. A symbol the target solver has already is expected at an aliased sort, as the debug assertion demands.
- Casts.CastOp: integer and real casts.
