/** UnorderedScopedSymbolMap of include/smtlib_reader.h: one map for the visible symbols, and for
    every open scope the names it added. */
module Scopes {
  import opened Terms
  import opened Sorts

  /** What each scope added, outermost scope first. */
  type Frames<T> = seq<map<string, T>>

  function Merged<T>(fs: Frames<T>): map<string, T> {
    if fs == [] then map[] else Merged(fs[..|fs| - 1]) + fs[|fs| - 1]
  }

  /** A name added to the innermost scope. */
  function Added<T>(fs: Frames<T>, name: string, t: T): Frames<T>
    requires fs != []
  {
    fs[|fs| - 1 := fs[|fs| - 1][name := t]]
  }

  // ----- runs -----

  /** Empty scopes. */
  function Opened<T>(n: nat): Frames<T> {
    seq(n, _ => map[])
  }

  ghost predicate Within<T>(a: map<string, T>, b: map<string, T>) {
    forall x :: x in a ==> x in b && b[x] == a[x]
  }

  /** What one operation on the scopes may do: open some, close some, or add names to the innermost one. */
  ghost predicate Step<T>(fs: Frames<T>, fs': Frames<T>) {
    || (|fs| <= |fs'| && fs' == fs + Opened(|fs'| - |fs|))
    || (|fs'| <= |fs| && fs' == fs[..|fs'|])
    || (fs != [] && |fs'| == |fs| && fs'[..|fs| - 1] == fs[..|fs| - 1] && Within(fs[|fs| - 1], fs'[|fs| - 1]))
  }

  ghost predicate Steps<T>(run: seq<Frames<T>>) {
    run != [] && forall i {:trigger run[i + 1]} :: 0 <= i < |run| - 1 ==> Step(run[i], run[i + 1])
  }

  /** A run that always keeps more than d scopes open leaves the first d as they are. */
  lemma {:induction false} KeepsOuter<T>(run: seq<Frames<T>>, d: nat)
    requires Steps(run) && forall i :: 0 <= i < |run| ==> |run[i]| > d
    ensures run[|run| - 1][..d] == run[0][..d]
    decreases |run|
  {
    if |run| > 1 {
      var k := |run| - 2;
      var front := run[..k + 1];
      assert Steps(front) by {
        forall i | 0 <= i < |front| - 1
          ensures Step(front[i], front[i + 1])
        {
          assert front[i + 1] == run[i + 1];
        }
      }
      KeepsOuter(front, d);
      StepKeeps(run[k], run[k + 1], d);
    }
  }

  lemma StepKeeps<T>(fs: Frames<T>, fs': Frames<T>, d: nat)
    requires Step(fs, fs') && |fs| > d && |fs'| > d
    ensures fs'[..d] == fs[..d]
  {
    if |fs'| == |fs| && fs'[..|fs| - 1] == fs[..|fs| - 1] {
      assert fs'[..|fs| - 1][..d] == fs'[..d] && fs[..|fs| - 1][..d] == fs[..d];
    } else if |fs'| <= |fs| && fs' == fs[..|fs'|] {
      assert fs[..|fs'|][..d] == fs[..d];
    }
  }

  /** Opening n scopes, any run that does not close them, and closing n scopes: the scopes are as before,
      and so is everything visible. */
  lemma {:induction false} PopRestores<T>(fs: Frames<T>, n: nat, run: seq<Frames<T>>)
    requires n > 0 && Steps(run) && run[0] == fs + Opened(n)
    requires forall i :: 0 <= i < |run| ==> |run[i]| >= |fs| + n
    requires |run[|run| - 1]| == |fs| + n
    ensures var last := run[|run| - 1];
      last[..|last| - n] == fs && Merged(last[..|last| - n]) == Merged(fs)
  {
    KeepsOuter(run, |fs|);
    assert (fs + Opened(n))[..|fs|] == fs;
  }

  // ----- the two fields of the map -----

  ghost function Union(symbols: seq<set<string>>): set<string> {
    if symbols == [] then {} else Union(symbols[..|symbols| - 1]) + symbols[|symbols| - 1]
  }

  /** No name is in two scopes. */
  ghost predicate Apart(symbols: seq<set<string>>) {
    symbols == [] || (Apart(symbols[..|symbols| - 1]) && symbols[|symbols| - 1] !! Union(symbols[..|symbols| - 1]))
  }

  /** Every visible symbol belongs to exactly one scope. */
  ghost predicate Scoped(symbols: seq<set<string>>, symbolMap: map<string, Term>) {
    symbols != [] && Apart(symbols) && symbolMap.Keys == Union(symbols)
  }

  ghost function FrameOf(names: set<string>, symbolMap: map<string, Term>): map<string, Term> {
    map n | n in names && n in symbolMap :: symbolMap[n]
  }

  ghost function FramesOf(symbols: seq<set<string>>, symbolMap: map<string, Term>): (fs: Frames<Term>)
    ensures |fs| == |symbols|
  {
    if symbols == [] then []
    else FramesOf(symbols[..|symbols| - 1], symbolMap) + [FrameOf(symbols[|symbols| - 1], symbolMap)]
  }

  /** Names in no scope do not matter. */
  lemma {:induction false} FramesDepend(symbols: seq<set<string>>, symbolMap: map<string, Term>,
                                        symbolMap': map<string, Term>)
    requires forall n :: n in Union(symbols) ==> (n in symbolMap <==> n in symbolMap')
    requires forall n :: n in Union(symbols) && n in symbolMap ==> symbolMap[n] == symbolMap'[n]
    ensures FramesOf(symbols, symbolMap) == FramesOf(symbols, symbolMap')
  {
    if symbols != [] {
      FramesDepend(symbols[..|symbols| - 1], symbolMap, symbolMap');
      assert FrameOf(symbols[|symbols| - 1], symbolMap) == FrameOf(symbols[|symbols| - 1], symbolMap');
    }
  }

  /** The visible symbols are those of all scopes together. */
  lemma {:induction false} MergedFrames(symbols: seq<set<string>>, symbolMap: map<string, Term>)
    requires Union(symbols) <= symbolMap.Keys
    ensures Merged(FramesOf(symbols, symbolMap)) == FrameOf(Union(symbols), symbolMap)
  {
    if symbols != [] {
      var fs := FramesOf(symbols, symbolMap);
      assert fs[..|fs| - 1] == FramesOf(symbols[..|symbols| - 1], symbolMap);
      var front, last := symbols[..|symbols| - 1], symbols[|symbols| - 1];
      MergedFrames(front, symbolMap);
      assert FrameOf(Union(front), symbolMap) + FrameOf(last, symbolMap) == FrameOf(Union(symbols), symbolMap);
    }
  }

  lemma {:induction false} VisibleIsMerged(symbols: seq<set<string>>, symbolMap: map<string, Term>)
    requires Scoped(symbols, symbolMap)
    ensures symbolMap == Merged(FramesOf(symbols, symbolMap))
  {
    MergedFrames(symbols, symbolMap);
    WholeFrame(symbolMap);
  }

  lemma WholeFrame(symbolMap: map<string, Term>)
    ensures FrameOf(symbolMap.Keys, symbolMap) == symbolMap
  {
  }

  lemma AddScoped(symbols: seq<set<string>>, symbolMap: map<string, Term>, name: string, t: Term)
    requires Scoped(symbols, symbolMap) && name !in symbolMap
    ensures var top, fs := |symbols| - 1, FramesOf(symbols, symbolMap);
      var symbols', symbolMap' := symbols[top := symbols[top] + {name}], symbolMap[name := t];
      && Scoped(symbols', symbolMap')
      && FramesOf(symbols', symbolMap') == Added(fs, name, t)
  {
    var top, front := |symbols| - 1, symbols[..|symbols| - 1];
    var symbols', symbolMap' := symbols[top := symbols[top] + {name}], symbolMap[name := t];
    assert symbols'[..top] == front && name !in Union(front);
    FramesDepend(front, symbolMap, symbolMap');
    assert FrameOf(symbols'[top], symbolMap') == FrameOf(symbols[top], symbolMap)[name := t];
  }

  lemma {:induction false} PushScoped(symbols: seq<set<string>>, symbolMap: map<string, Term>)
    requires Scoped(symbols, symbolMap)
    ensures Scoped(symbols + [{}], symbolMap)
    ensures FramesOf(symbols + [{}], symbolMap) == FramesOf(symbols, symbolMap) + [map[]]
  {
    assert (symbols + [{}])[..|symbols|] == symbols;
    assert FrameOf({}, symbolMap) == map[];
  }

  lemma PopScoped(symbols: seq<set<string>>, symbolMap: map<string, Term>)
    requires Scoped(symbols, symbolMap) && |symbols| > 1
    ensures var top := |symbols| - 1;
      var symbolMap' := symbolMap - symbols[top];
      && Scoped(symbols[..top], symbolMap')
      && FramesOf(symbols[..top], symbolMap') == FramesOf(symbols, symbolMap)[..top]
  {
    FramesDepend(symbols[..|symbols| - 1], symbolMap, symbolMap - symbols[|symbols| - 1]);
  }

  class ScopedSymbolMap {
    var symbols: seq<set<string>>
    var symbolMap: map<string, Term>
    /** What each scope added. */
    ghost var frames: Frames<Term>

    constructor ()
      ensures Valid() && frames == [map[]] && symbolMap == map[]
    {
      symbols, symbolMap, frames := [{}], map[], [map[]];
      new;
      assert FramesOf([], symbolMap) == [] && FrameOf({}, symbolMap) == map[];
      assert symbols[..0] == [];
    }

    ghost predicate Valid()
      reads this
    {
      Scoped(symbols, symbolMap) && frames == FramesOf(symbols, symbolMap)
    }

    function CurrentScope(): nat
      requires symbols != []
      reads this
    {
      |symbols| - 1
    }

    /** false stands for the exception on a name that is visible already. */
    method AddMapping(name: string, t: Term) returns (ok: bool)
      requires Valid()
      modifies this
      ensures Valid() && ok == (name !in old(symbolMap)) && |symbols| == |old(symbols)|
      ensures !ok ==> symbolMap == old(symbolMap) && frames == old(frames)
      ensures ok ==> symbolMap == old(symbolMap)[name := t]
      ensures ok ==> frames == Added(old(frames), name, t)
    {
      if name in symbolMap {
        return false;
      }
      AddScoped(symbols, symbolMap, name, t);
      symbolMap := symbolMap[name := t];
      symbols := symbols[|symbols| - 1 := symbols[|symbols| - 1] + {name}];
      frames := Added(frames, name, t);
      ok := true;
    }

    method PushScope()
      requires Valid()
      modifies this
      ensures Valid() && symbolMap == old(symbolMap) && frames == old(frames) + [map[]]
        && |symbols| == |old(symbols)| + 1
    {
      PushScoped(symbols, symbolMap);
      symbols, frames := symbols + [{}], frames + [map[]];
    }

    method PopScope()
      requires Valid() && CurrentScope() > 0
      modifies this
      ensures Valid() && frames == old(frames)[..|old(frames)| - 1] && |symbols| == |old(symbols)| - 1
      ensures symbolMap == Merged(frames)
      ensures forall n :: n in symbolMap ==> n in old(symbolMap) && symbolMap[n] == old(symbolMap)[n]
    {
      PopScoped(symbols, symbolMap);
      ghost var top, before := symbols[|symbols| - 1], symbolMap;
      var names := symbols[|symbols| - 1];
      while names != {}
        invariant names <= top && symbols == old(symbols) && frames == old(frames)
          && symbolMap == before - (top - names)
        decreases names
      {
        var sym :| sym in names;
        symbolMap := symbolMap - {sym};
        names := names - {sym};
      }
      assert top - names == top;
      symbols, frames := symbols[..|symbols| - 1], frames[..|frames| - 1];
      VisibleIsMerged(symbols, symbolMap);
    }

    function GetSymbol(sym: string): Option<Term>
      reads this
    {
      if sym in symbolMap then Some(symbolMap[sym]) else None
    }
  }
}
