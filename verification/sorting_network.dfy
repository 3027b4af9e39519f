/** src/sorting_network.cpp: an odd-even merge sort of Boolean terms. */
module SortingNetwork {
  import opened Terms
  import opened Sorts
  import opened Logic

  function SortTwo(a: Term, b: Term): seq<Term> {
    [Make(Or, [a, b]), Make(And, [a, b])]
  }

  /** The first, third, fifth ... element. */
  function Odds(s: seq<Term>): (r: seq<Term>) {
    seq((|s| + 1) / 2, i requires 0 <= i < (|s| + 1) / 2 => s[2 * i])
  }

  /** The second, fourth, sixth ... element. */
  function Evens(s: seq<Term>): (r: seq<Term>) {
    seq(|s| / 2, i requires 0 <= i < |s| / 2 => s[2 * i + 1])
  }

  /** Comparators between odd[i + 1] and even[i], for the first n. */
  function Compared(odd: seq<Term>, even: seq<Term>, n: nat): (r: seq<Term>)
    requires n < |odd| && n <= |even|
    ensures |r| == 2 * n
  {
    if n == 0 then [] else Compared(odd, even, n - 1) + SortTwo(odd[n], even[n - 1])
  }

  /** How many comparators there are, and what follows them, by the parities of the inputs. */
  function Comparators(isEven1: bool, isEven2: bool, odd: seq<Term>, even: seq<Term>): int {
    if isEven1 && isEven2 then |odd| - 1 else |even|
  }

  function Trailing(isEven1: bool, isEven2: bool, odd: seq<Term>, even: seq<Term>): seq<Term>
    requires odd != [] && (isEven1 && isEven2 ==> even != [])
  {
    if isEven1 && isEven2 then [even[|even| - 1]]
    else if isEven1 then []
    else [odd[|odd| - 1]]
  }

  /** The sizes of the two recursive results, once the first input is not the only odd one. */
  predicate Fit(isEven1: bool, isEven2: bool, odd: seq<Term>, even: seq<Term>) {
    && odd != [] && (isEven2 ==> isEven1)
    && |odd| == |even| + (if isEven1 && isEven2 then 0 else if isEven1 then 1 else 2)
  }

  function Combined(isEven1: bool, isEven2: bool, odd: seq<Term>, even: seq<Term>): (r: seq<Term>)
    requires Fit(isEven1, isEven2, odd, even)
    ensures |r| == |odd| + |even|
  {
    [odd[0]] + Compared(odd, even, Comparators(isEven1, isEven2, odd, even)) + Trailing(isEven1, isEven2, odd, even)
  }

  function Merged(s1: seq<Term>, s2: seq<Term>): (r: seq<Term>)
    ensures |r| == |s1| + |s2|
    decreases |s1| + |s2|, if |s1| % 2 == 1 && |s2| % 2 == 0 then 1 else 0
  {
    if s1 == [] then s2
    else if s2 == [] then s1
    else if |s1| == 1 && |s2| == 1 then SortTwo(s1[0], s2[0])
    else if |s1| % 2 == 1 && |s2| % 2 == 0 then Merged(s2, s1)
    else Combined(|s1| % 2 == 0, |s2| % 2 == 0, Merged(Odds(s1), Odds(s2)), Merged(Evens(s1), Evens(s2)))
  }

  function Sorted(s: seq<Term>): (r: seq<Term>)
    ensures |r| == |s|
    decreases |s|
  {
    if |s| <= 1 then s
    else if |s| == 2 then SortTwo(s[0], s[1])
    else Merged(Sorted(s[..|s| / 2]), Sorted(s[|s| / 2..]))
  }

  lemma HalvesSmaller(s1: seq<Term>, s2: seq<Term>)
    requires s1 != [] && s2 != [] && |s1| + |s2| > 2
    ensures |Odds(s1)| + |Odds(s2)| < |s1| + |s2| && |Evens(s1)| + |Evens(s2)| < |s1| + |s2|
  {
  }

  /** The results of the recursive calls of a merge fit together. */
  lemma HalvesFit(s1: seq<Term>, s2: seq<Term>)
    requires s1 != [] && s2 != [] && |s1| + |s2| > 2 && (|s1| % 2 == 1 ==> |s2| % 2 == 1)
    ensures forall odd: seq<Term>, even: seq<Term> ::
      |odd| == |Odds(s1)| + |Odds(s2)| && |even| == |Evens(s1)| + |Evens(s2)| ==>
      Fit(|s1| % 2 == 0, |s2| % 2 == 0, odd, even)
  {
  }

  /** What a merge is when neither input is empty and no more than one term comes first. */
  lemma {:induction false} MergedIsCombined(s1: seq<Term>, s2: seq<Term>, odd: seq<Term>, even: seq<Term>)
    requires s1 != [] && s2 != [] && |s1| + |s2| > 2 && (|s1| % 2 == 1 ==> |s2| % 2 == 1)
    requires odd == Merged(Odds(s1), Odds(s2)) && even == Merged(Evens(s1), Evens(s2))
    ensures Fit(|s1| % 2 == 0, |s2| % 2 == 0, odd, even)
    ensures Merged(s1, s2) == Combined(|s1| % 2 == 0, |s2| % 2 == 0, odd, even)
  {
    HalvesFit(s1, s2);
    assert !(|s1| == 1 && |s2| == 1);
  }

  // ----- the methods -----

  method Split(s: seq<Term>) returns (odd: seq<Term>, even: seq<Term>)
    ensures odd == Odds(s) && even == Evens(s)
  {
    odd, even := [], [];
    for i := 0 to |s|
      invariant |odd| == (i + 1) / 2 && |even| == i / 2
      invariant forall j :: 0 <= j < |odd| ==> odd[j] == s[2 * j]
      invariant forall j :: 0 <= j < |even| ==> even[j] == s[2 * j + 1]
    {
      if i % 2 == 0 {
        odd := odd + [s[i]];
      } else {
        even := even + [s[i]];
      }
    }
  }

  method Merge(s1: seq<Term>, s2: seq<Term>) returns (res: seq<Term>)
    ensures res == Merged(s1, s2)
    decreases |s1| + |s2|, if |s1| % 2 == 1 && |s2| % 2 == 0 then 1 else 0
  {
    if |s1| == 0 {
      return s2;
    } else if |s2| == 0 {
      return s1;
    } else if |s1| == 1 && |s2| == 1 {
      return SortTwo(s1[0], s2[0]);
    }
    var isEven1, isEven2 := |s1| % 2 == 0, |s2| % 2 == 0;
    if !isEven1 && isEven2 {
      res := Merge(s2, s1);
      return;
    }
    var odd1, even1 := Split(s1);
    var odd2, even2 := Split(s2);
    HalvesSmaller(s1, s2);
    var even := Merge(even1, even2);
    var odd := Merge(odd1, odd2);
    MergedIsCombined(s1, s2, odd, even);
    res := Combine(isEven1, isEven2, odd, even);
  }

  /** The end of merge: the first odd result, the comparators, and what is left over. */
  method Combine(isEven1: bool, isEven2: bool, odd: seq<Term>, even: seq<Term>) returns (res: seq<Term>)
    requires Fit(isEven1, isEven2, odd, even)
    ensures res == Combined(isEven1, isEven2, odd, even)
  {
    res := [odd[0]];
    var n := if isEven1 && isEven2 then |odd| - 1 else |even|;
    for i := 0 to n
      invariant res == [odd[0]] + Compared(odd, even, i)
    {
      var two := SortTwo(odd[i + 1], even[i]);
      res := res + [two[0]] + [two[1]];
    }
    if isEven1 && isEven2 {
      res := res + [even[|even| - 1]];
    } else if !isEven1 && !isEven2 {
      res := res + [odd[|odd| - 1]];
    }
  }

  method SortRec(unsorted: seq<Term>) returns (res: seq<Term>)
    requires unsorted != []
    ensures res == Sorted(unsorted)
    decreases |unsorted|
  {
    if |unsorted| == 1 {
      return unsorted;
    } else if |unsorted| == 2 {
      return SortTwo(unsorted[0], unsorted[1]);
    }
    var pivot := |unsorted| / 2;
    var left := SortRec(unsorted[..pivot]);
    var right := SortRec(unsorted[pivot..]);
    res := Merge(left, right);
  }

  /** None stands for the exception on a term that is not Boolean. */
  method Sort(unsorted: seq<Term>) returns (res: Option<seq<Term>>)
    ensures res.Some? <==> forall t :: t in unsorted ==> SortOf(t) == Some(BoolSort)
    ensures res.Some? ==> res.value == Sorted(unsorted)
  {
    if unsorted == [] {
      return Some([]);
    }
    for i := 0 to |unsorted|
      invariant forall j :: 0 <= j < i ==> SortOf(unsorted[j]) == Some(BoolSort)
    {
      if SortOf(unsorted[i]) != Some(BoolSort) {
        assert unsorted[i] in unsorted;
        return None;
      }
    }
    var sorted := SortRec(unsorted);
    return Some(sorted);
  }

  // ----- what the network computes -----

  function CountTrue<V>(th: Theory<V>, m: Model<V>, s: seq<Term>): (k: nat)
    ensures k <= |s|
  {
    if s == [] then 0
    else CountTrue(th, m, s[..|s| - 1]) + if True(th, m, s[|s| - 1]) then 1 else 0
  }

  /** The first k terms are true and the others are not. */
  ghost predicate Unary<V>(th: Theory<V>, m: Model<V>, s: seq<Term>, k: nat) {
    k <= |s| && forall i :: 0 <= i < |s| ==> (True(th, m, s[i]) <==> i < k)
  }

  lemma UnaryHalves<V>(th: Theory<V>, m: Model<V>, s: seq<Term>, k: nat)
    requires Unary(th, m, s, k)
    ensures Unary(th, m, Odds(s), (k + 1) / 2) && Unary(th, m, Evens(s), k / 2)
  {
  }

  /** What the comparators compute. */
  lemma {:induction false} ComparedTrue<V(!new)>(th: Theory<V>, m: Model<V>, odd: seq<Term>, even: seq<Term>, n: nat,
                                                 i: nat)
    requires Standard(th) && n < |odd| && n <= |even| && i < n
    ensures True(th, m, Compared(odd, even, n)[2 * i]) == (True(th, m, odd[i + 1]) || True(th, m, even[i]))
    ensures True(th, m, Compared(odd, even, n)[2 * i + 1]) == (True(th, m, odd[i + 1]) && True(th, m, even[i]))
  {
    if i == n - 1 {
      TruePair(th, m, odd[n], even[n - 1]);
    } else {
      ComparedTrue(th, m, odd, even, n - 1, i);
    }
  }

  /** The merge of the odd and the even results in all three parity cases. */
  lemma CombinedUnary<V(!new)>(th: Theory<V>, m: Model<V>, isEven1: bool, isEven2: bool,
                               odd: seq<Term>, even: seq<Term>, ko: nat, ke: nat)
    requires Standard(th) && Fit(isEven1, isEven2, odd, even)
    requires Unary(th, m, odd, ko) && Unary(th, m, even, ke) && ke <= ko <= ke + 2
    ensures Unary(th, m, Combined(isEven1, isEven2, odd, even), ko + ke)
  {
    var n := Comparators(isEven1, isEven2, odd, even);
    var mid, last := Compared(odd, even, n), Trailing(isEven1, isEven2, odd, even);
    var r := Combined(isEven1, isEven2, odd, even);
    forall j | 0 <= j < |r|
      ensures True(th, m, r[j]) <==> j < ko + ke
    {
      if 1 <= j <= 2 * n {
        assert r[j] == mid[j - 1];
        ComparedUnary(th, m, odd, even, n, j - 1, ko, ke);
      } else if j > 0 {
        assert j == 2 * n + 1 && r[j] == last[0];
      }
    }
  }

  /** The outputs of the comparators. */
  lemma {:induction false} ComparedUnary<V(!new)>(th: Theory<V>, m: Model<V>, odd: seq<Term>, even: seq<Term>, n: nat,
                                                  j: nat, ko: nat,
                                                  ke: nat)
    requires Standard(th) && n < |odd| && n <= |even| && j < 2 * n
    requires Unary(th, m, odd, ko) && Unary(th, m, even, ke) && ke <= ko <= ke + 2
    ensures True(th, m, Compared(odd, even, n)[j]) <==> j + 1 < ko + ke
  {
    var i := j / 2;
    ComparedTrue(th, m, odd, even, n, i);
    assert j == 2 * i || j == 2 * i + 1;
    assert True(th, m, odd[i + 1]) == (i + 1 < ko) && True(th, m, even[i]) == (i < ke);
  }

  lemma CombinedHalves<V(!new)>(th: Theory<V>, m: Model<V>, isEven1: bool, isEven2: bool,
                                odd: seq<Term>, even: seq<Term>, k1: nat, k2: nat)
    requires Standard(th) && Fit(isEven1, isEven2, odd, even)
    requires Unary(th, m, odd, (k1 + 1) / 2 + (k2 + 1) / 2) && Unary(th, m, even, k1 / 2 + k2 / 2)
    ensures Unary(th, m, Combined(isEven1, isEven2, odd, even), k1 + k2)
  {
    var ko, ke := (k1 + 1) / 2 + (k2 + 1) / 2, k1 / 2 + k2 / 2;
    assert ko + ke == k1 + k2;
    CombinedUnary(th, m, isEven1, isEven2, odd, even, ko, ke);
  }

  lemma {:induction false} MergedHalves<V(!new)>(th: Theory<V>, m: Model<V>, s1: seq<Term>, s2: seq<Term>, k1: nat,
                                                 k2: nat)
    requires Standard(th)
    requires s1 != [] && s2 != [] && |s1| + |s2| > 2 && (|s1| % 2 == 1 ==> |s2| % 2 == 1)
    requires Unary(th, m, Merged(Odds(s1), Odds(s2)), (k1 + 1) / 2 + (k2 + 1) / 2)
    requires Unary(th, m, Merged(Evens(s1), Evens(s2)), k1 / 2 + k2 / 2)
    ensures Unary(th, m, Merged(s1, s2), k1 + k2)
  {
    var odd, even := Merged(Odds(s1), Odds(s2)), Merged(Evens(s1), Evens(s2));
    MergedIsCombined(s1, s2, odd, even);
    CombinedHalves(th, m, |s1| % 2 == 0, |s2| % 2 == 0, odd, even, k1, k2);
  }

  lemma PairUnary<V(!new)>(th: Theory<V>, m: Model<V>, a: Term, b: Term, k1: nat, k2: nat)
    requires Standard(th) && Unary(th, m, [a], k1) && Unary(th, m, [b], k2)
    ensures Unary(th, m, SortTwo(a, b), k1 + k2)
  {
    TruePair(th, m, a, b);
    assert True(th, m, [a][0]) == True(th, m, a) && True(th, m, [b][0]) == True(th, m, b);
  }

  /** Merging two sorted lists sorts them together. */
  lemma {:induction false} MergedUnary<V(!new)>(th: Theory<V>, m: Model<V>, s1: seq<Term>, s2: seq<Term>, k1: nat,
                                                k2: nat)
    requires Standard(th) && Unary(th, m, s1, k1) && Unary(th, m, s2, k2)
    ensures Unary(th, m, Merged(s1, s2), k1 + k2)
    decreases |s1| + |s2|, if |s1| % 2 == 1 && |s2| % 2 == 0 then 1 else 0
  {
    if s1 == [] || s2 == [] {
    } else if |s1| == 1 && |s2| == 1 {
      assert s1 == [s1[0]] && s2 == [s2[0]];
      PairUnary(th, m, s1[0], s2[0], k1, k2);
    } else if |s1| % 2 == 1 && |s2| % 2 == 0 {
      MergedUnary(th, m, s2, s1, k2, k1);
    } else {
      UnaryHalves(th, m, s1, k1);
      UnaryHalves(th, m, s2, k2);
      HalvesSmaller(s1, s2);
      MergedUnary(th, m, Evens(s1), Evens(s2), k1 / 2, k2 / 2);
      MergedUnary(th, m, Odds(s1), Odds(s2), (k1 + 1) / 2, (k2 + 1) / 2);
      MergedHalves(th, m, s1, s2, k1, k2);
    }
  }

  lemma {:induction false} CountSplit<V>(th: Theory<V>, m: Model<V>, a: seq<Term>, b: seq<Term>)
    ensures CountTrue(th, m, a + b) == CountTrue(th, m, a) + CountTrue(th, m, b)
    decreases |b|
  {
    if b == [] {
      assert a + b == a;
    } else {
      assert (a + b)[..|a + b| - 1] == a + b[..|b| - 1];
      CountSplit(th, m, a, b[..|b| - 1]);
    }
  }

  lemma {:induction false} CountOne<V>(th: Theory<V>, m: Model<V>, a: Term)
    ensures CountTrue(th, m, [a]) == if True(th, m, a) then 1 else 0
  {
    assert [a][..0] == [];
  }

  lemma {:induction false} CountTwo<V>(th: Theory<V>, m: Model<V>, a: Term, b: Term)
    ensures CountTrue(th, m, [a, b]) == CountTrue(th, m, [a]) + CountTrue(th, m, [b])
  {
    assert [a, b] == [a] + [b];
    CountSplit(th, m, [a], [b]);
  }

  lemma {:induction false} OneUnary<V>(th: Theory<V>, m: Model<V>, a: Term)
    ensures Unary(th, m, [a], CountTrue(th, m, [a]))
  {
    CountOne(th, m, a);
  }

  lemma {:induction false} TwoUnary<V(!new)>(th: Theory<V>, m: Model<V>, a: Term, b: Term)
    requires Standard(th)
    ensures Unary(th, m, Sorted([a, b]), CountTrue(th, m, [a, b]))
  {
    OneUnary(th, m, a);
    OneUnary(th, m, b);
    PairUnary(th, m, a, b, CountTrue(th, m, [a]), CountTrue(th, m, [b]));
    CountTwo(th, m, a, b);
  }

  lemma {:induction false} SortedUnary<V(!new)>(th: Theory<V>, m: Model<V>, s: seq<Term>)
    requires Standard(th)
    ensures Unary(th, m, Sorted(s), CountTrue(th, m, s))
    decreases |s|
  {
    if |s| == 1 {
      assert s == [s[0]];
      OneUnary(th, m, s[0]);
    } else if |s| == 2 {
      assert s == [s[0], s[1]];
      TwoUnary(th, m, s[0], s[1]);
    } else if |s| > 2 {
      var a, b := s[..|s| / 2], s[|s| / 2..];
      SortedUnary(th, m, a);
      SortedUnary(th, m, b);
      TwoHalves(s);
      CountSplit(th, m, a, b);
      MergedUnary(th, m, Sorted(a), Sorted(b), CountTrue(th, m, a), CountTrue(th, m, b));
    }
  }

  lemma TwoHalves(s: seq<Term>)
    requires |s| > 2
    ensures s == s[..|s| / 2] + s[|s| / 2..]
  {
  }

  /** In every model of every theory, output i is true exactly when more than i inputs are. */
  lemma {:induction false} SortedCounts<V(!new)>(th: Theory<V>, m: Model<V>, s: seq<Term>)
    requires Standard(th)
    ensures |Sorted(s)| == |s|
    ensures forall i :: 0 <= i < |s| ==> (True(th, m, Sorted(s)[i]) <==> i < CountTrue(th, m, s))
  {
    SortedUnary(th, m, s);
  }
}
