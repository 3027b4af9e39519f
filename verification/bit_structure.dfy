/** Structures that do not tell Booleans from one-bit vectors: the values of applications with every truth value
    replaced by a bit. They are among the structures that a translation is proved for. */
module BitStructures {
  import opened Terms
  import opened Sorts
  import opened Aliases
  import opened Values

  function Truth(b: bool): Value {
    Bits([b])
  }

  /** A bit as a truth value, and back. */
  function Raised(v: Value): Value {
    if v.Bits? && |v.bits| == 1 then Bool(v.bits[0]) else v
  }

  function Lowered(v: Value): Value {
    if v.Bool? then Truth(v.b) else v
  }

  function RaisedAll(vs: seq<Value>): (rs: seq<Value>)
    ensures |rs| == |vs| && forall i :: 0 <= i < |vs| ==> rs[i] == Raised(vs[i])
  {
    seq(|vs|, i requires 0 <= i < |vs| => Raised(vs[i]))
  }

  /** What an operator gives where it has a meaning. */
  function Interpreted(op: Op, vs: seq<Value>): Option<Value> {
    if op.prim == Ite then
      if |vs| == 3 then Some(if vs[0] == Truth(true) then vs[1] else vs[2]) else None
    else
      var r := Result(op, if IsConnective(op.prim) then RaisedAll(vs) else vs);
      if r.Some? && IsPredicate(op.prim) then Some(Lowered(r.value)) else r
  }

  /** Elsewhere it gives some value of its sort. Widths are numbers of 64 bits. */
  function Apply(op: Op, vs: seq<Value>): Value {
    var ss := SortsOfValues(vs);
    if Interpreted(op, vs).Some? && (ss != [] ==> Narrow(ss[0])) then Interpreted(op, vs).value
    else Default(if CheckAliased(op, ss) then ComputeAliased(op, ss) else BVSort(1))
  }

  function Leaf(asg: Assignment, t: Term): Value {
    match t
    case Symbol(n, s) => asg(Symbol(n, Erase(s)))
    case Param(n, s) => asg(Param(n, Erase(s)))
    case BoolValue(b) => Truth(b)
    case BVValue(w, n) => Bits(OfInt(w, n))
    case _ => Truth(false)
  }

  function Constant(s: Sort, v: Value): Value {
    match Erase(s)
    case ArraySort(i, e) => Table(i, e, v, map[])
    case _ => Truth(false)
  }

  ghost function BitStructure(asg: Assignment): Structure<Value> {
    Structure(Interp((t: Term) => Leaf(asg, t), (s: Sort, v: Value) => Constant(s, v), Apply),
              (s: Sort, v: Value) => HasSort(v, s))
  }

  // ----- the values have the sorts that are inferred -----

  lemma ConnectiveHasSort(op: Op, vs: seq<Value>)
    requires IsConnective(op.prim) && CheckAliased(op, SortsOfValues(vs))
    ensures Interpreted(op, vs).Some? ==> HasSort(Interpreted(op, vs).value, BVSort(1))
  {
    var rs, ss := RaisedAll(vs), SortsOfValues(RaisedAll(vs));
    forall i | 0 <= i < |vs|
      ensures rs[i].Bool?
    {
      assert SortsOfValues(vs)[i] in SortsOfValues(vs);
    }
    ResultSorted(op, rs);
    if ss != [] {
      assert ss[0] == BoolSort;
    }
  }

  lemma OtherHasSort(op: Op, vs: seq<Value>)
    requires !IsConnective(op.prim) && op.prim != Ite && AllProper(vs) && CheckAliased(op, SortsOfValues(vs))
    requires Narrow(SortsOfValues(vs)[0])
    ensures Interpreted(op, vs).Some? ==>
      HasSort(Interpreted(op, vs).value, ComputeAliased(op, SortsOfValues(vs)))
  {
    ResultSorted(op, vs);
  }

  lemma ApplyHasSort(op: Op, vs: seq<Value>)
    requires AllProper(vs) && CheckAliased(op, SortsOfValues(vs))
    ensures HasSort(Apply(op, vs), ComputeAliased(op, SortsOfValues(vs)))
  {
    var ss := SortsOfValues(vs);
    if Interpreted(op, vs).Some? && (ss != [] ==> Narrow(ss[0])) && op.prim != Ite {
      if IsConnective(op.prim) {
        ConnectiveHasSort(op, vs);
      } else {
        OtherHasSort(op, vs);
      }
    }
  }

  lemma BitsClosed(asg: Assignment)
    ensures Closed(BitStructure(asg))
  {
    var st := BitStructure(asg);
    forall op, es, vs | CheckAliased(op, es) && AllHave(st, es, vs)
      ensures st.has(ComputeAliased(op, es), st.m.apply(op, vs))
    {
      assert SortsOfValues(vs) == es;
      ApplyHasSort(op, vs);
    }
  }

  // ----- bits are truth values -----

  lemma BitIsTruth(asg: Assignment, b: bool)
    ensures Bit(BitStructure(asg), b) == Truth(b) && HasSort(Truth(b), BVSort(1))
  {
    var n := if b then 1 else 0;
    assert OfInt(0, n / 2) == [] && OfInt(1, n) == [n % 2 == 1];
  }

  lemma OnConnective(p: PrimOp, a: bool, b: bool)
    requires IsConnective(p) && p != Not
    ensures Apply(Op(p, []), [Truth(a), Truth(b)]) == Truth(Connective(p, a, b).value)
  {
    assert RaisedAll([Truth(a), Truth(b)]) == [Bool(a), Bool(b)];
    OnBools(p, a, b);
  }

  lemma OnBools(p: PrimOp, a: bool, b: bool)
    requires IsConnective(p) && p != Not
    ensures Result(Op(p, []), [Bool(a), Bool(b)]) == Some(Bool(Connective(p, a, b).value))
  {
  }

  lemma OnBits(p: PrimOp, a: bool, b: bool)
    requires p == BVAnd || p == BVOr || p == BVXor || p == BVComp
    ensures Apply(Op(p, []), [Truth(a), Truth(b)]) == Bitwise(p, [a], [b]).value
  {
    assert Result(Op(p, []), [Truth(a), Truth(b)]) == OfBits(p, [a], [b]) == Bitwise(p, [a], [b]);
    assert SortsOfValues([Truth(a), Truth(b)])[0] == BVSort(1);
  }

  lemma OnEqual(a: bool, b: bool)
    ensures Apply(Op(Equal, []), [Truth(a), Truth(b)]) == Truth(a == b)
  {
    assert ([a] == [b]) == (a == b);
  }

  lemma BitwiseTruth(a: bool, b: bool)
    ensures Bitwise(BVAnd, [a], [b]) == Some(Truth(a && b)) && Bitwise(BVOr, [a], [b]) == Some(Truth(a || b))
    ensures Bitwise(BVXor, [a], [b]) == Some(Truth(a != b)) && Bitwise(BVComp, [a], [b]) == Some(Truth(a == b))
  {
    assert Bitwise(BVAnd, [a], [b]).value.bits == [a && b];
    assert Bitwise(BVOr, [a], [b]).value.bits == [a || b];
    assert Bitwise(BVXor, [a], [b]).value.bits == [a != b];
    assert ([a] == [b]) == (a == b);
  }

  lemma ApplyBits(asg: Assignment, p: PrimOp, a: bool, b: bool)
    ensures var st := BitStructure(asg);
      st.m.apply(Op(p, []), [Bit(st, a), Bit(st, b)]) == Apply(Op(p, []), [Truth(a), Truth(b)])
  {
    BitIsTruth(asg, a);
    BitIsTruth(asg, b);
  }

  lemma BitsSame(asg: Assignment, p: PrimOp, q: PrimOp)
    requires (p == And && q == BVAnd) || (p == Or && q == BVOr) || (p == Xor && q == BVXor)
    ensures SameBinary(BitStructure(asg), p, q)
  {
    var st := BitStructure(asg);
    forall a, b
      ensures st.m.apply(Op(p, []), [Bit(st, a), Bit(st, b)]) == st.m.apply(Op(q, []), [Bit(st, a), Bit(st, b)])
    {
      ApplyBits(asg, p, a, b);
      ApplyBits(asg, q, a, b);
      OnConnective(p, a, b);
      OnBits(q, a, b);
      BitwiseTruth(a, b);
    }
  }

  lemma BitsCompare(asg: Assignment)
    ensures ComparesBits(BitStructure(asg))
  {
    var st := BitStructure(asg);
    forall a, b
      ensures st.m.apply(Op(Equal, []), [Bit(st, a), Bit(st, b)]) == Bit(st, a == b)
    {
      ApplyBits(asg, Equal, a, b);
      OnEqual(a, b);
      BitIsTruth(asg, a == b);
    }
  }

  lemma BitsEqual(asg: Assignment)
    ensures SameBinary(BitStructure(asg), Equal, BVComp)
  {
    var st := BitStructure(asg);
    forall a, b
      ensures st.m.apply(Op(Equal, []), [Bit(st, a), Bit(st, b)])
        == st.m.apply(Op(BVComp, []), [Bit(st, a), Bit(st, b)])
    {
      ApplyBits(asg, Equal, a, b);
      ApplyBits(asg, BVComp, a, b);
      OnEqual(a, b);
      OnBits(BVComp, a, b);
      BitwiseTruth(a, b);
    }
  }

  lemma BitsEquality(asg: Assignment)
    ensures AliasedEquality(BitStructure(asg))
  {
    assert Bit(BitStructure(asg), false) != Bit(BitStructure(asg), true) by {
      BitIsTruth(asg, false);
      BitIsTruth(asg, true);
      assert Truth(false).bits[0] != Truth(true).bits[0];
    }
    BitsEqual(asg);
    BitsCompare(asg);
  }

  lemma OnBit(p: PrimOp, a: bool)
    requires p == Not || p == BVNot
    ensures Apply(Op(p, []), [Truth(a)]) == Truth(!a)
  {
    assert RaisedAll([Truth(a)]) == [Bool(a)] && Inverted([a]) == [!a];
  }

  lemma BitsNot(asg: Assignment)
    ensures SameUnary(BitStructure(asg), Not, BVNot)
  {
    var st := BitStructure(asg);
    forall a
      ensures st.m.apply(Op(Not, []), [Bit(st, a)]) == st.m.apply(Op(BVNot, []), [Bit(st, a)])
    {
      BitIsTruth(asg, a);
      OnBit(Not, a);
      OnBit(BVNot, a);
    }
  }

  lemma BitsConnectives(asg: Assignment)
    ensures AliasedConnectives(BitStructure(asg))
  {
    var st := BitStructure(asg);
    assert SameBinary(st, And, BVAnd) by {
      BitsSame(asg, And, BVAnd);
    }
    assert SameBinary(st, Or, BVOr) by {
      BitsSame(asg, Or, BVOr);
    }
    assert SameBinary(st, Xor, BVXor) by {
      BitsSame(asg, Xor, BVXor);
    }
    BitsNot(asg);
  }

  lemma BitsChoosing(asg: Assignment)
    ensures Choosing(BitStructure(asg))
  {
    var st := BitStructure(asg);
    forall a, x, y
      ensures st.m.apply(Op(Ite, []), [Bit(st, a), x, y]) == if a then x else y
    {
      BitIsTruth(asg, a);
      assert SortsOfValues([Truth(a), x, y])[0] == BVSort(1) && (Truth(a) == Truth(true) <==> a) by {
        assert Truth(a).bits[0] == a && Truth(true).bits[0];
      }
    }
  }

  lemma SortsIgnoreIndices(op: Op, ss: seq<Sort>)
    requires Unindexed(op.prim)
    ensures CheckAliased(op, ss) == CheckAliased(Op(op.prim, []), ss)
    ensures CheckAliased(op, ss) ==> ComputeAliased(op, ss) == ComputeAliased(Op(op.prim, []), ss)
  {
  }

  lemma ResultIgnoresIndices(op: Op, vs: seq<Value>)
    requires Unindexed(op.prim)
    ensures Result(op, vs) == Result(Op(op.prim, []), vs)
  {
  }

  lemma BitsIndices(asg: Assignment)
    ensures IgnoresIndices(BitStructure(asg))
  {
    var st := BitStructure(asg);
    forall op: Op, vs | Unindexed(op.prim)
      ensures st.m.apply(op, vs) == st.m.apply(Op(op.prim, []), vs)
    {
      SortsIgnoreIndices(op, SortsOfValues(vs));
      ResultIgnoresIndices(op, vs);
      ResultIgnoresIndices(op, RaisedAll(vs));
    }
  }

  lemma BitsLeaves(asg: Assignment)
    requires Fits(asg)
    ensures AliasedLeaves(BitStructure(asg)) && AliasedArrays(BitStructure(asg))
  {
    BitIsTruth(asg, false);
    BitIsTruth(asg, true);
  }

  lemma BitsTwo(asg: Assignment, v: Value)
    requires BitStructure(asg).has(BVSort(1), v)
    ensures v == Bit(BitStructure(asg), false) || v == Bit(BitStructure(asg), true)
  {
    BitIsTruth(asg, v.bits[0]);
    assert v.bits == [v.bits[0]];
  }

  /** Whatever the symbols are worth, the structure identifies the two sorts. */
  lemma BitStructureAliasing(asg: Assignment)
    requires Fits(asg)
    ensures Aliasing(BitStructure(asg))
  {
    var st := BitStructure(asg);
    assert AliasedLeaves(st) && AliasedArrays(st) by {
      BitsLeaves(asg);
    }
    assert AliasedConnectives(st) by {
      BitsConnectives(asg);
    }
    assert AliasedEquality(st) && Choosing(st) by {
      BitsEquality(asg);
      BitsChoosing(asg);
    }
    assert IgnoresIndices(st) && Closed(st) by {
      BitsIndices(asg);
      BitsClosed(asg);
    }
    forall v | st.has(BVSort(1), v)
      ensures v == Bit(st, false) || v == Bit(st, true)
    {
      BitsTwo(asg, v);
    }
  }
}
